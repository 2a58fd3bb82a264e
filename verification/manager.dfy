/** `EpisodeManager` of kiox/episode.py (lines 188-295): splits the stream
    of steps into episodes, remembers which episode produced each buffered
    transition, and removes an episode, with its steps, once the transition
    buffer has dropped every transition the episode produced.

    The manager keeps what it reads of each episode as a value
    (`EpisodeView`: the ids, their positions and the transitions) keyed by
    an episode serial number, and its books are the `Ledger` whose
    operations are proved to keep the manager's invariant. */
module EpisodeManagers {
  import opened Common
  import opened Steps
  import opened Transitions
  import opened TransitionBuffers
  import opened Episodes
  import opened Ledgers

  /** The total length of the episodes `es` (`get_total_step_size`). */
  ghost function SizeSum(views: map<EpisodeId, EpisodeView>, es: seq<EpisodeId>): nat
  {
    if |es| == 0 then 0
    else SizeSum(views, es[..|es| - 1]) + (if es[|es| - 1] in views then |views[es[|es| - 1]].idList| else 0)
  }

  /** The ids stored for the episodes among `es`. */
  ghost function HeldBy(l: Ledger, es: seq<EpisodeId>): set<nat>
  {
    set id | id in l.stepOwner && l.stepOwner[id] in es
  }

  /** An episode's positions are keyed by exactly its ids, as many as it
      has steps. */
  lemma PositionKeys(pos: map<nat, nat>, ids: seq<nat>)
    requires IdPositions(pos, ids)
    ensures pos.Keys == Elems(ids) && |pos.Keys| == |ids|
  {
    assert Distinct(ids) by {
      forall i, j | 0 <= i < j < |ids|
        ensures ids[i] != ids[j]
      {
        assert pos[ids[i]] == i && pos[ids[j]] == j;
      }
    }
    ElemsCount(ids);
  }

  /** Adding one more live episode to `es` adds exactly its ids. */
  lemma HeldByStep(l: Ledger, es: seq<EpisodeId>, e: EpisodeId)
    requires StepsHeld(l) && Shaped(l) && e in l.views && e !in es
    ensures HeldBy(l, es + [e]) == HeldBy(l, es) + l.views[e].pos.Keys
    ensures HeldBy(l, es) !! l.views[e].pos.Keys
  {
  }

  /** The episodes of a prefix of the live list hold as many steps as
      their lengths add up to. */
  lemma {:induction false} HeldByCount(l: Ledger, i: nat)
    requires Shaped(l) && StepsHeld(l) && Lived(l) && i <= |l.live|
    ensures |HeldBy(l, l.live[..i])| == SizeSum(l.views, l.live[..i])
  {
    if i == 0 {
      assert HeldBy(l, l.live[..0]) == {};
    } else {
      HeldByCount(l, i - 1);
      var es, e := l.live[..i - 1], l.live[i - 1];
      assert l.live[..i] == es + [e] && l.live[..i][..i - 1] == es;
      assert e !in es;
      HeldByStep(l, es, e);
      PositionKeys(l.views[e].pos, l.views[e].idList);
    }
  }

  /** The live episodes together are exactly as long as the store holds
      steps: every stored step belongs to one live episode. */
  lemma TotalIsStored(l: Ledger)
    requires Consistent(l)
    ensures SizeSum(l.views, l.live) == |l.steps|
  {
    HeldByCount(l, |l.live|);
    assert l.live[..|l.live|] == l.live;
    assert HeldBy(l, l.live) == l.steps.Keys;
  }

  /** A step id is found in the store exactly when a live episode holds it. */
  lemma FoundIffHeld(l: Ledger, idx: nat)
    requires Consistent(l)
    ensures GetStep(l.steps, idx).Ok? <==> exists e :: e in l.views && idx in l.views[e].pos
  {
    if idx in l.steps {
      assert idx in l.views[l.stepOwner[idx]].pos;
    }
  }

  class EpisodeManager {
    const store: StepStore
    const tb: FIFOTransitionBuffer
    /** `_episodes`: the live episodes in order, the active one last. */
    var episodes: seq<EpisodeId>
    var views: map<EpisodeId, EpisodeView>
    /** `_transition_to_episode`, keyed by transition identity. */
    var owner: map<LazyTransitionObject, EpisodeId>
    /** `_dropped_transitions`. */
    var dropped: map<EpisodeId, seq<LazyTransitionObject>>
    /** The serial the next new episode gets. */
    var serial: nat
    ghost var stepOwner: map<nat, EpisodeId>
    ghost var seen: set<LazyTransitionObject>

    ghost function Books(): Ledger
      reads this, store, tb
    {
      Ledger(store.steps, stepOwner, owner, dropped, seen, tb.buffer, tb.history, views, episodes)
    }

    ghost predicate Valid()
      reads this, store, tb
    {
      store.Valid() && tb.Valid() && |episodes| >= 1 && Consistent(Books())
      && forall e :: e in views ==> e < serial
    }

    /** `active_episode` (lines 289-291): the newest episode. */
    function Active(): EpisodeId
      reads this
      requires |episodes| >= 1
    {
      episodes[|episodes| - 1]
    }

    /** Lines 205-212: one empty episode over the given buffers, which are
        empty too. */
    constructor(store: StepStore, tb: FIFOTransitionBuffer)
      requires store.Valid() && store.steps == map[] && tb.Valid() && tb.history == []
      ensures Valid() && this.store == store && this.tb == tb
      ensures episodes == [0] && views == map[0 := EmptyView] && owner == map[] && dropped == map[]
    {
      this.store := store;
      this.tb := tb;
      episodes := [0];
      views := map[0 := EmptyView];
      owner := map[];
      dropped := map[];
      serial := 1;
      stepOwner := map[];
      seen := {};
      new;
      assert IdPositions(EmptyView.pos, EmptyView.idList);
    }

    /** `append_step` (lines 214-224): the store gives the step the next id
        and it goes last in the active episode. */
    method AppendStep(partial: PartialStep) returns (step: Step)
      requires Valid()
      modifies this, store
      ensures Valid()
      ensures step == Step(old(store.nextId), partial.observation, partial.action, partial.reward, partial.terminal)
      ensures Books() == WithStep(old(Books()), old(Active()), step)
      ensures episodes == old(episodes) && serial == old(serial)
    {
      var a := episodes[|episodes| - 1];
      ghost var l := Books();
      step := store.Append(partial);
      var v := views[a];
      views := views[a := v.(idList := v.idList + [step.idx], pos := v.pos[step.idx := |v.idList|])];
      stepOwner := stepOwner[step.idx := a];
      assert Books() == WithStep(l, a, step);
      WithStepKeeps(l, a, step);
    }

    /** `append_transition` (lines 226-255): the active episode owns and
        records the transition, the buffer takes it, and a transition the
        buffer drops is released. With a bound of 0 the buffer raises after
        the transition is recorded. The active episode stays live: it owns
        the new transition. */
    method AppendTransition(t: LazyTransitionObject) returns (r: Result<()>)
      requires Valid() && t !in seen
      modifies this, tb, store
      ensures Valid()
      ensures Books() == WithTransition(old(Books()), old(Active()), t, tb.maxlen)
      ensures Active() == old(Active()) && serial == old(serial)
      ensures tb.maxlen == 0 ==> r == Err(IndexError)
      ensures tb.maxlen >= 1 ==> r == Ok(())
    {
      var a := Active();
      ghost var l := Books();
      AppendedTransition(l, a, t, tb.maxlen);
      Record(t);
      var dr := tb.Append(t);
      if dr.Err? {
        assert Books() == WithTransition(l, a, t, tb.maxlen);
        assert episodes == WithTransition(l, a, t, tb.maxlen).live;
        return Err(dr.error);
      }
      assert Books() == Handed(l, a, t, tb.maxlen);
      if dr.value.Some? {
        Release(dr.value.value);
      }
      assert Books() == WithTransition(l, a, t, tb.maxlen);
      assert episodes == WithTransition(l, a, t, tb.maxlen).live;
      r := Ok(());
    }

    /** Lines 236-237 and 70. */
    method Record(t: LazyTransitionObject)
      requires |episodes| >= 1 && Active() in views
      modifies this
      ensures Books() == Recorded(old(Books()), old(Active()), t)
      ensures serial == old(serial)
    {
      var a := episodes[|episodes| - 1];
      owner := owner[t := a];
      var v := views[a];
      views := views[a := v.(transitions := v.transitions + [t])];
      seen := seen + {t};
    }

    /** Lines 238-255: the dropped transition is counted against its owner
        and disowned; once every transition of the owner is dropped, the
        owner is removed from the live episodes and its steps from the
        store. */
    method Release(d: LazyTransitionObject)
      requires store.Valid() && d in owner && owner[d] in views
      requires IdPositions(views[owner[d]].pos, views[owner[d]].idList)
      modifies this, store
      ensures store.Valid() && Books() == Released(old(Books()), d)
      ensures serial == old(serial)
    {
      var e := owner[d];
      var ds := (if e in dropped then dropped[e] else []) + [d];
      owner := owner - {d};
      if |ds| == |views[e].transitions| {
        // the list of dropped transitions is recorded and at once deleted
        var v := views[e];
        dropped := dropped - {e};
        episodes := Without(episodes, e);
        views := views - {e};
        PositionKeys(v.pos, v.idList);
        DropSteps(v.idList);
        stepOwner := stepOwner - v.pos.Keys;
      } else {
        dropped := dropped[e := ds];
      }
    }

    /** `for step in episode.steps: self._step_buffer.drop(step.idx)`. */
    method DropSteps(ids: seq<nat>)
      requires store.Valid()
      modifies store
      ensures store.Valid() && store.steps == old(store.steps) - Elems(ids)
    {
      for i := 0 to |ids|
        invariant store.Valid() && store.steps == old(store.steps) - Elems(ids[..i])
      {
        store.Drop(ids[i]);
        ElemsPrefix(ids, i);
      }
      ElemsWhole(ids);
    }

    /** `get_step_by_idx` (lines 257-267): the store's lookup, which finds
        exactly the steps of the live episodes (`FoundIffHeld`). */
    method GetStepByIdx(idx: nat) returns (r: Result<Step>)
      requires Valid()
      ensures r == GetStep(store.steps, idx)
      ensures r.Ok? <==> exists e :: e in views && idx in views[e].pos
    {
      FoundIffHeld(Books(), idx);
      r := store.Get(idx);
    }

    /** `clip_episode` (lines 269-278): a new, empty episode becomes the
        active one. */
    method ClipEpisode()
      requires Valid()
      modifies this
      ensures Valid()
      ensures Books() == WithEpisode(old(Books()), old(serial))
      ensures Active() == old(serial) && serial == old(serial) + 1
    {
      ghost var l := Books();
      var e := serial;
      serial := serial + 1;
      views := views[e := EmptyView];
      episodes := episodes + [e];
      assert Books() == WithEpisode(l, e);
      WithEpisodeKeeps(l, e);
    }

    /** `get_total_step_size` (lines 280-287): the lengths of the live
        episodes add up to the number of stored steps. */
    method GetTotalStepSize() returns (n: nat)
      requires Valid()
      ensures n == SizeSum(views, episodes) == |store.steps|
    {
      n := 0;
      for i := 0 to |episodes|
        invariant n == SizeSum(views, episodes[..i])
      {
        assert episodes[..i + 1][..i] == episodes[..i];
        n := n + |views[episodes[i]].idList|;
      }
      assert episodes[..|episodes|] == episodes;
      TotalIsStored(Books());
    }
  }
}
