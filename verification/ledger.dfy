/** The books of kiox/episode.py's `EpisodeManager` as values: which
    episode holds each stored step, which owns each buffered transition,
    which of its transitions each episode has lost to the buffer, and a view
    of every live episode. Each manager operation is a function on the
    books, and each is proved to keep them consistent. */
module Ledgers {
  import opened Common
  import opened Steps
  import opened Transitions
  import opened TransitionBuffers
  import opened Episodes

  /** What the manager reads of an episode: its ids, their positions and
      its transitions. */
  datatype EpisodeView = EpisodeView(idList: seq<nat>, pos: map<nat, nat>, transitions: seq<LazyTransitionObject>)

  const EmptyView := EpisodeView([], map[], [])

  /** An episode's identity: the manager keys its dictionaries by episode
      object, and each episode it creates gets a new serial number here. */
  type EpisodeId = nat

  /** The manager's books: the store's steps and the live episode holding
      each, the episode owning each buffered transition
      (`_transition_to_episode`), the transitions dropped so far from each
      episode (`_dropped_transitions`), every transition ever appended, the
      transition buffer with everything ever appended to it, a view of each
      live episode, and the live episodes in order (`_episodes`). */
  datatype Ledger = Ledger(
    steps: map<nat, Step>,
    stepOwner: map<nat, EpisodeId>,
    owner: map<LazyTransitionObject, EpisodeId>,
    dropped: map<EpisodeId, seq<LazyTransitionObject>>,
    seen: set<LazyTransitionObject>,
    buffer: seq<LazyTransitionObject>,
    history: seq<LazyTransitionObject>,
    views: map<EpisodeId, EpisodeView>,
    live: seq<EpisodeId>)

  /** Every live episode knows the position of each of its ids. */
  ghost predicate Shaped(l: Ledger)
  {
    forall e :: e in l.views ==> IdPositions(l.views[e].pos, l.views[e].idList)
  }

  /** The store holds exactly the steps of the live episodes, each step in
      one episode only. */
  ghost predicate StepsHeld(l: Ledger)
  {
    (forall id :: id in l.steps <==> id in l.stepOwner)
    && (forall id :: id in l.stepOwner ==> l.stepOwner[id] in l.views && id in l.views[l.stepOwner[id]].pos)
    && (forall e, id {:trigger id in l.views[e].pos} :: e in l.views && id in l.views[e].pos ==> id in l.stepOwner && l.stepOwner[id] == e)
  }

  /** Every owned transition was recorded by its live owner; every buffered
      transition is owned; the buffer has only ever been given new objects. */
  ghost predicate TransitionsHeld(l: Ledger)
  {
    (forall t :: t in l.owner ==> l.owner[t] in l.views && t in l.views[l.owner[t]].transitions && t in l.seen)
    && (forall t :: t in l.buffer ==> t in l.owner)
    && (forall t :: t in l.history ==> t in l.seen)
    && Distinct(l.history)
  }

  /** The transitions counted as dropped from an episode are distinct
      transitions it recorded, owned no more, and fewer than all of them. */
  ghost predicate DropsCounted(l: Ledger)
  {
    forall e :: e in l.dropped ==>
      e in l.views && Distinct(l.dropped[e]) && |l.dropped[e]| < |l.views[e].transitions|
      && forall x :: x in l.dropped[e] ==> x in l.views[e].transitions && x in l.seen && x !in l.owner
  }

  function DroppedSoFar(l: Ledger, e: EpisodeId): seq<LazyTransitionObject>
  {
    if e in l.dropped then l.dropped[e] else []
  }

  /** Each live episode's transitions are distinct, and each is either still
      owned by the episode or counted as dropped from it. */
  ghost predicate Accounted(l: Ledger)
  {
    forall e :: e in l.views ==>
      Distinct(l.views[e].transitions)
      && forall x :: x in l.views[e].transitions ==>
        x in l.seen && ((x in l.owner && l.owner[x] == e) || x in DroppedSoFar(l, e))
  }

  /** The live episodes are distinct and are exactly those with a view. */
  ghost predicate Lived(l: Ledger)
  {
    Distinct(l.live)
    && (forall e :: e in l.views ==> e in l.live)
    && (forall i :: 0 <= i < |l.live| ==> l.live[i] in l.views)
  }

  /** The manager's invariant, on its books. */
  ghost predicate Consistent(l: Ledger)
  {
    Shaped(l) && StepsHeld(l) && TransitionsHeld(l) && DropsCounted(l) && Accounted(l) && Lived(l)
  }

  function ViewIn(l: Ledger, e: EpisodeId): EpisodeView
  {
    if e in l.views then l.views[e] else EmptyView
  }

  /** `append_step` (lines 214-224) on the books: the new step is stored and
      goes last in episode `a`. */
  ghost function WithStep(l: Ledger, a: EpisodeId, step: Step): Ledger
  {
    var v := ViewIn(l, a);
    l.(steps := l.steps[step.idx := step], stepOwner := l.stepOwner[step.idx := a],
       views := l.views[a := v.(idList := v.idList + [step.idx], pos := v.pos[step.idx := |v.idList|])])
  }

  /** `clip_episode` (lines 269-278) on the books: a new, empty episode. */
  ghost function WithEpisode(l: Ledger, e: EpisodeId): Ledger
  {
    l.(views := l.views[e := EmptyView], live := l.live + [e])
  }

  /** Lines 236-237 and 70: the active episode `a` owns the transition and
      records it. */
  ghost function Recorded(l: Ledger, a: EpisodeId, t: LazyTransitionObject): Ledger
  {
    var v := ViewIn(l, a);
    l.(owner := l.owner[t := a], seen := l.seen + {t}, views := l.views[a := v.(transitions := v.transitions + [t])])
  }

  /** Line 71: the transition buffer takes it. */
  ghost function Buffered(l: Ledger, maxlen: nat, t: LazyTransitionObject): Ledger
  {
    l.(buffer := Window(maxlen, l.history + [t]), history := l.history + [t])
  }

  /** Lines 238-255: the evicted transition `d` is counted as dropped from
      its owner and disowned; once all of the owner's transitions are
      dropped, the owner and its steps go. */
  ghost function Released(l: Ledger, d: LazyTransitionObject): Ledger
  {
    if d !in l.owner then l
    else
      var e := l.owner[d];
      var ds := DroppedSoFar(l, e) + [d];
      var pos := ViewIn(l, e).pos;
      if |ds| == |ViewIn(l, e).transitions| then
        l.(owner := l.owner - {d}, dropped := l.dropped - {e}, views := l.views - {e},
           live := Without(l.live, e), steps := l.steps - pos.Keys,
           stepOwner := l.stepOwner - pos.Keys)
      else
        l.(owner := l.owner - {d}, dropped := l.dropped[e := ds])
  }

  /** `append_transition` (lines 226-255) on the books, the active episode
      being `a` and the buffer's bound `maxlen`: with maxlen 0 the buffer
      raises after the transition is recorded. */
  ghost function WithTransition(l: Ledger, a: EpisodeId, t: LazyTransitionObject, maxlen: nat): Ledger
  {
    var l1 := Recorded(l, a, t);
    if maxlen == 0 then l1
    else
      var l2 := Buffered(l1, maxlen, t);
      if |l.buffer| < maxlen then l2 else Released(l2, l.buffer[0])
  }

  // Each operation on the books keeps each part of the invariant.

  lemma WithEpisodeKeeps(l: Ledger, e: EpisodeId)
    requires Consistent(l) && e !in l.views
    ensures Consistent(WithEpisode(l, e))
  {
    WithEpisodeHeld(l, e);
    WithEpisodeOwned(l, e);
    WithEpisodeCounted(l, e);
    WithEpisodeLived(l, e);
  }

  lemma WithEpisodeLived(l: Ledger, e: EpisodeId)
    requires Lived(l) && e !in l.views
    ensures Lived(WithEpisode(l, e))
  {
    DistinctAppend(l.live, e);
  }

  lemma WithEpisodeHeld(l: Ledger, e: EpisodeId)
    requires StepsHeld(l) && e !in l.views
    ensures StepsHeld(WithEpisode(l, e))
  {
  }

  lemma WithEpisodeOwned(l: Ledger, e: EpisodeId)
    requires TransitionsHeld(l) && e !in l.views
    ensures TransitionsHeld(WithEpisode(l, e))
  {
  }

  lemma WithEpisodeCounted(l: Ledger, e: EpisodeId)
    requires DropsCounted(l) && Accounted(l) && e !in l.views
    ensures DropsCounted(WithEpisode(l, e)) && Accounted(WithEpisode(l, e))
  {
  }

  lemma WithStepShaped(l: Ledger, a: EpisodeId, step: Step)
    requires Shaped(l) && a in l.views && step.idx !in l.views[a].pos
    ensures Shaped(WithStep(l, a, step))
  {
    PositionsAppend(l.views[a].idList, l.views[a].pos, step.idx);
  }

  lemma WithStepHeld(l: Ledger, a: EpisodeId, step: Step)
    requires StepsHeld(l) && a in l.views && step.idx !in l.steps
    ensures StepsHeld(WithStep(l, a, step))
  {
  }

  lemma WithStepOwned(l: Ledger, a: EpisodeId, step: Step)
    requires TransitionsHeld(l) && a in l.views
    ensures TransitionsHeld(WithStep(l, a, step))
  {
  }

  lemma WithStepCounted(l: Ledger, a: EpisodeId, step: Step)
    requires DropsCounted(l) && a in l.views
    ensures DropsCounted(WithStep(l, a, step))
  {
  }

  lemma WithStepAccounted(l: Ledger, a: EpisodeId, step: Step)
    requires Accounted(l) && a in l.views
    ensures Accounted(WithStep(l, a, step))
  {
  }

  lemma WithStepKeeps(l: Ledger, a: EpisodeId, step: Step)
    requires Consistent(l) && a in l.views && step.idx !in l.steps
    ensures Consistent(WithStep(l, a, step))
  {
    WithStepShaped(l, a, step);
    WithStepHeld(l, a, step);
    WithStepOwned(l, a, step);
    WithStepCounted(l, a, step);
    WithStepAccounted(l, a, step);
    WithStepLived(l, a, step);
  }

  lemma WithStepLived(l: Ledger, a: EpisodeId, step: Step)
    requires Lived(l) && a in l.views
    ensures Lived(WithStep(l, a, step))
  {
  }

  lemma RecordedShaped(l: Ledger, a: EpisodeId, t: LazyTransitionObject)
    requires Shaped(l) && StepsHeld(l) && a in l.views
    ensures Shaped(Recorded(l, a, t)) && StepsHeld(Recorded(l, a, t))
  {
  }

  lemma RecordedOwned(l: Ledger, a: EpisodeId, t: LazyTransitionObject)
    requires TransitionsHeld(l) && a in l.views
    ensures TransitionsHeld(Recorded(l, a, t))
  {
  }

  lemma RecordedCounted(l: Ledger, a: EpisodeId, t: LazyTransitionObject)
    requires DropsCounted(l) && a in l.views && t !in l.seen
    ensures DropsCounted(Recorded(l, a, t))
  {
  }

  lemma RecordedAccounted(l: Ledger, a: EpisodeId, t: LazyTransitionObject)
    requires Accounted(l) && a in l.views && t !in l.seen
    ensures Accounted(Recorded(l, a, t))
  {
    var l' := Recorded(l, a, t);
    var ts := l.views[a].transitions;
    assert Distinct(ts + [t]) by {
      forall i, j | 0 <= i < j < |ts| + 1
        ensures (ts + [t])[i] != (ts + [t])[j]
      {
        if j == |ts| {
          assert ts[i] in ts;
        }
      }
    }
  }

  lemma RecordedKeeps(l: Ledger, a: EpisodeId, t: LazyTransitionObject)
    requires Consistent(l) && a in l.views && t !in l.seen
    ensures Consistent(Recorded(l, a, t))
  {
    RecordedShaped(l, a, t);
    RecordedOwned(l, a, t);
    RecordedCounted(l, a, t);
    RecordedAccounted(l, a, t);
    RecordedLived(l, a, t);
  }

  lemma RecordedLived(l: Ledger, a: EpisodeId, t: LazyTransitionObject)
    requires Lived(l) && a in l.views
    ensures Lived(Recorded(l, a, t))
  {
  }

  lemma BufferedOwned(l: Ledger, maxlen: nat, t: LazyTransitionObject)
    requires TransitionsHeld(l) && l.buffer == Window(maxlen, l.history) && t in l.owner && t in l.seen && t !in l.history
    ensures TransitionsHeld(Buffered(l, maxlen, t))
  {
    if maxlen >= 1 {
      WindowSlide(maxlen, l.history, t);
    }
    var h := l.history + [t];
    assert Distinct(h) by {
      forall i, j | 0 <= i < j < |h|
        ensures h[i] != h[j]
      {
        if j == |h| - 1 {
          assert h[i] in l.history;
        }
      }
    }
  }

  lemma BufferedKeeps(l: Ledger, maxlen: nat, t: LazyTransitionObject)
    requires Consistent(l) && l.buffer == Window(maxlen, l.history) && t in l.owner && t in l.seen && t !in l.history
    ensures Consistent(Buffered(l, maxlen, t))
  {
    BufferedOwned(l, maxlen, t);
    BufferedSteps(l, maxlen, t);
    BufferedCounted(l, maxlen, t);
    assert Lived(Buffered(l, maxlen, t));
  }

  lemma BufferedSteps(l: Ledger, maxlen: nat, t: LazyTransitionObject)
    requires Shaped(l) && StepsHeld(l)
    ensures Shaped(Buffered(l, maxlen, t)) && StepsHeld(Buffered(l, maxlen, t))
  {
  }

  lemma BufferedCounted(l: Ledger, maxlen: nat, t: LazyTransitionObject)
    requires DropsCounted(l) && Accounted(l)
    ensures DropsCounted(Buffered(l, maxlen, t)) && Accounted(Buffered(l, maxlen, t))
  {
  }

  /** The count kept for the owner of an evicted transition: with the
      eviction it stays a list of distinct transitions of the owner, and it
      reaches their number exactly when the evicted one was the last the
      owner still held. */
  lemma ReleaseCount(l: Ledger, d: LazyTransitionObject)
    requires TransitionsHeld(l) && DropsCounted(l) && Accounted(l) && d in l.owner
    ensures var e := l.owner[d];
      e in l.views && d !in DroppedSoFar(l, e) && Distinct(DroppedSoFar(l, e) + [d])
      && (forall x :: x in DroppedSoFar(l, e) + [d] ==> x in l.views[e].transitions && x in l.seen)
      && |DroppedSoFar(l, e) + [d]| <= |l.views[e].transitions|
      && (|DroppedSoFar(l, e) + [d]| == |l.views[e].transitions| <==>
          forall x :: x in l.owner && l.owner[x] == e ==> x == d)
  {
    var e := l.owner[d];
    var before := DroppedSoFar(l, e);
    var ds := before + [d];
    var ts := l.views[e].transitions;
    assert d !in before;
    assert Distinct(ds) by {
      forall i, j | 0 <= i < j < |ds|
        ensures ds[i] != ds[j]
      {
        if j == |ds| - 1 {
          assert ds[i] in before;
        }
      }
    }
    assert forall x :: x in ds ==> x in ts && x in l.seen;
    CountWithin(ds, ts);
    if x :| x in l.owner && l.owner[x] == e && x != d {
      assert x in ts && x !in ds;
    }
    if forall x :: x in l.owner && l.owner[x] == e ==> x == d {
      assert forall y :: y in ts ==> y in ds;
      CountWithin(ts, ds);
    }
  }

  lemma ReleasedSomeOwned(l: Ledger, d: LazyTransitionObject)
    requires TransitionsHeld(l) && d in l.owner && d !in l.buffer
    requires |DroppedSoFar(l, l.owner[d]) + [d]| != |ViewIn(l, l.owner[d]).transitions|
    ensures TransitionsHeld(Released(l, d))
  {
  }

  lemma ReleasedSomeCounted(l: Ledger, d: LazyTransitionObject)
    requires TransitionsHeld(l) && DropsCounted(l) && Accounted(l) && d in l.owner
    requires |DroppedSoFar(l, l.owner[d]) + [d]| != |ViewIn(l, l.owner[d]).transitions|
    ensures DropsCounted(Released(l, d))
  {
    ReleaseCount(l, d);
  }

  lemma ReleasedSomeAccounted(l: Ledger, d: LazyTransitionObject)
    requires TransitionsHeld(l) && DropsCounted(l) && Accounted(l) && d in l.owner
    requires |DroppedSoFar(l, l.owner[d]) + [d]| != |ViewIn(l, l.owner[d]).transitions|
    ensures Accounted(Released(l, d))
  {
  }

  lemma ReleasedAllShaped(l: Ledger, d: LazyTransitionObject)
    requires Shaped(l) && d in l.owner && l.owner[d] in l.views
    requires |DroppedSoFar(l, l.owner[d]) + [d]| == |ViewIn(l, l.owner[d]).transitions|
    ensures Shaped(Released(l, d))
  {
    assert Released(l, d).views == l.views - {l.owner[d]};
  }

  lemma ReleasedAllSteps(l: Ledger, d: LazyTransitionObject)
    requires StepsHeld(l) && d in l.owner && l.owner[d] in l.views
    requires |DroppedSoFar(l, l.owner[d]) + [d]| == |ViewIn(l, l.owner[d]).transitions|
    ensures StepsHeld(Released(l, d))
  {
    var e := l.owner[d];
    var pos := l.views[e].pos;
    var l' := Released(l, d);
    assert l'.views == l.views - {e} && l'.steps == l.steps - pos.Keys;
    assert l'.stepOwner == l.stepOwner - pos.Keys;
    forall id | id in l'.stepOwner
      ensures l'.stepOwner[id] in l'.views && id in l'.views[l'.stepOwner[id]].pos
    {
      assert l.stepOwner[id] != e;
    }
    forall e', id | e' in l'.views && id in l'.views[e'].pos
      ensures id in l'.stepOwner && l'.stepOwner[id] == e'
    {
      assert l.stepOwner[id] == e';
    }
  }

  lemma ReleasedAllOwned(l: Ledger, d: LazyTransitionObject)
    requires TransitionsHeld(l) && d in l.owner && d !in l.buffer
    requires forall x :: x in l.owner && l.owner[x] == l.owner[d] ==> x == d
    requires |DroppedSoFar(l, l.owner[d]) + [d]| == |ViewIn(l, l.owner[d]).transitions|
    ensures TransitionsHeld(Released(l, d))
  {
  }

  lemma ReleasedAllCounted(l: Ledger, d: LazyTransitionObject)
    requires DropsCounted(l) && Accounted(l) && d in l.owner && l.owner[d] in l.views
    requires |DroppedSoFar(l, l.owner[d]) + [d]| == |ViewIn(l, l.owner[d]).transitions|
    ensures DropsCounted(Released(l, d)) && Accounted(Released(l, d))
  {
  }

  lemma ReleasedAllKeeps(l: Ledger, d: LazyTransitionObject)
    requires Consistent(l) && d in l.owner && d !in l.buffer
    requires |DroppedSoFar(l, l.owner[d]) + [d]| == |ViewIn(l, l.owner[d]).transitions|
    requires forall x :: x in l.owner && l.owner[x] == l.owner[d] ==> x == d
    ensures Consistent(Released(l, d))
  {
    ReleasedAllShaped(l, d);
    ReleasedAllSteps(l, d);
    ReleasedAllOwned(l, d);
    ReleasedAllCounted(l, d);
    ReleasedAllLived(l, d);
  }

  lemma ReleasedAllLived(l: Ledger, d: LazyTransitionObject)
    requires Lived(l) && d in l.owner
    requires |DroppedSoFar(l, l.owner[d]) + [d]| == |ViewIn(l, l.owner[d]).transitions|
    ensures Lived(Released(l, d))
  {
    var e := l.owner[d];
    var l' := Released(l, d);
    assert l'.live == Without(l.live, e) && l'.views == l.views - {e};
    WithoutDistinct(l.live, e);
    forall i | 0 <= i < |l'.live|
      ensures l'.live[i] in l'.views
    {
      assert l'.live[i] in l'.live;
    }
  }

  lemma ReleasedSomeSteps(l: Ledger, d: LazyTransitionObject)
    requires Shaped(l) && StepsHeld(l) && d in l.owner
    requires |DroppedSoFar(l, l.owner[d]) + [d]| != |ViewIn(l, l.owner[d]).transitions|
    ensures Shaped(Released(l, d)) && StepsHeld(Released(l, d))
  {
    var l' := Released(l, d);
    assert l'.views == l.views && l'.steps == l.steps && l'.stepOwner == l.stepOwner;
  }

  lemma ReleasedSomeKeeps(l: Ledger, d: LazyTransitionObject)
    requires Consistent(l) && d in l.owner && d !in l.buffer
    requires |DroppedSoFar(l, l.owner[d]) + [d]| < |ViewIn(l, l.owner[d]).transitions|
    ensures Consistent(Released(l, d))
  {
    ReleasedSomeSteps(l, d);
    ReleasedSomeOwned(l, d);
    ReleasedSomeCounted(l, d);
    ReleasedSomeAccounted(l, d);
    assert Lived(Released(l, d));
  }

  lemma ReleasedKeeps(l: Ledger, d: LazyTransitionObject)
    requires Consistent(l) && d in l.owner && d !in l.buffer
    ensures Consistent(Released(l, d))
  {
    ReleaseCount(l, d);
    if |DroppedSoFar(l, l.owner[d]) + [d]| == |ViewIn(l, l.owner[d]).transitions| {
      ReleasedAllKeeps(l, d);
    } else {
      ReleasedSomeKeeps(l, d);
    }
  }

  /** The books after recording t in `a` and buffering it, as the eviction
      finds them. */
  ghost function Handed(l: Ledger, a: EpisodeId, t: LazyTransitionObject, maxlen: nat): Ledger
  {
    Buffered(Recorded(l, a, t), maxlen, t)
  }

  lemma HandedKeeps(l: Ledger, a: EpisodeId, t: LazyTransitionObject, maxlen: nat)
    requires Consistent(l) && a in l.views && t !in l.seen && l.buffer == Window(maxlen, l.history)
    ensures Consistent(Handed(l, a, t, maxlen))
  {
    RecordedKeeps(l, a, t);
    BufferedKeeps(Recorded(l, a, t), maxlen, t);
  }

  /** What the eviction of a full buffer starts from: the evicted transition
      is owned, no longer buffered, and not the one just appended. */
  lemma HandedEviction(l: Ledger, a: EpisodeId, t: LazyTransitionObject, maxlen: nat)
    requires TransitionsHeld(l) && a in l.views && t !in l.seen && l.buffer == Window(maxlen, l.history)
    requires maxlen >= 1 && |l.buffer| >= maxlen
    ensures var h := Handed(l, a, t, maxlen);
      l.buffer[0] != t && l.buffer[0] in h.owner && l.buffer[0] !in h.buffer
      && h.owner[l.buffer[0]] == l.owner[l.buffer[0]] && h.owner[t] == a
  {
    WindowShape(maxlen, l.history);
    DroppedLeaves(maxlen, l.history, t);
  }

  /** Releasing an owned transition disowns it, and removes its owner, with
      the owner's steps, exactly when the owner holds no other transition. */
  lemma ReleasedSpent(h: Ledger, d: LazyTransitionObject)
    requires TransitionsHeld(h) && DropsCounted(h) && Accounted(h) && d in h.owner
    ensures var r := Released(h, d);
      var e := h.owner[d];
      d !in r.owner
      && (e !in r.views <==> forall x :: x in r.owner ==> r.owner[x] != e)
      && (e in r.views ==> r.steps == h.steps && r.views[e] == h.views[e])
      && (e !in r.views ==> r.steps == h.steps - h.views[e].pos.Keys)
  {
    ReleaseCount(h, d);
    var e := h.owner[d];
    var r := Released(h, d);
    if |DroppedSoFar(h, e) + [d]| == |ViewIn(h, e).transitions| {
      assert r.owner == h.owner - {d} && r.views == h.views - {e};
    } else {
      assert r.owner == h.owner - {d} && r.views == h.views;
      var x :| x in h.owner && h.owner[x] == e && x != d;
      assert x in r.owner;
    }
  }

  /** The append that evicts from a full buffer keeps the books, and the
      active episode keeps the new transition and stays live. */
  lemma EvictingKeeps(l: Ledger, a: EpisodeId, t: LazyTransitionObject, maxlen: nat)
    requires Consistent(l) && a in l.views && t !in l.seen && l.buffer == Window(maxlen, l.history)
    requires maxlen >= 1 && |l.buffer| >= maxlen
    ensures var h := Handed(l, a, t, maxlen);
      var r := Released(h, l.buffer[0]);
      Consistent(r) && a in r.views && t in r.owner && r.owner[t] == a
      && r.buffer == h.buffer && r.history == h.history
  {
    HandedKeeps(l, a, t, maxlen);
    HandedEviction(l, a, t, maxlen);
    var h := Handed(l, a, t, maxlen);
    var d := l.buffer[0];
    ReleasedKeeps(h, d);
    ReleasedSpent(h, d);
    var r := Released(h, d);
    assert t in r.owner && r.owner[t] == a;
  }

  /** Appending a transition keeps the books, leaves the transition owned
      by the active episode, which stays live, and leaves the buffer holding
      the last maxlen transitions appended. */
  lemma WithTransitionKeeps(l: Ledger, a: EpisodeId, t: LazyTransitionObject, maxlen: nat)
    requires Consistent(l) && a in l.views && t !in l.seen && l.buffer == Window(maxlen, l.history)
    ensures var r := WithTransition(l, a, t, maxlen);
      Consistent(r) && a in r.views && t in r.owner && r.owner[t] == a
      && r.buffer == Window(maxlen, r.history)
      && r.history == (if maxlen == 0 then l.history else l.history + [t])
  {
    if maxlen == 0 {
      assert WithTransition(l, a, t, maxlen) == Recorded(l, a, t);
      RecordedKeeps(l, a, t);
    } else if |l.buffer| < maxlen {
      assert WithTransition(l, a, t, maxlen) == Handed(l, a, t, maxlen);
      HandedKeeps(l, a, t, maxlen);
    } else {
      assert WithTransition(l, a, t, maxlen) == Released(Handed(l, a, t, maxlen), l.buffer[0]);
      EvictingKeeps(l, a, t, maxlen);
    }
  }

  /** What releasing the evicted transition needs of the books the append
      hands over: it is owned by a live episode whose positions are known. */
  lemma EvictionReady(l: Ledger, a: EpisodeId, t: LazyTransitionObject, maxlen: nat)
    requires Consistent(l) && a in l.views && t !in l.seen && l.buffer == Window(maxlen, l.history)
    requires maxlen >= 1 && |l.buffer| >= maxlen
    ensures var h := Handed(l, a, t, maxlen);
      var d := l.buffer[0];
      d in h.owner && h.owner[d] in h.views && IdPositions(h.views[h.owner[d]].pos, h.views[h.owner[d]].idList)
  {
    HandedKeeps(l, a, t, maxlen);
    HandedEviction(l, a, t, maxlen);
  }

  /** The eviction removes at most the evicted transition's owner from the
      live episodes, and never the appending episode. */
  lemma EvictionSparesActive(l: Ledger, a: EpisodeId, t: LazyTransitionObject, maxlen: nat)
    requires Consistent(l) && a in l.views && t !in l.seen && l.buffer == Window(maxlen, l.history)
    requires maxlen >= 1 && |l.buffer| >= maxlen
    ensures var h := Handed(l, a, t, maxlen);
      var e := h.owner[l.buffer[0]];
      var r := Released(h, l.buffer[0]);
      r.live == l.live || (e != a && r.live == Without(l.live, e))
  {
    EvictingKeeps(l, a, t, maxlen);
    HandedEviction(l, a, t, maxlen);
  }

  /** The episode that appends a transition is still the newest live one
      afterwards. */
  lemma WithTransitionActive(l: Ledger, a: EpisodeId, t: LazyTransitionObject, maxlen: nat)
    requires Consistent(l) && a in l.views && t !in l.seen && l.buffer == Window(maxlen, l.history)
    requires |l.live| >= 1 && l.live[|l.live| - 1] == a
    ensures var r := WithTransition(l, a, t, maxlen);
      |r.live| >= 1 && r.live[|r.live| - 1] == a
  {
    if maxlen >= 1 && |l.buffer| >= maxlen {
      EvictionSparesActive(l, a, t, maxlen);
      var h := Handed(l, a, t, maxlen);
      var r := Released(h, l.buffer[0]);
      assert WithTransition(l, a, t, maxlen) == r;
      if r.live != l.live {
        WithoutKeepsLast(l.live, h.owner[l.buffer[0]]);
      }
    }
  }

  /** When the append evicts a transition, it is disowned, and its episode
      is removed, with its steps, exactly when none of that episode's
      transitions is owned any more (the docstring of lines 227-234). */
  lemma EvictionRemovesSpent(l: Ledger, a: EpisodeId, t: LazyTransitionObject, maxlen: nat)
    requires Consistent(l) && a in l.views && t !in l.seen && l.buffer == Window(maxlen, l.history)
    requires maxlen >= 1 && |l.buffer| == maxlen
    ensures var r := WithTransition(l, a, t, maxlen);
      var e := l.owner[l.buffer[0]];
      l.buffer[0] !in r.owner
      && (e !in r.views <==> forall x :: x in r.owner ==> r.owner[x] != e)
      && (e in r.views ==> r.steps == l.steps && r.views[e] == Recorded(l, a, t).views[e])
      && (e !in r.views ==> r.steps == l.steps - l.views[e].pos.Keys)
  {
    HandedKeeps(l, a, t, maxlen);
    HandedEviction(l, a, t, maxlen);
    var h := Handed(l, a, t, maxlen);
    assert WithTransition(l, a, t, maxlen) == Released(h, l.buffer[0]);
    ReleasedSpent(h, l.buffer[0]);
    assert h.steps == l.steps && h.views == Recorded(l, a, t).views;
  }

  /** The episode whose transition a full buffer evicts on the next append,
      if it is full and the evicted transition has an owner. */
  ghost function EvictedOwner(l: Ledger, maxlen: nat): Option<EpisodeId>
  {
    if maxlen >= 1 && |l.buffer| == maxlen && l.buffer[0] in l.owner then Some(l.owner[l.buffer[0]]) else None
  }

  /** An append of a transition removes live episodes, never adds one. */
  lemma WithTransitionViews(l: Ledger, a: EpisodeId, t: LazyTransitionObject, maxlen: nat)
    requires a in l.views
    ensures WithTransition(l, a, t, maxlen).views.Keys <= l.views.Keys
  {
  }

  /** Everything an append of a transition leaves the manager needing. */
  lemma AppendedTransition(l: Ledger, a: EpisodeId, t: LazyTransitionObject, maxlen: nat)
    requires Consistent(l) && a in l.views && t !in l.seen && l.buffer == Window(maxlen, l.history)
    requires |l.live| >= 1 && l.live[|l.live| - 1] == a
    ensures var r := WithTransition(l, a, t, maxlen);
      Consistent(r) && |r.live| >= 1 && r.live[|r.live| - 1] == a && r.views.Keys <= l.views.Keys
      && r.buffer == Window(maxlen, r.history)
    ensures maxlen >= 1 && |l.buffer| >= maxlen ==>
           var h := Handed(l, a, t, maxlen); var d := l.buffer[0];
           d in h.owner && h.owner[d] in h.views && IdPositions(h.views[h.owner[d]].pos, h.views[h.owner[d]].idList)
           && |l.buffer| == maxlen
  {
    WithTransitionKeeps(l, a, t, maxlen);
    WithTransitionActive(l, a, t, maxlen);
    WithTransitionViews(l, a, t, maxlen);
    WindowShape(maxlen, l.history);
    if maxlen >= 1 && |l.buffer| >= maxlen {
      EvictionReady(l, a, t, maxlen);
    }
  }
}
