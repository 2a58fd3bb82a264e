/** The episode tracker of kiox/episode.py. An `Episode` keeps the ids of
    its steps in order, with links from each id to its neighbours, and the
    transitions it produced; the steps themselves live in a shared step
    store. `EpisodeManager` splits the stream of steps into episodes and
    removes an episode, and its steps, once the transition buffer has
    dropped every transition the episode produced. */
module Episodes {
  import opened Common
  import opened Items
  import opened Steps
  import opened Transitions
  import opened TransitionBuffers

  /** A step before the store has given it an id. */
  datatype PartialStep = PartialStep(observation: Item, action: Item, reward: real, terminal: real)

  /** Every step the store holds is keyed by its own id. */
  ghost predicate Keyed(steps: map<nat, Step>)
  {
    forall id :: id in steps ==> steps[id].idx == id
  }

  /** The step store an episode appends to and reads from: `append` turns a
      partial step into a step with the next id, `get` looks an id up and
      `drop` forgets one. */
  class StepStore {
    var steps: map<nat, Step>
    var nextId: nat

    ghost predicate Valid()
      reads this
    {
      Keyed(steps) && forall id :: id in steps ==> id < nextId
    }

    constructor()
      ensures Valid() && steps == map[] && nextId == 0
    {
      steps := map[];
      nextId := 0;
    }

    /** The new step takes an id no step of the store has had. */
    method Append(partial: PartialStep) returns (step: Step)
      requires Valid()
      modifies this
      ensures Valid()
      ensures step == Step(old(nextId), partial.observation, partial.action, partial.reward, partial.terminal)
      ensures step.idx !in old(steps)
      ensures steps == old(steps)[step.idx := step] && nextId == old(nextId) + 1
    {
      step := Step(nextId, partial.observation, partial.action, partial.reward, partial.terminal);
      steps := steps[nextId := step];
      nextId := nextId + 1;
    }

    method Get(idx: nat) returns (r: Result<Step>)
      ensures r == GetStep(steps, idx)
    {
      r := GetStep(steps, idx);
    }

    method Drop(idx: nat)
      requires Valid()
      modifies this
      ensures Valid() && steps == old(steps) - {idx} && nextId == old(nextId)
    {
      steps := steps - {idx};
    }
  }

  // ------------------------------------------------------------ id links

  /** `pos` gives the position of each id of the list. */
  ghost predicate IdPositions(pos: map<nat, nat>, ids: seq<nat>)
  {
    (forall j :: 0 <= j < |ids| ==> ids[j] in pos && pos[ids[j]] == j)
    && (forall id :: id in pos ==> pos[id] < |ids| && ids[pos[id]] == id)
  }

  /** `_next_idx`: each id but the last maps to the id after it. */
  ghost predicate NextIds(next: map<nat, nat>, pos: map<nat, nat>, ids: seq<nat>)
    requires IdPositions(pos, ids)
  {
    (forall id {:trigger id in next} :: id in next <==> id in pos && pos[id] + 1 < |ids|)
    && (forall id {:trigger next[id]} :: id in next ==> id in pos && next[id] == ids[pos[id] + 1])
  }

  /** `_prev_idx`: each id but the first maps to the id before it. */
  ghost predicate PrevIds(prev: map<nat, nat>, pos: map<nat, nat>, ids: seq<nat>)
    requires IdPositions(pos, ids)
  {
    (forall id {:trigger id in prev} :: id in prev <==> id in pos && pos[id] >= 1)
    && (forall id {:trigger prev[id]} :: id in prev ==> id in pos && prev[id] == ids[pos[id] - 1])
  }

  /** Appending a new id gives it the last position. */
  lemma PositionsAppend(ids: seq<nat>, pos: map<nat, nat>, id: nat)
    requires IdPositions(pos, ids) && id !in pos
    ensures IdPositions(pos[id := |ids|], ids + [id])
  {
    var ids', pos' := ids + [id], pos[id := |ids|];
    forall j | 0 <= j < |ids'|
      ensures ids'[j] in pos' && pos'[ids'[j]] == j
    {
      if j < |ids| {
        assert ids'[j] == ids[j] && ids[j] != id;
      }
    }
  }

  /** Appending a new id links the last one forward to it. */
  lemma NextAppend(ids: seq<nat>, pos: map<nat, nat>, next: map<nat, nat>, id: nat)
    requires IdPositions(pos, ids) && NextIds(next, pos, ids) && id !in pos
    requires IdPositions(pos[id := |ids|], ids + [id])
    ensures |ids| == 0 ==> NextIds(next, pos[id := |ids|], ids + [id])
    ensures |ids| > 0 ==> NextIds(next[ids[|ids| - 1] := id], pos[id := |ids|], ids + [id])
  {
    var ids', pos' := ids + [id], pos[id := |ids|];
    if |ids| > 0 {
      var last := ids[|ids| - 1];
      assert pos[last] == |ids| - 1;
      var next' := next[last := id];
      forall x | x in next'
        ensures next'[x] == ids'[pos'[x] + 1]
      {
        if x != last {
          assert x in next && x != id;
          assert ids'[pos[x] + 1] == ids[pos[x] + 1];
        }
      }
    }
  }

  /** Appending a new id links it back to the last one. */
  lemma PrevAppend(ids: seq<nat>, pos: map<nat, nat>, prev: map<nat, nat>, id: nat)
    requires IdPositions(pos, ids) && PrevIds(prev, pos, ids) && id !in pos
    requires IdPositions(pos[id := |ids|], ids + [id])
    ensures |ids| == 0 ==> PrevIds(prev, pos[id := |ids|], ids + [id])
    ensures |ids| > 0 ==> PrevIds(prev[id := ids[|ids| - 1]], pos[id := |ids|], ids + [id])
  {
    var ids', pos' := ids + [id], pos[id := |ids|];
    if |ids| > 0 {
      var prev' := prev[id := ids[|ids| - 1]];
      forall x | x in prev'
        ensures prev'[x] == ids'[pos'[x] - 1]
      {
        if x != id {
          assert x in prev;
          assert ids'[pos[x] - 1] == ids[pos[x] - 1];
        }
      }
    }
  }

  /** Every id of the list is held by the store. */
  ghost predicate Stored(ids: seq<nat>, steps: map<nat, Step>)
  {
    forall j :: 0 <= j < |ids| ==> ids[j] in steps
  }

  /** The steps of an episode, in order, as the store holds them. */
  ghost function StepsOf(steps: map<nat, Step>, ids: seq<nat>): seq<Step>
    requires Stored(ids, steps)
  {
    seq(|ids|, j requires 0 <= j < |ids| => steps[ids[j]])
  }

  /** The steps of an episode have distinct ids, and an id's position among
      them is the one the episode records. */
  lemma StepsOfIndex(steps: map<nat, Step>, ids: seq<nat>, pos: map<nat, nat>, id: nat)
    requires Keyed(steps) && Stored(ids, steps) && IdPositions(pos, ids)
    ensures DistinctIds(StepsOf(steps, ids))
    ensures IndexOf(StepsOf(steps, ids), id) == (if id in pos then Some(pos[id]) else None)
  {
    var s := StepsOf(steps, ids);
    assert forall j :: 0 <= j < |s| ==> s[j].idx == ids[j];
    if id in pos {
      IndexOfDistinct(s, pos[id]);
    }
  }

  /** `[self._step_buffer.get(idx) for idx in ids]`: fails on the first id
      the store does not hold. */
  function LookupAll(steps: map<nat, Step>, ids: seq<nat>): (r: Result<seq<Step>>)
    ensures r.Ok? <==> Stored(ids, steps)
    ensures r.Ok? ==> r.value == StepsOf(steps, ids)
    ensures r.Err? ==> r.error == NotFound
  {
    if |ids| == 0 then Ok([])
    else match GetStep(steps, ids[0])
      case Err(e) => Err(e)
      case Ok(s) =>
        match LookupAll(steps, ids[1..])
        case Err(e) => Err(e)
        case Ok(rest) => Ok([s] + rest)
  }

  /** The source's `get` returns the step itself; as a hop result it is
      wrapped in Some. */
  function Landed(r: Result<Step>): Result<Option<Step>>
  {
    match r
    case Err(e) => Err(e)
    case Ok(s) => Ok(Some(s))
  }

  /** Where k next-links from `idx` lead in an episode with ids `ids`: the
      id k places later, looked up in the store, or None when the episode
      ends first or does not hold `idx`; zero hops look `idx` itself up. */
  ghost function HopForward(steps: map<nat, Step>, ids: seq<nat>, pos: map<nat, nat>, idx: nat, k: nat)
    : Result<Option<Step>>
    requires IdPositions(pos, ids)
  {
    if idx in pos then
      if pos[idx] + k < |ids| then Landed(GetStep(steps, ids[pos[idx] + k])) else Ok(None)
    else if k == 0 then Landed(GetStep(steps, idx))
    else Ok(None)
  }

  /** Where k prev-links from `idx` lead. */
  ghost function HopBack(steps: map<nat, Step>, ids: seq<nat>, pos: map<nat, nat>, idx: nat, k: nat)
    : Result<Option<Step>>
    requires IdPositions(pos, ids)
  {
    if idx in pos then
      if k <= pos[idx] then Landed(GetStep(steps, ids[pos[idx] - k])) else Ok(None)
    else if k == 0 then Landed(GetStep(steps, idx))
    else Ok(None)
  }

  class Episode {
    const store: StepStore
    const tb: FIFOTransitionBuffer
    var transitions: seq<LazyTransitionObject>
    var idList: seq<nat>
    var prevIdx: map<nat, nat>
    var nextIdx: map<nat, nat>
    var prevStep: Option<Step>
    /** The position of each id in `idList`. */
    ghost var pos: map<nat, nat>

    ghost predicate Valid()
      reads this
    {
      IdPositions(pos, idList) && NextIds(nextIdx, pos, idList) && PrevIds(prevIdx, pos, idList)
      && (prevStep.None? <==> |idList| == 0)
      && (prevStep.Some? ==> prevStep.value.idx == idList[|idList| - 1])
    }

    /** Lines 29-38. */
    constructor(store: StepStore, tb: FIFOTransitionBuffer)
      ensures Valid() && this.store == store && this.tb == tb
      ensures transitions == [] && idList == [] && pos == map[]
    {
      this.store := store;
      this.tb := tb;
      transitions := [];
      idList := [];
      prevIdx := map[];
      nextIdx := map[];
      prevStep := None;
      pos := map[];
    }

    /** Lines 40-56: the store gives the step its id, which goes last in the
        episode, linked both ways to the step before it; the first step of
        an episode has no predecessor. */
    method AppendStep(partial: PartialStep) returns (step: Step)
      requires Valid() && store.Valid()
      requires forall id :: id in pos ==> id < store.nextId
      modifies this, store
      ensures Valid() && store.Valid()
      ensures step == Step(old(store.nextId), partial.observation, partial.action, partial.reward, partial.terminal)
      ensures store.steps == old(store.steps)[step.idx := step] && store.nextId == old(store.nextId) + 1
      ensures idList == old(idList) + [step.idx] && pos == old(pos)[step.idx := |old(idList)|]
      ensures transitions == old(transitions)
      ensures |old(idList)| == 0 ==> step.idx !in prevIdx
      ensures |old(idList)| > 0 ==> prevIdx[step.idx] == old(idList)[|old(idList)| - 1]
                                    && nextIdx[old(idList)[|old(idList)| - 1]] == step.idx
    {
      ghost var ids, ps, pv, nx := idList, pos, prevIdx, nextIdx;
      step := store.Append(partial);
      idList := idList + [step.idx];
      if prevStep.Some? {
        prevIdx := prevIdx[step.idx := prevStep.value.idx];
        nextIdx := nextIdx[prevStep.value.idx := step.idx];
      }
      prevStep := Some(step);
      pos := pos[step.idx := |ids|];
      PositionsAppend(ids, ps, step.idx);
      NextAppend(ids, ps, nx, step.idx);
      PrevAppend(ids, ps, pv, step.idx);
    }

    /** Lines 58-71: the transition is recorded, then handed to the
        transition buffer, whose eviction is returned. */
    method AppendTransition(t: LazyTransitionObject) returns (r: Result<Option<LazyTransitionObject>>)
      requires tb.Valid()
      modifies this, tb
      ensures tb.Valid()
      ensures transitions == old(transitions) + [t]
      ensures idList == old(idList) && pos == old(pos) && prevIdx == old(prevIdx) && nextIdx == old(nextIdx)
      ensures prevStep == old(prevStep)
      ensures tb.maxlen == 0 ==> r == Err(IndexError) && tb.buffer == old(tb.buffer) && tb.history == old(tb.history)
      ensures tb.maxlen >= 1 ==> r.Ok? && tb.history == old(tb.history) + [t]
      ensures tb.maxlen >= 1 && |old(tb.buffer)| == tb.maxlen ==>
                r.value == Some(old(tb.buffer)[0]) && tb.buffer == old(tb.buffer)[1..] + [t]
      ensures tb.maxlen >= 1 && |old(tb.buffer)| < tb.maxlen ==> r.value == None && tb.buffer == old(tb.buffer) + [t]
    {
      transitions := transitions + [t];
      r := tb.Append(t);
      assert idList == old(idList) && pos == old(pos);
    }

    /** Lines 73-83. */
    method Get(idx: nat) returns (r: Result<Step>)
      ensures r == GetStep(store.steps, idx)
    {
      r := store.Get(idx);
    }

    /** Lines 85-95: the step at a position of the episode, counted from the
        end for a negative index. */
    method GetByIndex(index: int) returns (r: Result<Step>)
      requires Valid()
      ensures PyIndex(idList, index).Err? ==> r == Err(IndexError)
      ensures PyIndex(idList, index).Ok? ==> r == GetStep(store.steps, PyIndex(idList, index).value)
      ensures Keyed(store.steps) && Stored(idList, store.steps) ==>
                r == PyIndex(StepsOf(store.steps, idList), index)
    {
      var id := PyIndex(idList, index);
      if id.Err? {
        return Err(id.error);
      }
      r := store.Get(id.value);
    }

    /** Lines 97-115: follows k next-links from `idx` and looks the id it
        lands on up in the store; None when the episode ends first. */
    method GetNext(idx: nat, k: nat) returns (r: Result<Option<Step>>)
      requires Valid()
      ensures r == HopForward(store.steps, idList, pos, idx, k)
    {
      ghost var p: nat := if idx in pos then pos[idx] else 0;
      var cur := idx;
      for i := 0 to k
        invariant idx in pos ==> p + i < |idList| && cur == idList[p + i]
        invariant idx !in pos ==> i == 0 && cur == idx
      {
        if idx in pos {
          NextHopAt(idList, pos, nextIdx, p, i);
        }
        if cur !in nextIdx {
          return Ok(None);
        }
        cur := nextIdx[cur];
      }
      var s := store.Get(cur);
      r := Landed(s);
    }

    /** Lines 117-133: follows k prev-links from `idx`; None when the
        episode starts later. */
    method GetPrev(idx: nat, k: nat) returns (r: Result<Option<Step>>)
      requires Valid()
      ensures r == HopBack(store.steps, idList, pos, idx, k)
    {
      ghost var p: nat := if idx in pos then pos[idx] else 0;
      var cur := idx;
      for i := 0 to k
        invariant idx in pos ==> i <= p < |idList| && cur == idList[p - i]
        invariant idx !in pos ==> i == 0 && cur == idx
      {
        if idx in pos {
          PrevHopAt(idList, pos, prevIdx, p, i);
        }
        if cur !in prevIdx {
          return Ok(None);
        }
        cur := prevIdx[cur];
      }
      var s := store.Get(cur);
      r := Landed(s);
    }

    /** Lines 135-159: the discounted sum of the rewards of the d steps from
        `idx`, stopping at the episode's last step. A step the store holds
        but this episode does not contributes its own reward alone. */
    method ComputeReturn(idx: nat, d: nat, gamma: real) returns (r: Result<real>)
      requires Valid()
      ensures d == 0 ==> r == Ok(0.0)
      ensures d >= 1 && idx !in store.steps ==> r == Err(NotFound)
      ensures d >= 1 && idx in store.steps && idx !in pos ==> r == Ok(store.steps[idx].reward)
      ensures Stored(idList, store.steps) && idx in pos ==>
                r == Ok(IdsReturn(store.steps, idList, pos[idx], Min(d, |idList| - pos[idx]), gamma))
    {
      ghost var ok := Stored(idList, store.steps);
      ghost var p: nat := if idx in pos then pos[idx] else 0;
      var cur := idx;
      var ret := 0.0;
      for i := 0 to d
        invariant idx in pos ==> p + i < |idList| && cur == idList[p + i]
        invariant ok && idx in pos ==> ret == IdsReturn(store.steps, idList, p, i, gamma)
        invariant idx !in pos ==> i == 0 && cur == idx && ret == 0.0
        invariant i > 0 ==> idx in store.steps
        invariant i == 0 ==> ret == 0.0
      {
        if idx in pos {
          NextHopAt(idList, pos, nextIdx, p, i);
        }
        var step := store.Get(cur);
        if step.Err? {
          return Err(step.error);
        }
        ret := ret + Term(gamma, i, step.value.reward);
        if cur in nextIdx {
          cur := nextIdx[cur];
        } else {
          return Ok(ret);
        }
      }
      return Ok(ret);
    }

    /** Lines 161-168. */
    function Size(): nat
      reads this
    {
      |idList|
    }

    /** Lines 170-177. */
    predicate Includes(idx: nat)
      reads this
    {
      idx in idList
    }
  }

  /** Membership in an episode's id list is membership among its steps. */
  lemma IncludesMeansHeld(e: Episode, idx: nat)
    requires e.Valid() && Keyed(e.store.steps) && Stored(e.idList, e.store.steps)
    ensures e.Includes(idx) <==> idx in Ids(StepsOf(e.store.steps, e.idList))
  {
    StepsOfIndex(e.store.steps, e.idList, e.pos, idx);
  }

  /** One pass of the `get_next` loop: from the id i places after position
      p the link leads one place further, and is missing exactly at the
      episode's last id. */
  lemma NextHopAt(ids: seq<nat>, pos: map<nat, nat>, next: map<nat, nat>, p: nat, i: nat)
    requires IdPositions(pos, ids) && NextIds(next, pos, ids) && p + i < |ids|
    ensures ids[p + i] in next <==> p + i + 1 < |ids|
    ensures ids[p + i] in next ==> next[ids[p + i]] == ids[p + i + 1]
  {
  }

  /** One pass of the `get_prev` loop. */
  lemma PrevHopAt(ids: seq<nat>, pos: map<nat, nat>, prev: map<nat, nat>, p: nat, i: nat)
    requires IdPositions(pos, ids) && PrevIds(prev, pos, ids) && i <= p < |ids|
    ensures ids[p - i] in prev <==> i < p
    ensures ids[p - i] in prev ==> prev[ids[p - i]] == ids[p - i - 1]
  {
  }

  /** An episode's hops are the interface's hops over its steps: zero hops
      look the id up in the store, and k >= 1 hops from an id the episode
      holds land on the step k places away, or on None past either end. */
  lemma HopsAreInterfaceHops(steps: map<nat, Step>, ids: seq<nat>, pos: map<nat, nat>, idx: nat, k: nat)
    requires Keyed(steps) && Stored(ids, steps) && IdPositions(pos, ids)
    ensures HopForward(steps, ids, pos, idx, 0) == HopBack(steps, ids, pos, idx, 0) == Landed(GetStep(steps, idx))
    ensures k >= 1 || idx in pos ==>
      HopForward(steps, ids, pos, idx, k) == Steps.GetNext(StepsOf(steps, ids), idx, k)
      && HopBack(steps, ids, pos, idx, k) == Steps.GetPrev(StepsOf(steps, ids), idx, k)
  {
    StepsOfIndex(steps, ids, pos, idx);
  }

  /** The discounted sum of the rewards of the n steps from position p of
      the id list, as the store holds them. */
  ghost function IdsReturn(steps: map<nat, Step>, ids: seq<nat>, p: nat, n: nat, gamma: real): real
    requires Stored(ids, steps) && p + n <= |ids|
  {
    if n == 0 then 0.0 else IdsReturn(steps, ids, p, n - 1, gamma) + Term(gamma, n - 1, steps[ids[p + n - 1]].reward)
  }

  /** Summing over the id list is summing over the episode's steps. */
  lemma {:induction false} IdsReturnIsWindowReturn(steps: map<nat, Step>, ids: seq<nat>, p: nat, n: nat, gamma: real)
    requires Stored(ids, steps) && p + n <= |ids|
    ensures IdsReturn(steps, ids, p, n, gamma) == WindowReturn(StepsOf(steps, ids), p, n, gamma)
  {
    if n > 0 {
      IdsReturnIsWindowReturn(steps, ids, p, n - 1, gamma);
      assert StepsOf(steps, ids)[p + n - 1] == steps[ids[p + n - 1]];
    }
  }

  /** An episode's return from an id it holds is the interface's return
      over its steps. */
  lemma ReturnIsInterfaceReturn(steps: map<nat, Step>, ids: seq<nat>, pos: map<nat, nat>, idx: nat, d: nat, gamma: real)
    requires Keyed(steps) && Stored(ids, steps) && IdPositions(pos, ids) && idx in pos
    ensures d >= 1 ==> Steps.ComputeReturn(StepsOf(steps, ids), idx, d, gamma)
                       == Ok(IdsReturn(steps, ids, pos[idx], Min(d, |ids| - pos[idx]), gamma))
  {
    StepsOfIndex(steps, ids, pos, idx);
    IdsReturnIsWindowReturn(steps, ids, pos[idx], Min(d, |ids| - pos[idx]), gamma);
  }
}
