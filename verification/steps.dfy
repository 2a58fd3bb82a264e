/** Steps (kiox/step_buffer.py:10-16) and the interface every episode-like
    store offers to the transition factories: the steps of one episode in
    order, with lookup by id, k-hop traversal and the truncated discounted
    return. Both `Episode` (kiox/episode.py) and `EpisodicStepBuffer`
    (kiox/step_buffer.py) are proved to agree with these functions. */
module Steps {
  import opened Common
  import opened Items

  datatype Step = Step(idx: nat, observation: Item, action: Item, reward: real, terminal: real)

  /** No two steps share an id. */
  predicate DistinctIds(steps: seq<Step>)
  {
    forall i, j :: 0 <= i < j < |steps| ==> steps[i].idx != steps[j].idx
  }

  function Ids(steps: seq<Step>): (r: set<nat>)
    ensures forall p :: 0 <= p < |steps| ==> steps[p].idx in r
    ensures forall id :: id in r ==> exists p :: 0 <= p < |steps| && steps[p].idx == id
  {
    set p | 0 <= p < |steps| :: steps[p].idx
  }

  /** Position of the first step with id `idx`. */
  function IndexOf(steps: seq<Step>, idx: nat): (r: Option<nat>)
    ensures r.Some? ==> r.value < |steps| && steps[r.value].idx == idx
    ensures r.Some? ==> forall q :: 0 <= q < r.value ==> steps[q].idx != idx
    ensures r.None? <==> idx !in Ids(steps)
  {
    IndexFrom(steps, idx, 0)
  }

  /** Position of the first step with id `idx` at or after `from`. */
  function IndexFrom(steps: seq<Step>, idx: nat, from: nat): (r: Option<nat>)
    requires from <= |steps|
    ensures r.Some? ==> from <= r.value < |steps| && steps[r.value].idx == idx
    ensures r.Some? ==> forall q :: from <= q < r.value ==> steps[q].idx != idx
    ensures r.None? ==> forall q :: from <= q < |steps| ==> steps[q].idx != idx
    decreases |steps| - from
  {
    if from == |steps| then None
    else if steps[from].idx == idx then Some(from)
    else IndexFrom(steps, idx, from + 1)
  }

  /** With distinct ids, the position of a step's id is that step's position. */
  lemma IndexOfDistinct(steps: seq<Step>, p: nat)
    requires DistinctIds(steps) && p < |steps|
    ensures IndexOf(steps, steps[p].idx) == Some(p)
  {
  }

  /** Lookup by id; a missing id fails the source's `assert idx in self._index`. */
  function Find(steps: seq<Step>, idx: nat): (r: Result<Step>)
    ensures r.Ok? <==> idx in Ids(steps)
    ensures r.Ok? ==> r.value in steps && r.value.idx == idx
  {
    match IndexOf(steps, idx)
    case None => Err(NotFound)
    case Some(p) => Ok(steps[p])
  }

  /** With distinct ids, looking a step up by its id finds it. */
  lemma FindDistinct(steps: seq<Step>, p: nat)
    requires DistinctIds(steps) && p < |steps|
    ensures Find(steps, steps[p].idx) == Ok(steps[p])
  {
    IndexOfDistinct(steps, p);
  }

  /** `get_next(idx, k)`: the step k positions after `idx`, None when the
      episode is shorter or holds no `idx`, except that for k == 0 it is the
      lookup of `idx` itself, which fails on a missing id. */
  function GetNext(episode: seq<Step>, idx: nat, k: nat): Result<Option<Step>>
  {
    match IndexOf(episode, idx)
    case None => if k == 0 then Err(NotFound) else Ok(None)
    case Some(p) => if p + k < |episode| then Ok(Some(episode[p + k])) else Ok(None)
  }

  /** `get_prev(idx, k)`: the step k positions before `idx`, None when the
      episode starts later or holds no `idx`; for k == 0 the lookup of `idx`. */
  function GetPrev(episode: seq<Step>, idx: nat, k: nat): Result<Option<Step>>
  {
    match IndexOf(episode, idx)
    case None => if k == 0 then Err(NotFound) else Ok(None)
    case Some(p) => if k <= p then Ok(Some(episode[p - k])) else Ok(None)
  }

  /** Zero hops are the lookup by id. */
  lemma HopZeroIsFind(episode: seq<Step>, idx: nat)
    ensures GetNext(episode, idx, 0) == GetPrev(episode, idx, 0)
         == (match Find(episode, idx) case Err(e) => Err(e) case Ok(s) => Ok(Some(s)))
  {
  }

  /** k >= 1 hops forward from the step at position p land k positions
      later, or on None past the episode's end. */
  lemma GetNextAt(episode: seq<Step>, p: nat, k: nat)
    requires DistinctIds(episode) && p < |episode| && k >= 1
    ensures GetNext(episode, episode[p].idx, k) == if p + k < |episode| then Ok(Some(episode[p + k])) else Ok(None)
  {
    IndexOfDistinct(episode, p);
  }

  /** k >= 1 hops back from the step at position p land k positions earlier,
      or on None before the episode's start. */
  lemma GetPrevAt(episode: seq<Step>, p: nat, k: nat)
    requires DistinctIds(episode) && p < |episode| && k >= 1
    ensures GetPrev(episode, episode[p].idx, k) == if k <= p then Ok(Some(episode[p - k])) else Ok(None)
  {
    IndexOfDistinct(episode, p);
  }

  /** Hops from an id the episode does not hold give None, and a return
      from it fails. */
  lemma HopsFromMissing(episode: seq<Step>, idx: nat, k: nat, gamma: real)
    requires idx !in Ids(episode) && k >= 1
    ensures GetNext(episode, idx, k) == Ok(None) && GetPrev(episode, idx, k) == Ok(None)
    ensures ComputeReturn(episode, idx, k, gamma) == Err(NotFound)
  {
  }

  /** The sum over j < n of gamma^j times the reward of the step at
      position p + j, accumulated term by term in the order the source's
      `compute_return` loops add them. */
  function WindowReturn(episode: seq<Step>, p: nat, n: nat, gamma: real): real
    requires p + n <= |episode|
  {
    if n == 0 then 0.0 else WindowReturn(episode, p, n - 1, gamma) + Term(gamma, n - 1, episode[p + n - 1].reward)
  }

  /** `compute_return(idx, d, gamma)`: the discounted sum of the rewards of
      the d steps starting at `idx`, truncated at the episode's end. */
  function ComputeReturn(episode: seq<Step>, idx: nat, d: nat, gamma: real): Result<real>
  {
    if d == 0 then Ok(0.0)
    else match IndexOf(episode, idx)
      case None => Err(NotFound)
      case Some(p) => Ok(WindowReturn(episode, p, Min(d, |episode| - p), gamma))
  }

  /** The recursive (Bellman) form of a window's return: its first reward
      plus gamma times the return of the window one step shorter, one step
      later. */
  lemma {:induction false} WindowReturnHead(episode: seq<Step>, p: nat, n: nat, gamma: real)
    requires p + n + 1 <= |episode|
    ensures WindowReturn(episode, p, n + 1, gamma) == Backup(episode[p].reward, gamma, WindowReturn(episode, p + 1, n, gamma))
  {
    if n > 0 {
      WindowReturnHead(episode, p, n - 1, gamma);
      var r := episode[p + n].reward;
      TermShift(gamma, n - 1, r);
      var a := WindowReturn(episode, p + 1, n - 1, gamma);
      var t := Term(gamma, n - 1, r);
      assert WindowReturn(episode, p + 1, n, gamma) == a + t;
      assert WindowReturn(episode, p, n + 1, gamma) == Backup(episode[p].reward, gamma, a) + gamma * t;
    }
  }

  /** The return at a step of the episode, by position. */
  lemma ComputeReturnAt(episode: seq<Step>, p: nat, d: nat, gamma: real)
    requires DistinctIds(episode) && p < |episode|
    ensures ComputeReturn(episode, episode[p].idx, d, gamma) == Ok(WindowReturn(episode, p, Min(d, |episode| - p), gamma))
  {
    IndexOfDistinct(episode, p);
  }

  /** A return over one step is that step's reward, as the transition
      factory tests expect. */
  lemma ComputeReturnOneStep(episode: seq<Step>, p: nat, gamma: real)
    requires DistinctIds(episode) && p < |episode|
    ensures ComputeReturn(episode, episode[p].idx, 1, gamma) == Ok(episode[p].reward)
  {
    ComputeReturnAt(episode, p, 1, gamma);
  }

  /** The return satisfies the one-step (Bellman) recursion: inside the
      episode, the d-step return at position p is the reward there plus gamma
      times the (d-1)-step return at position p + 1. */
  lemma ComputeReturnRecursion(episode: seq<Step>, p: nat, d: nat, gamma: real)
    requires DistinctIds(episode) && p + 1 < |episode| && d >= 1
    ensures ComputeReturn(episode, episode[p].idx, d, gamma).Ok?
    ensures ComputeReturn(episode, episode[p + 1].idx, d - 1, gamma).Ok?
    ensures ComputeReturn(episode, episode[p].idx, d, gamma).value
        == Backup(episode[p].reward, gamma, ComputeReturn(episode, episode[p + 1].idx, d - 1, gamma).value)
  {
    ComputeReturnAt(episode, p, d, gamma);
    ComputeReturnAt(episode, p + 1, d - 1, gamma);
    WindowReturnHead(episode, p, Min(d - 1, |episode| - (p + 1)), gamma);
  }

  /** At the episode's last step the return is that step's reward, whatever
      the duration: the sum is truncated at the episode's end. */
  lemma ComputeReturnAtEnd(episode: seq<Step>, d: nat, gamma: real)
    requires DistinctIds(episode) && |episode| >= 1 && d >= 1
    ensures ComputeReturn(episode, episode[|episode| - 1].idx, d, gamma) == Ok(episode[|episode| - 1].reward)
  {
    ComputeReturnAt(episode, |episode| - 1, d, gamma);
  }
}
