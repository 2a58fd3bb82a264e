/** The transition factories of kiox/transition_factory.py. A factory turns
    a step, the step its transition leads to (None at the end of an episode)
    and the episode holding them into a lazy transition. The episode is seen
    through the interface every episode store offers (`Steps`): hops back by
    id and the truncated discounted return. */
module TransitionFactories {
  import opened Common
  import opened Steps
  import opened Transitions

  /** The two factories: plain (lines 42-62) and frame-stacking (lines
      65-101), the latter with its `n_frames`. */
  datatype TransitionFactory = SimpleFactory | FrameStackFactory(nFrames: int)

  function NextIdx(nextStep: Option<Step>): Option<nat>
  {
    if nextStep.None? then None else Some(nextStep.value.idx)
  }

  /** `SimpleTransitionFactory.create` (lines 49-62). */
  function SimpleFactoryCreate(step: Step, nextStep: Option<Step>, episode: seq<Step>, duration: nat, gamma: real)
    : Result<LazyTransition>
  {
    match ComputeReturn(episode, step.idx, duration, gamma)
    case Err(e) => Err(e)
    case Ok(ret) => Ok(SimpleLazy(step.idx, NextIdx(nextStep), ret, duration))
  }

  /** The simple factory points at the step and at the next one (None at the
      end of an episode), copies the duration, and records the step's
      discounted return over that duration; it fails only when the episode
      does not hold the step. With duration 1 the reward is the step's own. */
  lemma SimpleFactoryFields(step: Step, nextStep: Option<Step>, episode: seq<Step>, duration: nat, gamma: real)
    requires DistinctIds(episode)
    ensures SimpleFactoryCreate(step, nextStep, episode, duration, gamma).Err? <==>
      duration >= 1 && step.idx !in Ids(episode)
    ensures step in episode ==>
      var r := SimpleFactoryCreate(step, nextStep, episode, duration, gamma);
      r.Ok? && r.value.currIdx == step.idx && r.value.duration == duration
      && (nextStep.None? ==> r.value.nextIdx.None?)
      && (nextStep.Some? ==> r.value.nextIdx == Some(nextStep.value.idx))
      && Ok(r.value.multiStepReward) == ComputeReturn(episode, step.idx, duration, gamma)
      && (duration == 1 ==> r.value.multiStepReward == step.reward)
  {
    if step in episode {
      var p :| 0 <= p < |episode| && episode[p] == step;
      ComputeReturnOneStep(episode, p, gamma);
      ComputeReturnAt(episode, p, duration, gamma);
    } else if duration >= 1 {
      if step.idx in Ids(episode) {
        var p :| 0 <= p < |episode| && episode[p].idx == step.idx;
        ComputeReturnAt(episode, p, duration, gamma);
      } else {
        HopsFromMissing(episode, step.idx, duration, gamma);
      }
    }
  }

  /** The ids of the (at most n) steps immediately before `idx` in the
      episode, oldest first: fewer near the episode's start, none when the
      episode does not hold `idx`. */
  function PrecedingIds(episode: seq<Step>, idx: nat, n: nat): (r: seq<nat>)
    ensures |r| <= n
  {
    match IndexOf(episode, idx)
    case None => []
    case Some(p) =>
      var m := Min(n, p);
      seq(m, j requires 0 <= j < m => episode[p - m + j].idx)
  }

  /** The preceding ids are found by hops back: the one k places from the
      newest end is the id of the step k hops back from `idx`. There are n
      of them, or as many as there are steps before `idx` when that is
      fewer. */
  lemma PrecedingIdsAreHops(episode: seq<Step>, p: nat, n: nat)
    requires DistinctIds(episode) && p < |episode|
    ensures |PrecedingIds(episode, episode[p].idx, n)| == Min(n, p)
    ensures forall k :: 1 <= k <= Min(n, p) ==>
      GetPrev(episode, episode[p].idx, k) == Ok(Some(episode[p - k]))
      && PrecedingIds(episode, episode[p].idx, n)[Min(n, p) - k] == episode[p - k].idx
  {
    IndexOfDistinct(episode, p);
    var m := Min(n, p);
    var ids := PrecedingIds(episode, episode[p].idx, n);
    assert |ids| == m;
    forall k | 1 <= k <= m
      ensures GetPrev(episode, episode[p].idx, k) == Ok(Some(episode[p - k]))
      ensures ids[m - k] == episode[p - k].idx
    {
      GetPrevAt(episode, p, k);
    }
  }

  /** The ids collected by the first i passes of the loop of lines 89-93,
      newest first. */
  ghost function Collected(episode: seq<Step>, p: nat, i: nat): (r: seq<nat>)
    requires i <= p < |episode|
    ensures |r| == i && forall j :: 0 <= j < i ==> r[j] == episode[p - 1 - j].idx
  {
    seq(i, j requires 0 <= j < i => episode[p - 1 - j].idx)
  }

  /** What the frame-stacking factory builds: the simple factory's fields
      plus the ids preceding the step, at most n_frames - 1 of them. */
  function FrameStackCreated(nFrames: int, step: Step, nextStep: Option<Step>, episode: seq<Step>,
                             duration: nat, gamma: real): Result<LazyTransition>
  {
    match ComputeReturn(episode, step.idx, duration, gamma)
    case Err(e) => Err(e)
    case Ok(ret) => Ok(FrameStackLazy(step.idx, NextIdx(nextStep), ret, duration,
                                      PrecedingIds(episode, step.idx, Max(nFrames - 1, 0)), nFrames))
  }

  /** `FrameStackTransitionFactory.create` (lines 80-101): the preceding
      ids are collected by the loop of `PrecedingFrames`. */
  method FrameStackFactoryCreate(nFrames: int, step: Step, nextStep: Option<Step>, episode: seq<Step>,
                                 duration: nat, gamma: real)
    returns (r: Result<LazyTransition>)
    requires DistinctIds(episode)
    ensures r == FrameStackCreated(nFrames, step, nextStep, episode, duration, gamma)
  {
    var n: nat := Max(nFrames - 1, 0);
    var ordered := PrecedingFrames(episode, step.idx, n);
    var ret := ComputeReturn(episode, step.idx, duration, gamma);
    if ret.Err? {
      return Err(ret.error);
    }
    r := Ok(FrameStackLazy(step.idx, NextIdx(nextStep), ret.value, duration, ordered, nFrames));
  }

  /** Lines 87-93: walks back one step further on each pass until n ids are
      collected or the episode's start is reached, then puts them oldest
      first. */
  method PrecedingFrames(episode: seq<Step>, idx: nat, n: nat) returns (ordered: seq<nat>)
    requires DistinctIds(episode)
    ensures ordered == PrecedingIds(episode, idx, n)
  {
    ghost var found := IndexOf(episode, idx);
    ghost var p: nat := if found.Some? then found.value else 0;
    var prevFrames: seq<nat> := [];
    for i := 0 to n
      invariant found.None? ==> i == 0 && prevFrames == []
      invariant found.Some? ==> i <= p && prevFrames == Collected(episode, p, i)
    {
      var prev := GetPrev(episode, idx, i + 1);
      if prev.Ok? && prev.value.None? {
        break;
      }
      assert found.Some? && i + 1 <= p && prev == Ok(Some(episode[p - (i + 1)]));
      prevFrames := prevFrames + [prev.value.value.idx];
    }
    if found.Some? {
      assert prevFrames == Collected(episode, p, Min(n, p));
      PrecedingCollected(episode, idx, n, p);
    }
    ordered := Reversed(prevFrames);
  }

  /** The ids the loop collects, newest first, are the preceding ids
      reversed. */
  lemma PrecedingCollected(episode: seq<Step>, idx: nat, n: nat, p: nat)
    requires IndexOf(episode, idx) == Some(p)
    ensures Reversed(Collected(episode, p, Min(n, p))) == PrecedingIds(episode, idx, n)
  {
  }

  /** The frame-stacking factory records the same current id, next id,
      reward and duration as the plain one, plus the preceding ids and
      n_frames. */
  lemma FrameStackAgreesWithSimple(nFrames: int, step: Step, nextStep: Option<Step>, episode: seq<Step>,
                                   duration: nat, gamma: real, fs: LazyTransition)
    requires fs.FrameStackLazy? && fs.nFrames == nFrames
    requires Ok(fs) == FrameStackCreated(nFrames, step, nextStep, episode, duration, gamma)
    ensures SimpleFactoryCreate(step, nextStep, episode, duration, gamma)
         == Ok(SimpleLazy(fs.currIdx, fs.nextIdx, fs.multiStepReward, fs.duration))
  {
  }

  /** `TransitionFactory.create`: the result of the given factory. */
  function Created(f: TransitionFactory, step: Step, nextStep: Option<Step>, episode: seq<Step>,
                   duration: nat, gamma: real): Result<LazyTransition>
  {
    match f
    case SimpleFactory => SimpleFactoryCreate(step, nextStep, episode, duration, gamma)
    case FrameStackFactory(n) => FrameStackCreated(n, step, nextStep, episode, duration, gamma)
  }

  /** The call `transition_factory.create(...)` on either factory. */
  method CreateTransition(f: TransitionFactory, step: Step, nextStep: Option<Step>, episode: seq<Step>,
                          duration: nat, gamma: real) returns (r: Result<LazyTransition>)
    requires DistinctIds(episode)
    ensures r == Created(f, step, nextStep, episode, duration, gamma)
  {
    match f
    case SimpleFactory =>
      r := SimpleFactoryCreate(step, nextStep, episode, duration, gamma);
    case FrameStackFactory(n) =>
      r := FrameStackFactoryCreate(n, step, nextStep, episode, duration, gamma);
  }

  /** Either factory succeeds on a step of the episode, and the transition
      points at the step and at the next one, has the given duration and
      carries the step's discounted return over that duration. */
  lemma CreatedFields(f: TransitionFactory, step: Step, nextStep: Option<Step>, episode: seq<Step>,
                      duration: nat, gamma: real)
    requires DistinctIds(episode) && step in episode
    ensures var r := Created(f, step, nextStep, episode, duration, gamma);
      r.Ok? && r.value.currIdx == step.idx && r.value.nextIdx == NextIdx(nextStep)
      && r.value.duration == duration
      && Ok(r.value.multiStepReward) == ComputeReturn(episode, step.idx, duration, gamma)
  {
    SimpleFactoryFields(step, nextStep, episode, duration, gamma);
  }
}
