/** Lazy transitions (kiox/transition.py): descriptors holding only step
    ids, materialised on demand into a `Transition` by reading the steps from
    a store. The store is any id-to-step lookup; here it is a map, and a
    missing id is the failed lookup of the store's `get`. */
module Transitions {
  import opened Common
  import opened Items
  import opened Steps

  /** kiox/transition.py:10-29. The reward is the multi-step return. */
  datatype Transition = Transition(observation: Item, action: Item, reward: real,
                                   nextObservation: Item, terminal: real, duration: int)

  /** kiox/transition.py:32-51 with its two kinds (lines 63-64 and 96-114). */
  datatype LazyTransition =
    | SimpleLazy(currIdx: nat, nextIdx: Option<nat>, multiStepReward: real, duration: int)
    | FrameStackLazy(currIdx: nat, nextIdx: Option<nat>, multiStepReward: real, duration: int,
                     prevFrames: seq<nat>, nFrames: int)

  /** A lazy transition as a Python object: its identity is what
      `id(transition)` keys on. */
  class LazyTransitionObject {
    const value: LazyTransition

    constructor(value: LazyTransition)
      ensures this.value == value
    {
      this.value := value;
    }
  }

  /** `step_buffer.get(idx)`. */
  function GetStep(steps: map<nat, Step>, idx: nat): Result<Step>
  {
    if idx in steps then Ok(steps[idx]) else Err(NotFound)
  }

  // ------------------------------------------------------------------ simple

  /** `SimpleLazyTransition.create` (lines 78-93). */
  function CreateSimple(t: LazyTransition, steps: map<nat, Step>): Result<Transition>
  {
    match GetStep(steps, t.currIdx)
    case Err(e) => Err(e)
    case Ok(step) =>
      var nextObservation :=
        if t.nextIdx.None? then ZerosLike(step.observation)
        else match GetStep(steps, t.nextIdx.value)
          case Err(e) => Err(e)
          case Ok(next) => Ok(next.observation);
      match nextObservation
      case Err(e) => Err(e)
      case Ok(o) => Ok(Transition(step.observation, step.action, t.multiStepReward, o, step.terminal, t.duration))
  }

  /** The observation, action and terminal come from the current step, the
      reward and duration from the descriptor; the next observation is the
      next step's, or zeros of the current one's kind and shape at the end of
      an episode. It fails exactly when an id it reads is missing, or when
      there is no next step and the observation cannot be zero-filled. */
  lemma CreateSimpleFields(t: LazyTransition, steps: map<nat, Step>)
    requires t.SimpleLazy?
    ensures CreateSimple(t, steps).Ok? <==>
      t.currIdx in steps
      && (t.nextIdx.Some? ==> t.nextIdx.value in steps)
      && (t.nextIdx.None? ==> !steps[t.currIdx].observation.Unrecognised?)
    ensures t.currIdx !in steps ==> CreateSimple(t, steps) == Err(NotFound)
    ensures CreateSimple(t, steps).Ok? ==>
      var tr := CreateSimple(t, steps).value;
      var step := steps[t.currIdx];
      tr.observation == step.observation && tr.action == step.action && tr.terminal == step.terminal
      && tr.reward == t.multiStepReward && tr.duration == t.duration
      && (t.nextIdx.Some? ==> tr.nextObservation == steps[t.nextIdx.value].observation)
      && (t.nextIdx.None? ==> SameKindZero(tr.nextObservation, step.observation))
  {
    if t.currIdx in steps && t.nextIdx.None? {
      ZerosLikeShape(steps[t.currIdx].observation);
    }
  }

  /** `z` is `zeros_like(x)` in kind and shape, and holds only zeros. */
  predicate SameKindZero(z: Item, x: Item)
  {
    match x
    case IntScalar(_) => z == IntScalar(0)
    case FloatScalar(_) => z == FloatScalar(0.0)
    case Tensor(a) => z.Tensor? && z.arr.shape == a.shape && IsZeroArray(z.arr)
    case Tuple(ps) =>
      z.Tuple? && |z.parts| == |ps|
      && forall i :: 0 <= i < |ps| ==> z.parts[i].shape == ps[i].shape && IsZeroArray(z.parts[i])
    case Unrecognised => false
  }

  // -------------------------------------------------------------- frame stack

  /** The shape of `np.vstack` of k arrays of one shape s: 0-d and 1-d
      frames become rows of a 2-d array, higher ones are joined along their
      first axis. */
  function VStackShape(k: nat, s: seq<nat>): seq<nat>
  {
    if |s| == 0 then [k, 1] else if |s| == 1 then [k, s[0]] else [k * s[0]] + s[1..]
  }

  lemma VStackSize(k: nat, s: seq<nat>)
    ensures Product(VStackShape(k, s)) == k * Product(s)
  {
    if |s| >= 2 {
      var t := Product(s[1..]);
      assert Product(VStackShape(k, s)) == (k * s[0]) * t;
      assert Product(s) == s[0] * t;
      assert (k * s[0]) * t == k * (s[0] * t);
    } else if |s| == 1 {
      assert [k, s[0]][1..] == [s[0]];
      assert [s[0]][1..] == [] && s == [s[0]];
    } else {
      assert [k, 1][1..] == [1] && [1][1..] == [];
    }
  }

  /** `np.atleast_2d`: a 0-d array becomes 1x1, a 1-d one a single row. */
  function AtLeast2D(s: seq<nat>): (r: seq<nat>)
    ensures |r| >= 2 && Product(r) == Product(s)
    ensures |s| >= 2 ==> r == s
  {
    if |s| == 0 then
      assert [1, 1][1..] == [1] && [1][1..] == [];
      [1, 1]
    else if |s| == 1 then
      assert [1, s[0]][1..] == [s[0]] && [s[0]][1..] == [] && s[1..] == [];
      [1, s[0]]
    else s
  }

  /** What `np.vstack` accepts: a non-empty list of arrays that, made at
      least 2-d, agree on every dimension after the first. */
  predicate Stackable(frames: seq<Item>)
  {
    |frames| >= 1
    && (forall j :: 0 <= j < |frames| ==> frames[j].Tensor?)
    && forall j :: 0 <= j < |frames| ==> AtLeast2D(frames[j].arr.shape)[1..] == AtLeast2D(frames[0].arr.shape)[1..]
  }

  /** The number of rows all frames contribute. */
  function Rows(frames: seq<Item>): nat
    requires forall j :: 0 <= j < |frames| ==> frames[j].Tensor?
  {
    if |frames| == 0 then 0 else AtLeast2D(frames[0].arr.shape)[0] + Rows(frames[1..])
  }

  /** The shape of `np.vstack(frames)`: the rows of all frames, then the
      common trailing dimensions. */
  function StackedShape(frames: seq<Item>): seq<nat>
    requires Stackable(frames)
  {
    [Rows(frames)] + AtLeast2D(frames[0].arr.shape)[1..]
  }

  /** Flattening frames whose trailing dimensions are all `tail` gives as
      many values as their rows times the size of one row. */
  lemma {:induction false} StackedLength(frames: seq<Item>, tail: seq<nat>)
    requires forall j :: 0 <= j < |frames| ==> frames[j].Tensor? && AtLeast2D(frames[j].arr.shape)[1..] == tail
    ensures |Flatten(ArraysOf(frames))| == Rows(frames) * Product(tail)
  {
    if |frames| > 0 {
      var rest := frames[1..];
      assert ArraysOf(frames)[1..] == ArraysOf(rest);
      StackedLength(rest, tail);
      var a := frames[0].arr;
      var t := AtLeast2D(a.shape);
      assert Product(t) == t[0] * Product(t[1..]);
      assert |a.data| == t[0] * Product(tail);
      assert Flatten(ArraysOf(frames)) == a.data + Flatten(ArraysOf(rest));
      MulAdd(t[0], Rows(rest), Product(tail));
    }
  }

  lemma MulAdd(a: nat, b: nat, p: nat)
    ensures a * p + b * p == (a + b) * p
  {
  }

  /** `np.vstack(frames)`: the frames made at least 2-d and joined along
      their first axis. Anything `Stackable` rejects is numpy's ValueError.
      The data are the frames' data in order. */
  function VStack(frames: seq<Item>): (r: Result<Array>)
    ensures r.Ok? <==> Stackable(frames)
    ensures r.Ok? ==> r.value.shape == StackedShape(frames) && r.value.data == Flatten(ArraysOf(frames))
    ensures r.Ok? ==> forall j :: 0 <= j < |frames| ==> r.value.shape[1..] == AtLeast2D(frames[j].arr.shape)[1..]
  {
    if !Stackable(frames) then Err(ValueError)
    else
      var tail := AtLeast2D(frames[0].arr.shape)[1..];
      StackedLength(frames, tail);
      var shape := [Rows(frames)] + tail;
      assert shape[1..] == tail;
      var stacked: Array := NdArray(shape, Flatten(ArraysOf(frames)));
      Ok(stacked)
  }

  /** Frames of one shape s stack to `VStackShape(|frames|, s)`. */
  lemma {:induction false} StackUniform(frames: seq<Item>, s: seq<nat>)
    requires |frames| >= 1 && AllArraysOfShape(frames, s)
    ensures Stackable(frames) && StackedShape(frames) == VStackShape(|frames|, s)
    ensures VStack(frames).Ok? && VStack(frames).value.shape == VStackShape(|frames|, s)
  {
    RowsUniform(frames, s);
    var t := AtLeast2D(s);
    if |s| == 0 {
      assert t[1..] == [1];
    } else if |s| == 1 {
      assert t[1..] == [s[0]];
    } else {
      assert t == s;
    }
  }

  lemma {:induction false} RowsUniform(frames: seq<Item>, s: seq<nat>)
    requires AllArraysOfShape(frames, s)
    ensures Rows(frames) == |frames| * AtLeast2D(s)[0]
  {
    if |frames| > 0 {
      RowsUniform(frames[1..], s);
      MulSucc(|frames| - 1, AtLeast2D(s)[0]);
    }
  }

  /** The observations of the steps with the given ids, in order; the first
      missing id fails the list comprehension of lines 126-129. */
  function Observations(steps: map<nat, Step>, ids: seq<nat>): (r: Result<seq<Item>>)
    ensures r.Ok? <==> forall j :: 0 <= j < |ids| ==> ids[j] in steps
    ensures r.Ok? ==> |r.value| == |ids| && forall j :: 0 <= j < |ids| ==> r.value[j] == steps[ids[j]].observation
    ensures r.Err? ==> r.error == NotFound
  {
    if |ids| == 0 then Ok([])
    else match GetStep(steps, ids[0])
      case Err(e) => Err(e)
      case Ok(s) =>
        match Observations(steps, ids[1..])
        case Err(e) => Err(e)
        case Ok(rest) => Ok([s.observation] + rest)
  }

  /** The number of zero frames that pad a short history (line 122). */
  function PadCount(nFrames: int, known: nat): nat
  {
    Max(nFrames - known - 1, 0)
  }

  /** Lines 121-132: zero pads, then the previous frames oldest first, then
      the current frame. */
  function FrameList(obs: Array, prev: seq<Item>, nFrames: int): (r: seq<Item>)
    ensures |r| == PadCount(nFrames, |prev|) + |prev| + 1
    ensures forall j :: 0 <= j < PadCount(nFrames, |prev|) ==> r[j] == Tensor(ZeroArray(obs))
    ensures forall j :: 0 <= j < |prev| ==> r[PadCount(nFrames, |prev|) + j] == prev[j]
    ensures r[|r| - 1] == Tensor(obs)
  {
    seq(PadCount(nFrames, |prev|), _ => Tensor(ZeroArray(obs))) + prev + [Tensor(obs)]
  }

  /** The next stack of lines 136-143: zeros of the stacked shape at the end
      of an episode, otherwise the frames shifted by one with the next
      step's frame last. */
  function StackNext(frames: seq<Item>, stacked: Array, nextIdx: Option<nat>, steps: map<nat, Step>): (r: Result<Array>)
    requires |frames| >= 1
    ensures nextIdx.None? ==> r.Ok? && r.value.shape == stacked.shape && IsZeroArray(r.value)
    ensures nextIdx.Some? && nextIdx.value !in steps ==> r == Err(NotFound)
    ensures r.Ok? && nextIdx.Some? ==>
      var next := steps[nextIdx.value].observation;
      var nexts := frames[1..] + [next];
      |nexts| == |frames| && nexts[|nexts| - 1] == next && next.Tensor?
      && Stackable(nexts)
      && r.value.shape == StackedShape(nexts)
      && r.value.data == Flatten(ArraysOf(nexts))
    ensures nextIdx.Some? && nextIdx.value in steps && steps[nextIdx.value].observation.Tensor? ==>
      (r.Ok? <==> Stackable(frames[1..] + [steps[nextIdx.value].observation]))
  {
    if nextIdx.None? then Ok(ZeroArray(stacked))
    else match GetStep(steps, nextIdx.value)
      case Err(e) => Err(e)
      case Ok(ns) =>
        if !ns.observation.Tensor? then Err(AssertionError)
        else
          var nexts := frames[1..] + [ns.observation];
          assert nexts[|nexts| - 1] == ns.observation;
          VStack(nexts)
  }

  /** `FrameStackLazyTransition.create` (lines 116-151). */
  function CreateFrameStack(t: LazyTransition, steps: map<nat, Step>): Result<Transition>
    requires t.FrameStackLazy?
  {
    match GetStep(steps, t.currIdx)
    case Err(e) => Err(e)
    case Ok(step) =>
      if !step.observation.Tensor? then Err(AssertionError)
      else match Observations(steps, t.prevFrames)
        case Err(e) => Err(e)
        case Ok(prev) =>
          var frames := FrameList(step.observation.arr, prev, t.nFrames);
          match VStack(frames)
          case Err(e) => Err(e)
          case Ok(stacked) =>
            match StackNext(frames, stacked, t.nextIdx, steps)
            case Err(e) => Err(e)
            case Ok(n) => Ok(Transition(Tensor(stacked), step.action, t.multiStepReward, Tensor(n),
                                        step.terminal, t.duration))
  }

  /** The frames a successful frame-stack creation stacks. */
  function StackedFrames(t: LazyTransition, steps: map<nat, Step>): seq<Item>
    requires t.FrameStackLazy? && t.currIdx in steps && steps[t.currIdx].observation.Tensor?
    requires forall j :: 0 <= j < |t.prevFrames| ==> t.prevFrames[j] in steps
  {
    FrameList(steps[t.currIdx].observation.arr, Observations(steps, t.prevFrames).value, t.nFrames)
  }

  /** A successful frame-stack creation read the current step, an array,
      and every previous frame; it stacks max(n_frames - |prev_frames| - 1, 0)
      zero frames, then the previous steps' observations oldest first, then
      the current observation; action, reward, terminal and duration are as
      in the simple kind. */
  lemma CreateFrameStackObservation(t: LazyTransition, steps: map<nat, Step>)
    requires t.FrameStackLazy? && CreateFrameStack(t, steps).Ok?
    ensures t.currIdx in steps && steps[t.currIdx].observation.Tensor?
    ensures forall j :: 0 <= j < |t.prevFrames| ==> t.prevFrames[j] in steps
    ensures var tr := CreateFrameStack(t, steps).value;
      var step := steps[t.currIdx];
      var frames := StackedFrames(t, steps);
      var pads := PadCount(t.nFrames, |t.prevFrames|);
      |frames| == pads + |t.prevFrames| + 1
      && (forall j :: 0 <= j < pads ==> frames[j] == Tensor(ZeroArray(step.observation.arr)))
      && (forall j :: 0 <= j < |t.prevFrames| ==> frames[pads + j] == steps[t.prevFrames[j]].observation)
      && frames[|frames| - 1] == step.observation
      && tr.observation.Tensor? && Stackable(frames)
      && tr.observation.arr.shape == StackedShape(frames)
      && tr.observation.arr.data == Flatten(ArraysOf(frames))
      && (AllArraysOfShape(frames, step.observation.arr.shape) ==>
            tr.observation.arr.shape == VStackShape(|frames|, step.observation.arr.shape))
      && tr.action == step.action && tr.reward == t.multiStepReward
      && tr.terminal == step.terminal && tr.duration == t.duration
  {
    var step := steps[t.currIdx];
    var prev := Observations(steps, t.prevFrames).value;
    var frames := FrameList(step.observation.arr, prev, t.nFrames);
    var stacked := VStack(frames).value;
    assert CreateFrameStack(t, steps).value.observation == Tensor(stacked);
    if AllArraysOfShape(frames, step.observation.arr.shape) {
      StackUniform(frames, step.observation.arr.shape);
    }
  }

  /** The next stack of a successful frame-stack creation: all zeros of the
      stacked shape at the end of an episode, otherwise the stacked frames
      shifted by one with the next step's observation last. */
  lemma CreateFrameStackNext(t: LazyTransition, steps: map<nat, Step>)
    requires t.FrameStackLazy? && CreateFrameStack(t, steps).Ok?
    ensures t.currIdx in steps && steps[t.currIdx].observation.Tensor?
    ensures forall j :: 0 <= j < |t.prevFrames| ==> t.prevFrames[j] in steps
    ensures var tr := CreateFrameStack(t, steps).value;
      var frames := StackedFrames(t, steps);
      tr.nextObservation.Tensor? && tr.observation.Tensor?
      && (t.nextIdx.None? ==> tr.nextObservation.arr.shape == tr.observation.arr.shape
                              && IsZeroArray(tr.nextObservation.arr))
      && (t.nextIdx.Some? ==>
            t.nextIdx.value in steps &&
            var next := steps[t.nextIdx.value].observation;
            var nexts := frames[1..] + [next];
            |nexts| == |frames| && next.Tensor? && Stackable(nexts)
            && tr.nextObservation.arr.data == Flatten(ArraysOf(nexts))
            && tr.nextObservation.arr.shape == StackedShape(nexts))
  {
  }

  /** Every id the frame-stack kind reads must resolve: a missing current,
      previous or next id fails the creation. */
  lemma CreateFrameStackNeedsIds(t: LazyTransition, steps: map<nat, Step>)
    requires t.FrameStackLazy?
    requires t.currIdx !in steps
          || (steps[t.currIdx].observation.Tensor? && exists j :: 0 <= j < |t.prevFrames| && t.prevFrames[j] !in steps)
    ensures CreateFrameStack(t, steps) == Err(NotFound)
  {
  }

  /** ... and so must the next step's id: a missing one fails the creation,
      with NotFound unless an earlier check failed first. */
  lemma CreateFrameStackNeedsNext(t: LazyTransition, steps: map<nat, Step>)
    requires t.FrameStackLazy? && t.nextIdx.Some? && t.nextIdx.value !in steps
    ensures CreateFrameStack(t, steps).Err?
  {
  }

  /** `LazyTransition.create`, dispatching on the kind. */
  function Create(t: LazyTransition, steps: map<nat, Step>): Result<Transition>
  {
    match t
    case SimpleLazy(_, _, _, _) => CreateSimple(t, steps)
    case FrameStackLazy(_, _, _, _, _, _) => CreateFrameStack(t, steps)
  }
}
