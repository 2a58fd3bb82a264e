/** `StepCollector` of kiox/step_collector.py: gives each incoming step the
    next id, stores it in the shared step buffer and in the window of the
    current episode, and turns the window into n-step transitions: one per
    step once the window is longer than n_steps, and at a terminal step the
    last n_steps, each shorter than the one before, after which the window
    is cleared. */
module StepCollection {
  import opened Common
  import opened Items
  import opened Steps
  import opened Transitions
  import opened TransitionFactories
  import opened TransitionBuffers
  import opened StepBuffers

  /** The lazy transitions a list of transition objects holds. */
  function Values(objs: seq<LazyTransitionObject>): (r: seq<LazyTransition>)
    ensures |r| == |objs|
  {
    if |objs| == 0 then [] else Values(objs[..|objs| - 1]) + [objs[|objs| - 1].value]
  }

  /** Appending an object appends its transition, behind what was there. */
  lemma ValuesAppend(acc: seq<LazyTransition>, built: seq<LazyTransition>, objs: seq<LazyTransitionObject>,
                     o: LazyTransitionObject)
    requires Values(objs) == acc + built
    ensures Values(objs + [o]) == acc + (built + [o.value])
  {
    assert (objs + [o])[..|objs|] == objs;
  }

  /** What the collector asks the factory for: the transition from the
      step at position `anchor` of the window, leading to `next`, over
      `duration` steps. */
  datatype Request = Request(anchor: nat, next: Option<Step>, duration: nat)

  /** Every request is anchored inside a window of length `len`. */
  predicate Within(rs: seq<Request>, len: nat)
  {
    forall j :: 0 <= j < |rs| ==> rs[j].anchor < len
  }

  /** The transitions the factory builds for the requests over the window
      `w`; none fails, each anchor being a step of the window. */
  function Built(f: TransitionFactory, gamma: real, w: seq<Step>, rs: seq<Request>): (r: seq<LazyTransition>)
    requires DistinctIds(w) && Within(rs, |w|)
    ensures |r| == |rs|
  {
    seq(|rs|, j requires 0 <= j < |rs| => Anchored(f, gamma, w, rs[j]))
  }

  function Anchored(f: TransitionFactory, gamma: real, w: seq<Step>, q: Request): LazyTransition
    requires DistinctIds(w) && q.anchor < |w|
  {
    CreatedFields(f, w[q.anchor], q.next, w, q.duration, gamma);
    Created(f, w[q.anchor], q.next, w, q.duration, gamma).value
  }

  /** Each built transition points at its anchor step and at the step the
      request leads to, has the requested duration, and carries the anchor's
      discounted return over that duration within the window. */
  lemma BuiltFields(f: TransitionFactory, gamma: real, w: seq<Step>, rs: seq<Request>, j: nat)
    requires DistinctIds(w) && Within(rs, |w|) && j < |rs|
    ensures var t := Built(f, gamma, w, rs)[j];
      t.currIdx == w[rs[j].anchor].idx && t.nextIdx == NextIdx(rs[j].next) && t.duration == rs[j].duration
      && Ok(t.multiStepReward) == ComputeReturn(w, w[rs[j].anchor].idx, rs[j].duration, gamma)
  {
    CreatedFields(f, w[rs[j].anchor], rs[j].next, w, rs[j].duration, gamma);
  }

  /** Building a list of requests one more at a time. */
  lemma BuiltSplit(f: TransitionFactory, gamma: real, w: seq<Step>, rs: seq<Request>, k: nat)
    requires DistinctIds(w) && Within(rs, |w|) && k < |rs|
    ensures Within([rs[k]], |w|)
    ensures Built(f, gamma, w, rs[..k + 1]) == Built(f, gamma, w, rs[..k]) + Built(f, gamma, w, [rs[k]])
  {
    assert rs[..k + 1][k] == rs[k];
  }

  /** Lines 50-60: once the window `w`, the new step last, holds more than
      n_steps steps, the transition anchored n_steps back, leading to the
      new step, over n_steps steps. */
  function WindowRequests(w: seq<Step>, n: nat): (rs: seq<Request>)
    requires |w| >= 1
    ensures Within(rs, |w|)
  {
    if |w| > n then [Request(|w| - 1 - n, Some(w[|w| - 1]), n)] else []
  }

  /** Lines 62-74: at a terminal step, for i from n_steps - 1 down to 0, the
      transition anchored i back, at the end of the episode, over i + 1
      steps. */
  function DrainRequests(w: seq<Step>, n: nat): (rs: seq<Request>)
    requires n <= |w|
    ensures |rs| == n && Within(rs, |w|)
  {
    seq(n, j requires 0 <= j < n => Request(|w| - n + j, None, n - j))
  }

  /** One pass of the drain: the transition for the request i back
      extends what the earlier passes built. */
  lemma DrainStep(f: TransitionFactory, gamma: real, w: seq<Step>, n: nat, i: nat,
                  acc: seq<LazyTransition>, before: seq<LazyTransition>, after: seq<LazyTransition>)
    requires DistinctIds(w) && n <= |w| && i < n
    requires before == acc + Built(f, gamma, w, DrainRequests(w, n)[..n - (i + 1)])
    requires after == before + Built(f, gamma, w, [Request(|w| - 1 - i, None, i + 1)])
    ensures after == acc + Built(f, gamma, w, DrainRequests(w, n)[..n - i])
  {
    var rs := DrainRequests(w, n);
    BuiltSplit(f, gamma, w, rs, n - 1 - i);
    assert rs[n - 1 - i] == Request(|w| - 1 - i, None, i + 1);
  }

  /** The requests made while the steps of `w` are collected one by one
      into an empty window, none of them terminal. */
  function RunRequests(w: seq<Step>, n: nat): seq<Request>
  {
    if |w| == 0 then [] else RunRequests(w[..|w| - 1], n) + WindowRequests(w, n)
  }

  /** Collecting L steps without a terminal one requests max(0, L - n_steps)
      transitions: the q-th is anchored at the q-th step, leads to the step
      n_steps later and spans n_steps steps. */
  lemma {:induction false} RunAnchors(w: seq<Step>, n: nat)
    ensures |RunRequests(w, n)| == Max(0, |w| - n)
    ensures forall q :: 0 <= q < |RunRequests(w, n)| ==> RunRequests(w, n)[q] == Request(q, Some(w[q + n]), n)
  {
    if |w| > 0 {
      var w' := w[..|w| - 1];
      RunAnchors(w', n);
      var r, r' := RunRequests(w, n), RunRequests(w', n);
      assert r == r' + WindowRequests(w, n);
      forall q | 0 <= q < |r|
        ensures r[q] == Request(q, Some(w[q + n]), n)
      {
        if q < |r'| {
          assert r[q] == r'[q] && w'[q + n] == w[q + n];
        }
      }
    }
  }

  /** A terminated episode of L >= n_steps steps yields exactly L
      transitions, one anchored at each of its steps in order: the one at
      position q spans the min(n_steps, L - q) steps up to the end and leads
      to the step n_steps later, or to None when that is past the end. */
  lemma TerminatedEpisode(w: seq<Step>, n: nat)
    requires n <= |w|
    ensures var rs := RunRequests(w, n) + DrainRequests(w, n);
      |rs| == |w|
      && forall q :: 0 <= q < |w| ==>
        rs[q] == Request(q, if q + n < |w| then Some(w[q + n]) else None, Min(n, |w| - q))
  {
    RunAnchors(w, n);
  }

  /** Every step of `steps` has an id below `bound`. */
  predicate IdsBelow(steps: seq<Step>, bound: nat)
  {
    forall j :: 0 <= j < |steps| ==> steps[j].idx < bound
  }

  class StepCollector {
    const stepBuffer: UnlimitedStepBuffer
    const transitionBuffer: FIFOTransitionBuffer
    const factory: TransitionFactory
    /** `_episode_steps`: the window of the current episode. */
    const episodeSteps: EpisodicStepBuffer
    const nSteps: nat
    const gamma: real
    /** The id the next step gets. */
    var idx: nat

    /** Both stores hold only ids below the next one, so every new step's
        id is new to them. */
    ghost predicate Valid()
      reads this, stepBuffer, transitionBuffer, episodeSteps
    {
      stepBuffer.Valid() && transitionBuffer.Valid() && episodeSteps.Valid()
      && transitionBuffer.maxlen >= 1
      && IdsBelow(stepBuffer.buffer, idx) && IdsBelow(episodeSteps.buffer, idx)
    }

    /** Lines 15-30: ids start at `idx_offset`, which lies above every id
        the shared step buffer already holds; the window starts empty. */
    constructor(stepBuffer: UnlimitedStepBuffer, transitionBuffer: FIFOTransitionBuffer, factory: TransitionFactory,
                nSteps: nat, gamma: real, idxOffset: nat)
      requires stepBuffer.Valid() && transitionBuffer.Valid() && transitionBuffer.maxlen >= 1
      requires IdsBelow(stepBuffer.buffer, idxOffset)
      ensures Valid() && idx == idxOffset && episodeSteps.buffer == []
      ensures this.stepBuffer == stepBuffer && this.transitionBuffer == transitionBuffer
      ensures this.factory == factory && this.nSteps == nSteps && this.gamma == gamma
    {
      this.stepBuffer := stepBuffer;
      this.transitionBuffer := transitionBuffer;
      this.factory := factory;
      this.nSteps := nSteps;
      this.gamma := gamma;
      this.episodeSteps := new EpisodicStepBuffer();
      this.idx := idxOffset;
    }

    /** `collect` (lines 32-76): the step gets the next id and goes last in
        both stores; the window emits its transition, if it is long enough;
        a terminal step (a nonzero `terminal`) drains the window and clears
        it, unless the episode is shorter than n_steps, when the assertion
        of line 66 fails first. */
    method Collect(observation: Item, action: Item, reward: real, terminal: real) returns (r: Result<()>)
      requires Valid()
      modifies this, stepBuffer, transitionBuffer, episodeSteps
      ensures Valid() && idx == old(idx) + 1
      ensures var step := Step(old(idx), observation, action, reward, terminal);
        var w := old(episodeSteps.buffer) + [step];
        DistinctIds(w)
        && stepBuffer.buffer == old(stepBuffer.buffer) + [step]
        && (terminal == 0.0 || |w| < nSteps ==>
              episodeSteps.buffer == w
              && Values(transitionBuffer.history)
                 == Values(old(transitionBuffer.history)) + Built(factory, gamma, w, WindowRequests(w, nSteps)))
        && (terminal == 0.0 ==> r == Ok(()))
        && (terminal != 0.0 && |w| < nSteps ==> r == Err(AssertionError))
        && (terminal != 0.0 && |w| >= nSteps ==>
              r == Ok(()) && episodeSteps.buffer == []
              && Values(transitionBuffer.history)
                 == Values(old(transitionBuffer.history))
                    + Built(factory, gamma, w, WindowRequests(w, nSteps)) + Built(factory, gamma, w, DrainRequests(w, nSteps)))
    {
      var step := Store(observation, action, reward, terminal);
      EmitWindow(step);
      if terminal != 0.0 {
        r := EndEpisode(step);
        return;
      }
      r := Ok(());
    }

    /** Lines 62-76: the window is drained and then cleared, unless the
        drain fails. */
    method EndEpisode(step: Step) returns (r: Result<()>)
      requires Valid() && |episodeSteps.buffer| >= 1 && episodeSteps.buffer[|episodeSteps.buffer| - 1] == step
      modifies transitionBuffer, episodeSteps
      ensures Valid()
      ensures |old(episodeSteps.buffer)| < nSteps ==>
        r == Err(AssertionError) && episodeSteps.buffer == old(episodeSteps.buffer)
        && transitionBuffer.history == old(transitionBuffer.history)
      ensures |old(episodeSteps.buffer)| >= nSteps ==>
        r == Ok(()) && episodeSteps.buffer == []
        && Values(transitionBuffer.history)
           == Values(old(transitionBuffer.history)) + Built(factory, gamma, old(episodeSteps.buffer), DrainRequests(old(episodeSteps.buffer), nSteps))
    {
      r := Drain(step);
      if r.Err? {
        return;
      }
      ClipEpisode();
    }

    /** Lines 40-48: the step gets the next id and goes last in the shared
        step buffer and in the window. */
    method Store(observation: Item, action: Item, reward: real, terminal: real) returns (step: Step)
      requires Valid()
      modifies this, stepBuffer, episodeSteps
      ensures Valid() && idx == old(idx) + 1
      ensures step == Step(old(idx), observation, action, reward, terminal)
      ensures stepBuffer.buffer == old(stepBuffer.buffer) + [step]
      ensures episodeSteps.buffer == old(episodeSteps.buffer) + [step]
    {
      step := Step(idx, observation, action, reward, terminal);
      idx := idx + 1;
      stepBuffer.Append(step);
      episodeSteps.Append(step);
    }

    /** Lines 50-60: once the window holds more than n_steps steps, the
        step n_steps back, which exists, leads to the new step; the buffer
        takes the transition and whatever it evicts is ignored. */
    method EmitWindow(step: Step)
      requires transitionBuffer.Valid() && transitionBuffer.maxlen >= 1 && episodeSteps.Valid()
      requires |episodeSteps.buffer| >= 1 && episodeSteps.buffer[|episodeSteps.buffer| - 1] == step
      modifies transitionBuffer
      ensures transitionBuffer.Valid()
      ensures Values(transitionBuffer.history)
           == Values(old(transitionBuffer.history)) + Built(factory, gamma, episodeSteps.buffer, WindowRequests(episodeSteps.buffer, nSteps))
    {
      var w := episodeSteps.buffer;
      if episodeSteps.Size() <= nSteps {
        assert WindowRequests(w, nSteps) == [];
        return;
      }
      var last := StepBack(step, nSteps);
      var anchor := last.value.value;
      var q := Request(|w| - 1 - nSteps, Some(step), nSteps);
      assert WindowRequests(w, nSteps) == [q];
      Emit(w, anchor, q);
    }

    /** Lines 62-74: for i from n_steps - 1 down to 0 the step i back, which
        must exist, starts a transition to the end of the episode over
        i + 1 steps. */
    method Drain(step: Step) returns (r: Result<()>)
      requires transitionBuffer.Valid() && transitionBuffer.maxlen >= 1 && episodeSteps.Valid()
      requires |episodeSteps.buffer| >= 1 && episodeSteps.buffer[|episodeSteps.buffer| - 1] == step
      modifies transitionBuffer
      ensures transitionBuffer.Valid()
      ensures |episodeSteps.buffer| < nSteps ==>
        r == Err(AssertionError) && transitionBuffer.history == old(transitionBuffer.history)
      ensures |episodeSteps.buffer| >= nSteps ==>
        r == Ok(())
        && Values(transitionBuffer.history)
           == Values(old(transitionBuffer.history)) + Built(factory, gamma, episodeSteps.buffer, DrainRequests(episodeSteps.buffer, nSteps))
    {
      var w := episodeSteps.buffer;
      ghost var acc := Values(transitionBuffer.history);
      ghost var done: nat := 0;
      for i := nSteps downto 0
        invariant transitionBuffer.Valid() && done == nSteps - i && episodeSteps.buffer == w
        invariant |w| < nSteps ==> i == nSteps && transitionBuffer.history == old(transitionBuffer.history)
        invariant |w| >= nSteps ==>
          Values(transitionBuffer.history) == acc + Built(factory, gamma, w, DrainRequests(w, nSteps)[..done])
      {
        var last := StepBack(step, i);
        if last.Err? || last.value.None? {
          return Err(AssertionError);
        }
        DrainPass(w, i, last.value.value, acc, done);
        done := done + 1;
      }
      assert DrainRequests(w, nSteps)[..nSteps] == DrainRequests(w, nSteps);
      r := Ok(());
    }

    /** `self._episode_steps.get_prev(step.idx, i)` from the newest step
        of the window: the step i positions earlier, or None before the
        window's start. */
    method StepBack(step: Step, i: nat) returns (last: Result<Option<Step>>)
      requires episodeSteps.Valid() && |episodeSteps.buffer| >= 1
      requires episodeSteps.buffer[|episodeSteps.buffer| - 1] == step
      ensures last.Ok? && (last.value.Some? <==> i < |episodeSteps.buffer|)
      ensures last.value.Some? ==> last.value.value == episodeSteps.buffer[|episodeSteps.buffer| - 1 - i]
    {
      last := episodeSteps.GetPrev(step.idx, i);
      Hopped(episodeSteps.buffer, step, i, last);
    }

    /** The body of the loop of lines 64-74 once the hop back has found the
        anchor: its transition extends the ones built by the earlier
        passes. */
    method DrainPass(w: seq<Step>, i: nat, anchor: Step, ghost acc: seq<LazyTransition>, ghost done: nat)
      requires transitionBuffer.Valid() && transitionBuffer.maxlen >= 1
      requires DistinctIds(w) && nSteps <= |w| && i < nSteps && anchor == w[|w| - 1 - i] && done == nSteps - 1 - i
      requires Values(transitionBuffer.history) == acc + Built(factory, gamma, w, DrainRequests(w, nSteps)[..done])
      modifies transitionBuffer
      ensures transitionBuffer.Valid()
      ensures Values(transitionBuffer.history) == acc + Built(factory, gamma, w, DrainRequests(w, nSteps)[..done + 1])
    {
      ghost var h := transitionBuffer.history;
      Emit(w, anchor, Request(|w| - 1 - i, None, i + 1));
      DrainStep(factory, gamma, w, nSteps, i, acc, Values(h), Values(transitionBuffer.history));
      assert nSteps - i == done + 1 && nSteps - (i + 1) == done;
    }

    /** The factory's transition for one request, whose anchor step is
        given, goes last in the transition buffer. */
    method Emit(w: seq<Step>, anchor: Step, q: Request)
      requires transitionBuffer.Valid() && transitionBuffer.maxlen >= 1
      requires DistinctIds(w) && q.anchor < |w| && w[q.anchor] == anchor
      modifies transitionBuffer
      ensures transitionBuffer.Valid()
      ensures Values(transitionBuffer.history) == Values(old(transitionBuffer.history)) + Built(factory, gamma, w, [q])
    {
      var t := CreateTransition(factory, anchor, q.next, w, q.duration, gamma);
      CreatedFields(factory, anchor, q.next, w, q.duration, gamma);
      var o := new LazyTransitionObject(t.value);
      ghost var h := transitionBuffer.history;
      var _ := transitionBuffer.Append(o);
      ValuesAppend(Values(h), [], h, o);
    }

    /** Line 79: only the window is emptied. */
    method ClipEpisode()
      requires Valid()
      modifies episodeSteps
      ensures Valid() && episodeSteps.buffer == []
    {
      episodeSteps.Clear();
    }
  }

  /** Hopping i back from the last step of the window lands i positions
      earlier, or on None before the window's start. */
  lemma Hopped(w: seq<Step>, step: Step, i: nat, last: Result<Option<Step>>)
    requires DistinctIds(w) && |w| >= 1 && w[|w| - 1] == step && last == GetPrev(w, step.idx, i)
    ensures last.Ok? && (last.value.Some? <==> i < |w|)
    ensures last.value.Some? ==> last.value.value == w[|w| - 1 - i]
  {
    if i == 0 {
      IndexOfDistinct(w, |w| - 1);
    } else {
      GetPrevAt(w, |w| - 1, i);
    }
  }
}
