/** The transition buffers of kiox/transition_buffer.py: an unbounded list
    and a bounded deque that evicts its oldest element and hands it back, so
    that the episode manager can count the drop. Elements are lazy
    transition objects, compared by identity. */
module TransitionBuffers {
  import opened Common
  import opened Steps
  import opened Transitions

  /** The contents of a deque with `maxlen` after the elements of `history`
      have been appended in order: the last `maxlen` of them. */
  function Window<T>(maxlen: nat, history: seq<T>): seq<T>
  {
    history[|history| - Min(|history|, maxlen)..]
  }

  /** The deque holds min(k, maxlen) elements after k appends, the newest
      last. */
  lemma WindowShape<T>(maxlen: nat, history: seq<T>)
    ensures |Window(maxlen, history)| == Min(|history|, maxlen)
    ensures |history| >= 1 && maxlen >= 1 ==> Window(maxlen, history)[|Window(maxlen, history)| - 1] == history[|history| - 1]
    ensures |history| >= maxlen ==> Window(maxlen, history) == history[|history| - maxlen..]
  {
  }

  /** One append to a deque with maxlen >= 1: when it was full the oldest
      element leaves, otherwise nothing does, and the new one goes last. */
  lemma WindowSlide<T>(maxlen: nat, history: seq<T>, x: T)
    requires maxlen >= 1
    ensures var w := Window(maxlen, history);
      Window(maxlen, history + [x]) == (if |w| == maxlen then w[1..] else w) + [x]
  {
    var w := Window(maxlen, history);
    var h := history + [x];
    if |w| == maxlen {
      assert Window(maxlen, h) == h[|h| - maxlen..];
      assert h[|h| - maxlen..] == w[1..] + [x];
    } else {
      assert |history| < maxlen;
      assert Window(maxlen, h) == h;
    }
  }

  class UnlimitedTransitionBuffer {
    var buffer: seq<LazyTransitionObject>

    constructor()
      ensures buffer == []
    {
      buffer := [];
    }

    /** Lines 41-45: the transition goes last and nothing is ever evicted. */
    method Append(t: LazyTransitionObject) returns (dropped: Option<LazyTransitionObject>)
      modifies this
      ensures buffer == old(buffer) + [t]
      ensures dropped == None
    {
      buffer := buffer + [t];
      dropped := None;
    }

    /** Lines 47-48. */
    method GetByIndex(index: int) returns (r: Result<LazyTransitionObject>)
      ensures r == PyIndex(buffer, index)
    {
      r := PyIndex(buffer, index);
    }

    /** Lines 54-55. */
    method Size() returns (n: nat)
      ensures n == |buffer|
    {
      n := |buffer|;
    }

    /** Lines 50-52, with the random draw `index` given: drawing from an empty
        buffer is numpy's ValueError, otherwise the drawn transition is
        materialised against the steps. */
    method Sample(index: nat, steps: map<nat, Step>) returns (r: Result<Transition>)
      requires |buffer| == 0 || index < |buffer|
      ensures |buffer| == 0 ==> r == Err(ValueError)
      ensures |buffer| > 0 ==> r == Create(buffer[index].value, steps)
    {
      if |buffer| == 0 {
        return Err(ValueError);
      }
      r := Create(buffer[index].value, steps);
    }

    /** Lines 57-59: the source's transitions are appended in index order. */
    method CopyFrom(source: seq<LazyTransitionObject>)
      modifies this
      ensures buffer == old(buffer) + source
    {
      for i := 0 to |source|
        invariant buffer == old(buffer) + source[..i]
      {
        var _ := Append(source[i]);
        PrefixStep(old(buffer), source, i);
      }
      PrefixWhole(old(buffer), source);
    }
  }

  class FIFOTransitionBuffer {
    const maxlen: nat
    var buffer: seq<LazyTransitionObject>
    /** Every transition appended so far, in order. */
    ghost var history: seq<LazyTransitionObject>

    ghost predicate Valid()
      reads this
    {
      buffer == Window(maxlen, history)
    }

    /** Lines 70-72. */
    constructor(maxlen: nat)
      ensures Valid() && this.maxlen == maxlen && buffer == [] && history == []
    {
      this.maxlen := maxlen;
      buffer := [];
      history := [];
    }

    /** Lines 74-83: when the deque is full its oldest element is returned
        and leaves as the new one goes last; otherwise None is returned. With
        maxlen 0 the deque is always full and empty, so reading its oldest
        element raises IndexError before anything changes. */
    method Append(t: LazyTransitionObject) returns (r: Result<Option<LazyTransitionObject>>)
      requires Valid()
      modifies this
      ensures Valid()
      ensures maxlen == 0 ==> r == Err(IndexError) && buffer == old(buffer) && history == old(history)
      ensures maxlen >= 1 ==> r.Ok? && history == old(history) + [t]
      ensures maxlen >= 1 && |old(buffer)| == maxlen ==> r.value == Some(old(buffer)[0]) && buffer == old(buffer)[1..] + [t]
      ensures maxlen >= 1 && |old(buffer)| < maxlen ==> r.value == None && buffer == old(buffer) + [t]
    {
      WindowShape(maxlen, history);
      if |buffer| == maxlen {
        if |buffer| == 0 {
          return Err(IndexError);
        }
        r := Ok(Some(buffer[0]));
        buffer := buffer[1..] + [t];
      } else {
        r := Ok(None);
        buffer := buffer + [t];
      }
      WindowSlide(maxlen, history, t);
      history := history + [t];
    }

    /** Lines 85-86. */
    method GetByIndex(index: int) returns (r: Result<LazyTransitionObject>)
      ensures r == PyIndex(buffer, index)
    {
      r := PyIndex(buffer, index);
    }

    /** Lines 92-93. */
    method Size() returns (n: nat)
      requires Valid()
      ensures n == |buffer| == Min(|history|, maxlen)
    {
      WindowShape(maxlen, history);
      n := |buffer|;
    }

    /** Lines 88-90, with the random draw `index` given. */
    method Sample(index: nat, steps: map<nat, Step>) returns (r: Result<Transition>)
      requires |buffer| == 0 || index < |buffer|
      ensures |buffer| == 0 ==> r == Err(ValueError)
      ensures |buffer| > 0 ==> r == Create(buffer[index].value, steps)
    {
      if |buffer| == 0 {
        return Err(ValueError);
      }
      r := Create(buffer[index].value, steps);
    }

    /** Lines 95-97: the source's transitions are appended in index order,
        the deque keeping the last maxlen of everything appended; with
        maxlen 0 the first append raises. */
    method CopyFrom(source: seq<LazyTransitionObject>) returns (r: Result<()>)
      requires Valid()
      modifies this
      ensures Valid()
      ensures maxlen == 0 && |source| > 0 ==> r == Err(IndexError) && buffer == old(buffer) && history == old(history)
      ensures maxlen >= 1 || |source| == 0 ==> r == Ok(()) && history == old(history) + source
    {
      for i := 0 to |source|
        invariant Valid() && history == old(history) + source[..i]
        invariant maxlen == 0 ==> i == 0 && buffer == old(buffer)
      {
        var dropped := Append(source[i]);
        if dropped.Err? {
          assert maxlen == 0 && i == 0;
          return Err(dropped.error);
        }
        PrefixStep(old(history), source, i);
      }
      PrefixWhole(old(history), source);
      r := Ok(());
    }
  }

  /** When every appended object is a new one, the transition a full deque
      hands back is not the one just appended, and it is no longer held. */
  lemma DroppedLeaves<T>(maxlen: nat, history: seq<T>, t: T)
    requires maxlen >= 1 && |Window(maxlen, history)| == maxlen
    requires Distinct(history + [t])
    ensures Window(maxlen, history)[0] != t
    ensures Window(maxlen, history)[0] !in Window(maxlen, history + [t])
  {
    WindowSlide(maxlen, history, t);
    var h := history + [t];
    var k := |history| - maxlen;
    assert Window(maxlen, history)[0] == h[k];
    assert h[|h| - 1] == t && k < |h| - 1;
    assert Window(maxlen, h) == h[k + 1..];
    forall j | k + 1 <= j < |h|
      ensures h[j] != h[k]
    {
    }
  }
}
