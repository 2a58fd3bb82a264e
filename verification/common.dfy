/** Shared vocabulary: optional values, results carrying the Python exception
    kind that the source would raise, and the terms of the discounted sums
    that both episode stores compute. */
module Common {

  datatype Option<T> = None | Some(value: T)

  /** The exceptions the modelled code can raise. `NotFound` stands for the
      failed `assert idx in self._index` of a step lookup. */
  datatype Error = NotFound | IndexError | ValueError | TypeError | AssertionError

  datatype Result<T> = Ok(value: T) | Err(error: Error)

  function Min(a: int, b: int): int { if a <= b then a else b }

  function Max(a: int, b: int): int { if a >= b then a else b }

  /** Python's index normalisation: -n <= index < 0 counts from the end. */
  function NormaliseIndex(index: int, n: nat): (r: Option<nat>)
    ensures r.Some? ==> r.value < n
    ensures r.Some? <==> -(n as int) <= index < n
  {
    if 0 <= index < n then Some(index as nat)
    else if -(n as int) <= index < 0 then Some((index + n) as nat)
    else None
  }

  /** `s[index]` on a Python list or deque: negative indices count from the
      end, anything else out of range is an IndexError. */
  function PyIndex<T>(s: seq<T>, index: int): (r: Result<T>)
    ensures r.Ok? <==> -|s| <= index < |s|
    ensures r.Ok? && index >= 0 ==> r.value == s[index]
    ensures r.Ok? && index < 0 ==> r.value == s[|s| + index]
    ensures r.Err? ==> r.error == IndexError
  {
    match NormaliseIndex(index, |s|)
    case None => Err(IndexError)
    case Some(p) => Ok(s[p])
  }

  /** gamma ** i */
  function Pow(gamma: real, i: nat): real
  {
    if i == 0 then 1.0 else gamma * Pow(gamma, i - 1)
  }

  /** The i-th term of a discounted sum, gamma ** i * r. */
  function Term(gamma: real, i: nat, r: real): real
  {
    Pow(gamma, i) * r
  }

  /** One step of the Bellman backup: a reward plus the discounted rest. */
  function Backup(reward: real, gamma: real, rest: real): real
  {
    reward + gamma * rest
  }

  /** A term one place later is gamma times the term in place. */
  lemma TermShift(gamma: real, i: nat, r: real)
    ensures Term(gamma, i + 1, r) == gamma * Term(gamma, i, r)
  {
  }

  /** Reversal of a sequence, used for the `list(reversed(...))` of the
      frame-stack factory. */
  function Reversed<T>(s: seq<T>): (r: seq<T>)
    ensures |r| == |s|
    ensures forall i :: 0 <= i < |s| ==> r[i] == s[|s| - 1 - i]
  {
    if |s| == 0 then [] else Reversed(s[1..]) + [s[0]]
  }

  /** No element of `s` occurs twice. */
  predicate Distinct<T(==)>(s: seq<T>)
  {
    forall i, j :: 0 <= i < j < |s| ==> s[i] != s[j]
  }

  /** A loop that appends the elements of `s` one by one to `h`: one more
      step extends the prefix by the next element, and the last step leaves
      all of `s` appended. */
  lemma PrefixStep<T>(h: seq<T>, s: seq<T>, i: nat)
    requires i < |s|
    ensures (h + s[..i]) + [s[i]] == h + s[..i + 1]
  {
    assert s[..i + 1] == s[..i] + [s[i]];
  }

  lemma PrefixWhole<T>(h: seq<T>, s: seq<T>)
    ensures h + s[..|s|] == h + s
  {
    assert s[..|s|] == s;
  }

  /** A new element keeps a list distinct; so does removing one. */
  lemma DistinctAppend<T>(s: seq<T>, x: T)
    requires Distinct(s) && x !in s
    ensures Distinct(s + [x])
  {
    forall i, j | 0 <= i < j < |s| + 1
      ensures (s + [x])[i] != (s + [x])[j]
    {
      if j == |s| {
        assert s[i] in s;
      }
    }
  }

  lemma DistinctRemove<T>(s: seq<T>, i: nat)
    requires Distinct(s) && i < |s|
    ensures Distinct(s[..i] + s[i + 1..])
    ensures forall x :: x in s[..i] + s[i + 1..] <==> x in s && x != s[i]
  {
    var r := s[..i] + s[i + 1..];
    assert forall k :: 0 <= k < |r| ==> r[k] == (if k < i then s[k] else s[k + 1]);
    forall x | x in s && x != s[i]
      ensures x in r
    {
      var k :| 0 <= k < |s| && s[k] == x;
      assert r[if k < i then k else k - 1] == x;
    }
  }

  /** Python's `list.index`: the position of the first occurrence of `x`,
      or |s| when there is none (where Python raises ValueError). */
  function FirstIndex<T(==)>(s: seq<T>, x: T): (i: nat)
    ensures i <= |s| && (i < |s| <==> x in s)
    ensures i < |s| ==> s[i] == x
  {
    if |s| == 0 then 0 else if s[0] == x then 0 else 1 + FirstIndex(s[1..], x)
  }

  /** `s.pop(s.index(x))`: the list without the first occurrence of `x`;
      unchanged when `x` is absent. */
  function Without<T(==)>(s: seq<T>, x: T): seq<T>
  {
    var i := FirstIndex(s, x);
    if i < |s| then s[..i] + s[i + 1..] else s
  }

  /** Removing an element of a list without repetitions leaves the others,
      still without repetitions. */
  lemma WithoutDistinct<T>(s: seq<T>, x: T)
    requires Distinct(s)
    ensures Distinct(Without(s, x))
    ensures forall y :: y in Without(s, x) <==> y in s && y != x
  {
    var i := FirstIndex(s, x);
    if i < |s| {
      DistinctRemove(s, i);
    }
  }

  /** Removing an element other than the last keeps the last in place. */
  lemma WithoutKeepsLast<T>(s: seq<T>, x: T)
    requires |s| >= 1 && s[|s| - 1] != x
    ensures |Without(s, x)| >= 1 && Without(s, x)[|Without(s, x)| - 1] == s[|s| - 1]
  {
  }

  ghost function Elems<T>(s: seq<T>): set<T>
  {
    set x | x in s
  }

  /** The elements of a prefix one longer, and of the whole list. */
  lemma ElemsPrefix<T>(s: seq<T>, i: nat)
    requires i < |s|
    ensures Elems(s[..i + 1]) == Elems(s[..i]) + {s[i]}
  {
    assert s[..i + 1] == s[..i] + [s[i]];
  }

  lemma ElemsWhole<T>(s: seq<T>)
    ensures Elems(s[..|s|]) == Elems(s)
  {
    assert s[..|s|] == s;
  }

  lemma {:induction false} ElemsCount<T>(s: seq<T>)
    ensures |Elems(s)| <= |s|
    ensures Distinct(s) ==> |Elems(s)| == |s|
  {
    if |s| > 0 {
      var r := s[..|s| - 1];
      ElemsCount(r);
      assert s == r + [s[|s| - 1]];
      assert Elems(s) == Elems(r) + {s[|s| - 1]};
      if Distinct(s) {
        assert Distinct(r);
        assert s[|s| - 1] !in Elems(r);
      }
    }
  }

  /** A list of distinct elements all drawn from `b` is no longer than `b`,
      and shorter when `b` holds an element it misses. */
  lemma CountWithin<T>(a: seq<T>, b: seq<T>)
    requires Distinct(a) && forall x :: x in a ==> x in b
    ensures |a| <= |b|
    ensures (exists y :: y in b && y !in a) ==> |a| < |b|
  {
    ElemsCount(a);
    ElemsCount(b);
    var A, B := Elems(a), Elems(b);
    assert A <= B;
    assert B == A + (B - A);
    if y :| y in b && y !in a {
      assert y in B - A;
    }
  }
}
