/** The three step stores of kiox/step_buffer.py: an unbounded list, a
    fixed-capacity ring that overwrites its oldest slot, and the window of the
    episode being collected, with links between neighbouring steps.

    Step ids are unique over the lifetime of a store, so every `Append`
    requires an id the store does not hold. */
module StepBuffers {
  import opened Common
  import opened Items
  import opened Steps

  /** `index` maps exactly the ids held in `buffer` to the slot holding them. */
  ghost predicate IndexesSlots(index: map<nat, nat>, buffer: seq<Step>)
  {
    (forall p :: 0 <= p < |buffer| ==> buffer[p].idx in index)
    && (forall id :: id in index ==> index[id] < |buffer| && buffer[index[id]].idx == id)
  }

  /** A lookup through an id-to-slot map is the lookup by id. */
  lemma LookupBySlot(index: map<nat, nat>, buffer: seq<Step>, idx: nat)
    requires IndexesSlots(index, buffer) && DistinctIds(buffer)
    ensures idx in index ==> IndexOf(buffer, idx) == Some(index[idx]) && Find(buffer, idx) == Ok(buffer[index[idx]])
    ensures idx !in index ==> IndexOf(buffer, idx).None? && Find(buffer, idx) == Err(NotFound)
  {
    if idx in index {
      IndexOfDistinct(buffer, index[idx]);
    }
  }

  /** The slot the index gives for the id held at position p is p. */
  lemma SlotOf(index: map<nat, nat>, buffer: seq<Step>, p: nat)
    requires IndexesSlots(index, buffer) && DistinctIds(buffer) && p < |buffer|
    ensures buffer[p].idx in index && index[buffer[p].idx] == p
  {
    assert buffer[p].idx in Ids(buffer);
  }

  /** The next-links of a window: each id but the last's maps to the
      position after its own. */
  ghost predicate LinksNext(nextIndex: map<nat, nat>, index: map<nat, nat>, buffer: seq<Step>)
  {
    (forall id :: id in nextIndex <==> id in index && index[id] + 1 < |buffer|)
    && (forall id :: id in nextIndex ==> nextIndex[id] == index[id] + 1)
  }

  /** The prev-links of a window: each id but the first's maps to the
      position before its own. */
  ghost predicate LinksPrev(prevIndex: map<nat, nat>, index: map<nat, nat>, buffer: seq<Step>)
  {
    (forall id :: id in prevIndex <==> id in index && index[id] >= 1)
    && (forall id :: id in prevIndex ==> prevIndex[id] + 1 == index[id])
  }

  /** One pass of the `get_next` loop: from the step i positions after p,
      the link leads to the step i + 1 positions after p, and it is missing
      exactly at the window's end. */
  lemma NextHop(buffer: seq<Step>, index: map<nat, nat>, nextIndex: map<nat, nat>, p: nat, i: nat)
    requires DistinctIds(buffer) && IndexesSlots(index, buffer) && LinksNext(nextIndex, index, buffer)
    requires p + i < |buffer|
    ensures buffer[p + i].idx in nextIndex <==> p + i + 1 < |buffer|
    ensures buffer[p + i].idx in nextIndex ==> nextIndex[buffer[p + i].idx] == p + i + 1
  {
    SlotOf(index, buffer, p + i);
  }

  /** One pass of the `get_prev` loop. */
  lemma PrevHop(buffer: seq<Step>, index: map<nat, nat>, prevIndex: map<nat, nat>, p: nat, i: nat)
    requires DistinctIds(buffer) && IndexesSlots(index, buffer) && LinksPrev(prevIndex, index, buffer)
    requires i <= p < |buffer|
    ensures buffer[p - i].idx in prevIndex <==> i < p
    ensures buffer[p - i].idx in prevIndex ==> prevIndex[buffer[p - i].idx] == p - i - 1
  {
    SlotOf(index, buffer, p - i);
  }

  /** What `get_next` gives once its loop has reached `landed`: nothing when
      a link was missing, otherwise the lookup of the id reached. */
  lemma NextLanding(buffer: seq<Step>, index: map<nat, nat>, idx: nat, k: nat, landed: Option<nat>)
    requires DistinctIds(buffer) && IndexesSlots(index, buffer)
    requires idx !in index ==> landed == if k == 0 then Some(idx) else None
    requires idx in index ==> landed == if index[idx] + k < |buffer| then Some(buffer[index[idx] + k].idx) else None
    ensures GetNext(buffer, idx, k) == match landed
      case None => Ok(None)
      case Some(id) => match Find(buffer, id) case Err(e) => Err(e) case Ok(s) => Ok(Some(s))
  {
    LookupBySlot(index, buffer, idx);
    if idx in index && landed.Some? {
      FindDistinct(buffer, index[idx] + k);
    }
  }

  /** What `get_prev` gives once its loop has reached `landed`. */
  lemma PrevLanding(buffer: seq<Step>, index: map<nat, nat>, idx: nat, k: nat, landed: Option<nat>)
    requires DistinctIds(buffer) && IndexesSlots(index, buffer)
    requires idx !in index ==> landed == if k == 0 then Some(idx) else None
    requires idx in index ==> landed == if k <= index[idx] then Some(buffer[index[idx] - k].idx) else None
    ensures GetPrev(buffer, idx, k) == match landed
      case None => Ok(None)
      case Some(id) => match Find(buffer, id) case Err(e) => Err(e) case Ok(s) => Ok(Some(s))
  {
    LookupBySlot(index, buffer, idx);
    if idx in index && landed.Some? {
      FindDistinct(buffer, index[idx] - k);
    }
  }

  /** In steps with distinct ids, the i-th id is new to the first i steps. */
  lemma FreshInPrefix(source: seq<Step>, i: nat)
    requires DistinctIds(source) && i < |source|
    ensures source[i].idx !in Ids(source[..i])
    ensures Ids(source[..i + 1]) == Ids(source[..i]) + {source[i].idx}
  {
    assert source[..i + 1] == source[..i] + [source[i]];
    IdsAppend(source[..i], source[i]);
  }

  lemma IdsAppend(buffer: seq<Step>, step: Step)
    ensures Ids(buffer + [step]) == Ids(buffer) + {step.idx}
  {
    var b := buffer + [step];
    forall id | id in Ids(b) ensures id in Ids(buffer) + {step.idx} {
      var p :| 0 <= p < |b| && b[p].idx == id;
      if p < |buffer| { assert buffer[p] == b[p]; }
    }
    forall id | id in Ids(buffer) ensures id in Ids(b) {
      var p :| 0 <= p < |buffer| && buffer[p].idx == id;
      assert b[p] == buffer[p];
    }
    assert b[|buffer|] == step;
  }

  lemma IdsUpdate(buffer: seq<Step>, c: nat, step: Step)
    requires c < |buffer| && DistinctIds(buffer)
    ensures Ids(buffer[c := step]) == Ids(buffer) - {buffer[c].idx} + {step.idx}
  {
    var b := buffer[c := step];
    forall id | id in Ids(b) ensures id in Ids(buffer) - {buffer[c].idx} + {step.idx} {
      var p :| 0 <= p < |b| && b[p].idx == id;
      if p != c { assert buffer[p].idx == id; }
    }
    forall id | id in Ids(buffer) - {buffer[c].idx} ensures id in Ids(b) {
      var p :| 0 <= p < |buffer| && buffer[p].idx == id;
      assert p != c && b[p] == buffer[p];
    }
    assert b[c] == step;
  }

  lemma IdsRotation(buffer: seq<Step>, c: nat)
    requires c <= |buffer|
    ensures Ids(buffer[c..] + buffer[..c]) == Ids(buffer)
  {
    var r := buffer[c..] + buffer[..c];
    forall id | id in Ids(r) ensures id in Ids(buffer) {
      var p :| 0 <= p < |r| && r[p].idx == id;
      if p < |buffer| - c { assert r[p] == buffer[c + p]; } else { assert r[p] == buffer[p - (|buffer| - c)]; }
    }
    forall id | id in Ids(buffer) ensures id in Ids(r) {
      var p :| 0 <= p < |buffer| && buffer[p].idx == id;
      if p >= c { assert r[p - c] == buffer[p]; } else { assert r[|buffer| - c + p] == buffer[p]; }
    }
  }

  /** Appending a step with a new id keeps the ids distinct. */
  lemma DistinctIdsAppend(buffer: seq<Step>, step: Step)
    requires DistinctIds(buffer) && step.idx !in Ids(buffer)
    ensures DistinctIds(buffer + [step])
  {
    var b := buffer + [step];
    forall i, j | 0 <= i < j < |b| ensures b[i].idx != b[j].idx {
      if j == |buffer| { assert b[i] == buffer[i]; } else { assert b[i] == buffer[i] && b[j] == buffer[j]; }
    }
  }

  /** The index the append of lines 51-53 maintains, keyed the way `get`
      reads it. */
  class UnlimitedStepBuffer {
    var buffer: seq<Step>
    var index: map<nat, nat>

    ghost predicate Valid()
      reads this
    {
      DistinctIds(buffer) && IndexesSlots(index, buffer)
    }

    constructor()
      ensures Valid() && buffer == []
    {
      buffer := [];
      index := map[];
    }

    /** Appends keep insertion order: the step goes last. */
    method Append(step: Step)
      requires Valid() && step.idx !in index
      modifies this
      ensures Valid() && buffer == old(buffer) + [step]
      ensures index == old(index)[step.idx := |old(buffer)|]
    {
      IdsAppend(buffer, step);
      DistinctIdsAppend(buffer, step);
      buffer := buffer + [step];
      index := index[step.idx := |buffer| - 1];
    }

    function Size(): (n: nat)
      reads this
      ensures n == |buffer|
    {
      |buffer|
    }

    /** Lookup by id, failing on an id the buffer does not hold. */
    method Get(idx: nat) returns (r: Result<Step>)
      requires Valid()
      ensures r == Find(buffer, idx)
    {
      LookupBySlot(index, buffer, idx);
      if idx !in index {
        return Err(NotFound);
      }
      r := Ok(buffer[index[idx]]);
    }

    method GetByIndex(i: int) returns (r: Result<Step>)
      requires Valid()
      ensures r == PyIndex(buffer, i)
    {
      if 0 <= i < |buffer| {
        r := Ok(buffer[i]);
      } else if -|buffer| <= i < 0 {
        r := Ok(buffer[|buffer| + i]);
      } else {
        r := Err(IndexError);
      }
    }

    method Clear()
      modifies this
      ensures Valid() && buffer == [] && index == map[]
    {
      buffer := [];
      index := map[];
    }

    /** Appends the steps of `source` in index order. */
    method CopyFrom(source: seq<Step>)
      requires Valid() && DistinctIds(source)
      requires forall j :: 0 <= j < |source| ==> source[j].idx !in index
      modifies this
      ensures Valid() && buffer == old(buffer) + source
    {
      for i := 0 to |source|
        invariant Valid() && buffer == old(buffer) + source[..i]
        invariant index.Keys == old(index.Keys) + Ids(source[..i])
      {
        FreshInPrefix(source, i);
        Append(source[i]);
        PrefixStep(old(buffer), source, i);
      }
      PrefixWhole(old(buffer), source);
    }
  }

  /** The map line 53 builds: slot position to the id stored there. */
  function PositionToId(buffer: seq<Step>): (m: map<nat, nat>)
    ensures forall p: nat :: p in m <==> p < |buffer|
    ensures forall p: nat :: p in m ==> m[p] == buffer[p].idx
  {
    map p | 0 <= p < |buffer| :: buffer[p].idx
  }

  /** `get` as lines 58-60 are written against that map: the argument is
      looked up among positions, and the id stored there is used as a
      position. */
  function GetAsWritten(buffer: seq<Step>, idx: nat): Result<Step>
  {
    var m := PositionToId(buffer);
    if idx !in m then Err(NotFound)
    else if m[idx] < |buffer| then Ok(buffer[m[idx]])
    else Err(IndexError)
  }

  /** As written, `get` is the lookup by id exactly when every step's id is
      its position. */
  lemma GetAsWrittenWhenIdsArePositions(buffer: seq<Step>, idx: nat)
    requires forall p :: 0 <= p < |buffer| ==> buffer[p].idx == p
    ensures GetAsWritten(buffer, idx) == Find(buffer, idx)
  {
    assert DistinctIds(buffer);
    if idx < |buffer| {
      IndexOfDistinct(buffer, idx);
    } else {
      assert idx !in Ids(buffer);
    }
  }

  /** As written, `get` misses a step the buffer holds: one step whose id is
      not 0 cannot be fetched by its id. */
  lemma GetAsWrittenMissesStoredStep(step: Step)
    requires step.idx != 0
    ensures Find([step], step.idx) == Ok(step)
    ensures GetAsWritten([step], step.idx) == Err(NotFound)
  {
    IndexOfDistinct([step], 0);
    assert step.idx !in PositionToId([step]);
  }

  /** The ring buffer of lines 78-124. */
  class FIFOStepBuffer {
    const maxlen: nat
    var buffer: seq<Step>
    var index: map<nat, nat>
    var cursor: nat
    /** Every step appended since construction or the last `Clear`, oldest first. */
    ghost var history: seq<Step>

    ghost predicate Valid()
      reads this
    {
      RingValid(maxlen, buffer, index, cursor, history)
    }

    constructor(maxlen: nat)
      requires maxlen >= 1
      ensures Valid() && this.maxlen == maxlen && buffer == [] && history == []
    {
      this.maxlen := maxlen;
      buffer := [];
      index := map[];
      cursor := 0;
      history := [];
    }

    /** Fills the next free slot, or once full overwrites the slot under the
        cursor, first deleting the evicted id from the index. */
    method Append(step: Step)
      requires Valid() && step.idx !in index
      modifies this
      ensures Valid() && history == old(history) + [step]
      ensures |old(buffer)| < maxlen ==> buffer == old(buffer) + [step]
      ensures |old(buffer)| == maxlen ==> buffer == old(buffer)[old(cursor) := step]
      ensures index.Keys <= old(index.Keys) + {step.idx}
    {
      ghost var b, ix, c, h := buffer, index, cursor, history;
      if |buffer| < maxlen {
        buffer := buffer + [step];
      } else {
        SlotOf(index, buffer, cursor);
        index := index - {buffer[cursor].idx};
        buffer := buffer[cursor := step];
      }
      index := index[step.idx := cursor];
      cursor := cursor + 1;
      if cursor == maxlen {
        cursor := 0;
      }
      history := history + [step];
      if |b| < maxlen {
        RingFill(maxlen, b, ix, c, h, step);
      } else {
        RingOverwrite(maxlen, b, ix, c, h, step);
      }
    }

    function Size(): (n: nat)
      reads this
      ensures n == |buffer|
    {
      |buffer|
    }

    /** Lookup by id: succeeds on the live ids and fails on evicted ones. */
    method Get(idx: nat) returns (r: Result<Step>)
      requires Valid()
      ensures r == Find(buffer, idx)
    {
      LookupBySlot(index, buffer, idx);
      if idx !in index {
        return Err(NotFound);
      }
      r := Ok(buffer[index[idx]]);
    }

    /** Indexes slots, not ages: slot 0 is not the oldest step once the ring
        has wrapped. */
    method GetByIndex(i: int) returns (r: Result<Step>)
      requires Valid()
      ensures r == PyIndex(buffer, i)
    {
      if 0 <= i < |buffer| {
        r := Ok(buffer[i]);
      } else if -|buffer| <= i < 0 {
        r := Ok(buffer[|buffer| + i]);
      } else {
        r := Err(IndexError);
      }
    }

    method Clear()
      requires Valid()
      modifies this
      ensures Valid() && buffer == [] && index == map[] && cursor == 0 && history == []
    {
      buffer := [];
      index := map[];
      cursor := 0;
      history := [];
    }

    /** Appends the steps of `source` in index order. */
    method CopyFrom(source: seq<Step>)
      requires Valid() && DistinctIds(source)
      requires forall j :: 0 <= j < |source| ==> source[j].idx !in index
      modifies this
      ensures Valid() && history == old(history) + source
    {
      for i := 0 to |source|
        invariant Valid() && history == old(history) + source[..i]
        invariant index.Keys <= old(index.Keys) + Ids(source[..i])
      {
        FreshInPrefix(source, i);
        Append(source[i]);
        PrefixStep(old(history), source, i);
      }
      PrefixWhole(old(history), source);
    }
  }

  lemma MulAtLeast(m: nat, a: int)
    requires a >= 1
    ensures m * a >= m
  {
    if a > 1 {
      MulAtLeast(m, a - 1);
      assert m * a == m * (a - 1) + m;
    }
  }

  /** A remainder is determined by any quotient-remainder decomposition. */
  lemma ModOfSum(q: int, m: nat, s: nat)
    requires m >= 1 && s < m && m * q + s >= 0
    ensures (m * q + s) % m == s
  {
    var x := m * q + s;
    var t, r := x / m, x % m;
    assert x == m * t + r;
    assert m * (q - t) == r - s;
    if q - t >= 1 {
      MulAtLeast(m, q - t);
    } else if t - q >= 1 {
      MulAtLeast(m, t - q);
    }
  }

  /** (n + 1) mod m is n mod m plus one, wrapping to 0 at m. */
  lemma ModSucc(n: nat, m: nat)
    requires m >= 1
    ensures (n + 1) % m == if n % m + 1 == m then 0 else n % m + 1
  {
    var q, r := n / m, n % m;
    assert n == m * q + r;
    if r + 1 == m {
      assert n + 1 == m * (q + 1) + 0;
      ModOfSum(q + 1, m, 0);
    } else {
      assert n + 1 == m * q + (r + 1);
      ModOfSum(q, m, r + 1);
    }
  }

  /** Overwriting the oldest slot of a full ring and moving the cursor on
      drops the oldest live step and adds the new one as the newest. */
  lemma RotateAfterOverwrite(b: seq<Step>, c: nat, step: Step)
    requires c < |b|
    ensures var b' := b[c := step];
      var c' := if c + 1 == |b| then 0 else c + 1;
      b'[c'..] + b'[..c'] == (b[c..] + b[..c])[1..] + [step]
  {
    var b' := b[c := step];
    if c + 1 == |b| {
      assert b'[..c] == b[..c];
      assert b' == b[..c] + [step];
      assert (b[c..] + b[..c])[1..] == b[..c];
    } else {
      assert b'[c + 1..] == b[c + 1..];
      assert b'[..c + 1] == b[..c] + [step];
      assert (b[c..] + b[..c])[1..] == b[c + 1..] + b[..c];
    }
  }

  /** The ring of lines 78-124 holds the last `maxlen` appended steps,
      oldest at the cursor, and the cursor counts appends modulo `maxlen`;
      `index` maps each live id to its slot. */
  ghost predicate RingValid(maxlen: nat, buffer: seq<Step>, index: map<nat, nat>, cursor: nat, history: seq<Step>)
  {
    maxlen >= 1
    && |buffer| == Min(|history|, maxlen)
    && cursor == |history| % maxlen
    && cursor <= |buffer|
    && buffer[cursor..] + buffer[..cursor] == history[|history| - |buffer|..]
    && DistinctIds(buffer)
    && IndexesSlots(index, buffer)
  }

  /** Appending to a ring that is not yet full fills the slot at the cursor,
      which is the next free one. */
  lemma RingFill(maxlen: nat, b: seq<Step>, index: map<nat, nat>, c: nat, h: seq<Step>, step: Step)
    requires RingValid(maxlen, b, index, c, h) && |b| < maxlen && step.idx !in index
    ensures RingValid(maxlen, b + [step], index[step.idx := c], if c + 1 == maxlen then 0 else c + 1, h + [step])
  {
    ModSucc(|h|, maxlen);
    ModOfSum(0, maxlen, |h|);
    assert |h| == |b| && c == |b|;
    IndexesSlotsAppend(index, b, step);
    IdsAppend(b, step);
    DistinctIdsAppend(b, step);
    var b' := b + [step];
    var h' := h + [step];
    assert h[|h| - |b|..] == h;
    assert b[c..] + b[..c] == b;
    assert h'[|h'| - |b'|..] == b';
    if c + 1 == maxlen {
      assert b'[0..] + b'[..0] == b';
    } else {
      assert b'[c + 1..] + b'[..c + 1] == b';
    }
  }

  /** Appending to a full ring overwrites the oldest step, at the cursor, and
      drops its id from the index. */
  lemma RingOverwrite(maxlen: nat, b: seq<Step>, index: map<nat, nat>, c: nat, h: seq<Step>, step: Step)
    requires RingValid(maxlen, b, index, c, h) && |b| == maxlen && step.idx !in index
    ensures RingValid(maxlen, b[c := step], (index - {b[c].idx})[step.idx := c],
                      if c + 1 == maxlen then 0 else c + 1, h + [step])
  {
    ModSucc(|h|, maxlen);
    IndexesSlotsOverwrite(index, b, c, step);
    RotateAfterOverwrite(b, c, step);
    var h' := h + [step];
    assert h'[|h'| - maxlen..] == h[|h| - maxlen..][1..] + [step];
  }

  /** Overwriting slot c with a step of a new id keeps the ids distinct and
      the index exact once the evicted id is dropped. */
  lemma IndexesSlotsOverwrite(index: map<nat, nat>, b: seq<Step>, c: nat, step: Step)
    requires DistinctIds(b) && IndexesSlots(index, b) && c < |b| && step.idx !in index
    ensures DistinctIds(b[c := step]) && IndexesSlots((index - {b[c].idx})[step.idx := c], b[c := step])
  {
    var b' := b[c := step];
    SlotOf(index, b, c);
    forall i, j | 0 <= i < j < |b'| ensures b'[i].idx != b'[j].idx {
      if i != c && j != c {
        assert b'[i] == b[i] && b'[j] == b[j];
      }
    }
    var index' := (index - {b[c].idx})[step.idx := c];
    forall p | 0 <= p < |b'| ensures b'[p].idx in index' {
      if p != c {
        assert b'[p] == b[p];
        assert b[p].idx != b[c].idx;
      }
    }
    forall id | id in index' ensures index'[id] < |b'| && b'[index'[id]].idx == id {
      if id != step.idx {
        assert id in index && id != b[c].idx;
        assert index[id] != c;
      }
    }
  }

  /** The steps the ring holds are exactly the last `Min(k, maxlen)` of the
      k steps appended since the last `Clear`. */
  lemma RingLiveIds(maxlen: nat, b: seq<Step>, index: map<nat, nat>, c: nat, h: seq<Step>)
    requires RingValid(maxlen, b, index, c, h)
    ensures Ids(b) == Ids(h[|h| - |b|..]) == index.Keys
  {
    IdsRotation(b, c);
    forall id | id in Ids(b) ensures id in index {
    }
  }

  /** After k appends, the step appended k-th counting from 0 sits in slot
      k mod maxlen for as long as it is live. */
  lemma RingSlot(maxlen: nat, b: seq<Step>, index: map<nat, nat>, c: nat, h: seq<Step>, k: nat)
    requires RingValid(maxlen, b, index, c, h) && |h| - |b| <= k < |h|
    ensures b[k % maxlen] == h[k]
  {
    if |h| < maxlen {
      RingSlotFilling(maxlen, b, index, c, h, k);
    } else {
      RingSlotWrapped(maxlen, b, index, c, h, k);
    }
  }

  lemma RingSlotFilling(maxlen: nat, b: seq<Step>, index: map<nat, nat>, c: nat, h: seq<Step>, k: nat)
    requires RingValid(maxlen, b, index, c, h) && |h| < maxlen && k < |h|
    ensures b[k % maxlen] == h[k]
  {
    ModOfSum(0, maxlen, k);
    ModOfSum(0, maxlen, |h|);
    assert |b| == |h| && c == |b|;
    assert b[c..] + b[..c] == b;
  }

  lemma RingSlotWrapped(maxlen: nat, b: seq<Step>, index: map<nat, nat>, c: nat, h: seq<Step>, k: nat)
    requires RingValid(maxlen, b, index, c, h) && |h| >= maxlen && |h| - |b| <= k < |h|
    ensures b[k % maxlen] == h[k]
  {
    var j := k - (|h| - |b|);
    var live := b[c..] + b[..c];
    assert live[j] == h[k];
    WrappedSlot(maxlen, |h|, c, k);
    if j < maxlen - c {
      assert live[j] == b[c + j];
    } else {
      assert live[j] == b[j - (maxlen - c)];
    }
  }

  /** Where the k-th of n appends sits in a full ring of m slots whose
      cursor is c: j = k - (n - m) places after the cursor, wrapping. */
  lemma WrappedSlot(m: nat, n: nat, c: nat, k: nat)
    requires m >= 1 && n >= m && c == n % m && n - m <= k < n
    ensures var j := k - (n - m); k % m == if j < m - c then c + j else j - (m - c)
  {
    var q := n / m;
    var j := k - (n - m);
    assert n == m * q + c;
    if j < m - c {
      assert k == m * (q - 1) + (c + j);
      ModOfSum(q - 1, m, c + j);
    } else {
      assert k == m * q + (j - (m - c));
      ModOfSum(q, m, j - (m - c));
    }
  }

  /** Appending a step with a new id to a window, the index gains the new
      slot, and the step is linked both ways to the last one if any. */
  lemma WindowAppend(b: seq<Step>, index: map<nat, nat>, prevIndex: map<nat, nat>, nextIndex: map<nat, nat>, step: Step)
    requires DistinctIds(b) && IndexesSlots(index, b) && step.idx !in index
    requires LinksNext(nextIndex, index, b) && LinksPrev(prevIndex, index, b)
    ensures var b' := b + [step];
      var index' := index[step.idx := |b|];
      DistinctIds(b') && IndexesSlots(index', b')
      && LinksNext(if |b| == 0 then nextIndex else nextIndex[b[|b| - 1].idx := |b|], index', b')
      && LinksPrev(if |b| == 0 then prevIndex else prevIndex[step.idx := |b| - 1], index', b')
  {
    DistinctIdsAppend(b, step);
    IndexesSlotsAppend(index, b, step);
    NextLinksAppend(b, index, nextIndex, step);
    PrevLinksAppend(b, index, prevIndex, step);
  }

  lemma NextLinksAppend(b: seq<Step>, index: map<nat, nat>, nextIndex: map<nat, nat>, step: Step)
    requires DistinctIds(b) && IndexesSlots(index, b) && step.idx !in index
    requires LinksNext(nextIndex, index, b)
    ensures LinksNext(if |b| == 0 then nextIndex else nextIndex[b[|b| - 1].idx := |b|], index[step.idx := |b|], b + [step])
  {
    if |b| > 0 {
      SlotOf(index, b, |b| - 1);
    }
  }

  lemma PrevLinksAppend(b: seq<Step>, index: map<nat, nat>, prevIndex: map<nat, nat>, step: Step)
    requires IndexesSlots(index, b) && step.idx !in index
    requires LinksPrev(prevIndex, index, b)
    ensures LinksPrev(if |b| == 0 then prevIndex else prevIndex[step.idx := |b| - 1], index[step.idx := |b|], b + [step])
  {
  }

  lemma IndexesSlotsAppend(index: map<nat, nat>, b: seq<Step>, step: Step)
    requires DistinctIds(b) && IndexesSlots(index, b) && step.idx !in index
    ensures IndexesSlots(index[step.idx := |b|], b + [step])
  {
    var b' := b + [step];
    forall p | 0 <= p < |b'| ensures b'[p].idx in index[step.idx := |b|] {
      if p < |b| { assert b'[p] == b[p]; }
    }
  }

  /** The episode window of lines 127-208: positions in append order, with
      the position of each step's neighbours kept by id. */
  class EpisodicStepBuffer {
    var buffer: seq<Step>
    var index: map<nat, nat>
    var prevIndex: map<nat, nat>
    var nextIndex: map<nat, nat>
    var prevStep: Option<Step>
    var cursor: nat

    ghost predicate Valid()
      reads this
    {
      DistinctIds(buffer) && IndexesSlots(index, buffer)
      && cursor == |buffer|
      && prevStep == (if |buffer| == 0 then None else Some(buffer[|buffer| - 1]))
      && LinksNext(nextIndex, index, buffer)
      && LinksPrev(prevIndex, index, buffer)
    }

    constructor()
      ensures Valid() && buffer == []
    {
      buffer := [];
      index := map[];
      prevIndex := map[];
      nextIndex := map[];
      prevStep := None;
      cursor := 0;
    }

    /** Appends at the cursor and links the new step both ways to the one
        before it; the first step of a window gets no predecessor. A `Step`
        is always truthy, so the source's test of `_prev_step` is a test for
        None. */
    method Append(step: Step)
      requires Valid() && step.idx !in index
      modifies this
      ensures Valid() && buffer == old(buffer) + [step]
      ensures old(prevStep).None? ==> step.idx !in prevIndex
      ensures old(prevStep).Some? ==> old(prevStep).value.idx in nextIndex
                                      && buffer[nextIndex[old(prevStep).value.idx]] == step
      ensures old(prevStep).Some? ==> step.idx in prevIndex && buffer[prevIndex[step.idx]] == old(prevStep).value
    {
      ghost var b, ix, pix, nix := buffer, index, prevIndex, nextIndex;
      if |b| > 0 {
        SlotOf(index, buffer, |b| - 1);
      }
      buffer := buffer + [step];
      index := index[step.idx := cursor];
      if prevStep.Some? {
        prevIndex := prevIndex[step.idx := index[prevStep.value.idx]];
        nextIndex := nextIndex[prevStep.value.idx := cursor];
      }
      cursor := cursor + 1;
      prevStep := Some(step);
      WindowAppend(b, ix, pix, nix, step);
    }

    /** Lookup by id. */
    method Get(idx: nat) returns (r: Result<Step>)
      requires Valid()
      ensures r == Find(buffer, idx)
    {
      LookupBySlot(index, buffer, idx);
      if idx !in index {
        return Err(NotFound);
      }
      r := Ok(buffer[index[idx]]);
    }

    method GetByIndex(i: int) returns (r: Result<Step>)
      requires Valid()
      ensures r == PyIndex(buffer, i)
    {
      if 0 <= i < |buffer| {
        r := Ok(buffer[i]);
      } else if -|buffer| <= i < 0 {
        r := Ok(buffer[|buffer| + i]);
      } else {
        r := Err(IndexError);
      }
    }

    /** The loop of `get_next`: follows k next-links from `idx` and gives
        the id reached, or None as soon as a link is missing. */
    method FollowNext(idx: nat, k: nat) returns (landed: Option<nat>)
      requires Valid()
      ensures idx !in index ==> landed == if k == 0 then Some(idx) else None
      ensures idx in index ==> landed == if index[idx] + k < |buffer| then Some(buffer[index[idx] + k].idx) else None
    {
      ghost var p: nat := if idx in index then index[idx] else 0;
      if idx in index {
        SlotOf(index, buffer, p);
      }
      var nextId := idx;
      var i := 0;
      while i < k
        invariant 0 <= i <= k
        invariant nextId == idx || idx in index
        invariant idx in index ==> p + i < |buffer| && nextId == buffer[p + i].idx
        invariant idx !in index ==> i == 0
      {
        if idx in index {
          NextHop(buffer, index, nextIndex, p, i);
        }
        if nextId !in nextIndex {
          return None;
        }
        nextId := buffer[nextIndex[nextId]].idx;
        i := i + 1;
      }
      landed := Some(nextId);
    }

    /** Follows k next-links from `idx`: the step k positions later, None
        when the window ends first, and a failed lookup only for k == 0. */
    method GetNext(idx: nat, k: nat) returns (r: Result<Option<Step>>)
      requires Valid()
      ensures r == Steps.GetNext(buffer, idx, k)
    {
      var landed := FollowNext(idx, k);
      NextLanding(buffer, index, idx, k, landed);
      if landed.None? {
        return Ok(None);
      }
      var s := Get(landed.value);
      r := match s case Err(e) => Err(e) case Ok(st) => Ok(Some(st));
    }

    /** The loop of `get_prev`: follows k prev-links from `idx` and gives
        the id reached, or None as soon as a link is missing. */
    method FollowPrev(idx: nat, k: nat) returns (landed: Option<nat>)
      requires Valid()
      ensures idx !in index ==> landed == if k == 0 then Some(idx) else None
      ensures idx in index ==> landed == if k <= index[idx] then Some(buffer[index[idx] - k].idx) else None
    {
      ghost var p: nat := if idx in index then index[idx] else 0;
      if idx in index {
        SlotOf(index, buffer, p);
      }
      var prevId := idx;
      var i := 0;
      while i < k
        invariant 0 <= i <= k
        invariant prevId == idx || idx in index
        invariant idx in index ==> i <= p < |buffer| && prevId == buffer[p - i].idx
        invariant idx !in index ==> i == 0
      {
        if idx in index {
          PrevHop(buffer, index, prevIndex, p, i);
        }
        if prevId !in prevIndex {
          return None;
        }
        prevId := buffer[prevIndex[prevId]].idx;
        i := i + 1;
      }
      landed := Some(prevId);
    }

    /** Follows k prev-links from `idx`: the step k positions earlier, None
        when the window starts later, and a failed lookup only for k == 0. */
    method GetPrev(idx: nat, k: nat) returns (r: Result<Option<Step>>)
      requires Valid()
      ensures r == Steps.GetPrev(buffer, idx, k)
    {
      var landed := FollowPrev(idx, k);
      PrevLanding(buffer, index, idx, k, landed);
      if landed.None? {
        return Ok(None);
      }
      var s := Get(landed.value);
      r := match s case Err(e) => Err(e) case Ok(st) => Ok(Some(st));
    }

    /** The discounted sum of the rewards of the d steps from `idx`,
        truncated at the window's end; the hop to the next step goes through
        that step's id, as in `GetNext`. */
    method ComputeReturn(idx: nat, d: nat, gamma: real) returns (r: Result<real>)
      requires Valid()
      ensures r == Steps.ComputeReturn(buffer, idx, d, gamma)
    {
      ghost var p: nat := if idx in index then index[idx] else 0;
      if idx in index {
        SlotOf(index, buffer, p);
      }
      var nextId := idx;
      var ret := 0.0;
      for i := 0 to d
        invariant nextId == idx || idx in index
        invariant idx in index ==> p + i < |buffer| && nextId == buffer[p + i].idx
        invariant idx in index ==> ret == WindowReturn(buffer, p, i, gamma)
        invariant idx !in index ==> i == 0 && ret == 0.0
      {
        if nextId !in index {
          HopsFromMissing(buffer, idx, d, gamma);
          return Err(NotFound);
        }
        SlotOf(index, buffer, p + i);
        NextHop(buffer, index, nextIndex, p, i);
        var reward := buffer[index[nextId]].reward;
        ret := ret + Term(gamma, i, reward);
        if nextId in nextIndex {
          nextId := buffer[nextIndex[nextId]].idx;
        } else {
          ReturnReached(buffer, index, idx, p, i + 1, d, gamma, ret);
          return Ok(ret);
        }
      }
      if idx in index {
        ReturnReached(buffer, index, idx, p, d, d, gamma, ret);
      }
      return Ok(ret);
    }

    function Size(): (n: nat)
      reads this
      ensures n == |buffer|
    {
      |buffer|
    }

    /** Empties the window: the next append starts a new chain. */
    method Clear()
      modifies this
      ensures Valid() && buffer == [] && index == map[] && prevIndex == map[] && nextIndex == map[]
      ensures prevStep == None && cursor == 0
    {
      buffer := [];
      index := map[];
      prevIndex := map[];
      nextIndex := map[];
      prevStep := None;
      cursor := 0;
    }
  }

  /** The loop of `compute_return` has reached the return once it has
      summed the window of Min(d, remaining) rewards from the start. */
  lemma ReturnReached(buffer: seq<Step>, index: map<nat, nat>, idx: nat, p: nat, n: nat, d: nat, gamma: real, ret: real)
    requires DistinctIds(buffer) && IndexesSlots(index, buffer) && idx in index && index[idx] == p
    requires p + n <= |buffer| && n == Min(d, |buffer| - p) && ret == WindowReturn(buffer, p, n, gamma)
    ensures Steps.ComputeReturn(buffer, idx, d, gamma) == Ok(ret)
  {
    ComputeReturnAt(buffer, p, d, gamma);
  }

  /** `compute_return` as lines 178-188 are written, over the maps of a
      window: after each reward the loop moves to `_next_index[next_idx]`,
      which is the next step's position, and then looks that number up as
      an id. */
  function ReturnAsWritten(buffer: seq<Step>, index: map<nat, nat>, nextIndex: map<nat, nat>,
                           cur: nat, i: nat, d: nat, gamma: real, acc: real): Result<real>
    requires IndexesSlots(index, buffer)
    decreases d - i
  {
    if i >= d then Ok(acc)
    else if cur !in index then Err(NotFound)
    else
      var acc' := acc + Term(gamma, i, buffer[index[cur]].reward);
      if cur in nextIndex then ReturnAsWritten(buffer, index, nextIndex, nextIndex[cur], i + 1, d, gamma, acc')
      else Ok(acc')
  }

  /** Every step's id is its position in the window. */
  predicate IdsArePositions(buffer: seq<Step>)
  {
    forall p :: 0 <= p < |buffer| ==> buffer[p].idx == p
  }

  /** While ids equal positions, the loop as written has summed the first i
      rewards of the window and goes on to sum the rest. */
  lemma {:induction false} ReturnAsWrittenFrom(buffer: seq<Step>, index: map<nat, nat>, nextIndex: map<nat, nat>,
                                               q: nat, i: nat, d: nat, gamma: real)
    requires DistinctIds(buffer) && IndexesSlots(index, buffer) && LinksNext(nextIndex, index, buffer)
    requires IdsArePositions(buffer)
    requires q + i < |buffer| && i <= d
    ensures ReturnAsWritten(buffer, index, nextIndex, q + i, i, d, gamma, WindowReturn(buffer, q, i, gamma))
         == Ok(WindowReturn(buffer, q, Min(d, |buffer| - q), gamma))
    decreases d - i
  {
    if i < d {
      SlotOf(index, buffer, q + i);
      NextHop(buffer, index, nextIndex, q, i);
      assert buffer[q + i].idx == q + i;
      var acc := WindowReturn(buffer, q, i, gamma);
      var acc' := WindowReturn(buffer, q, i + 1, gamma);
      assert acc' == acc + Term(gamma, i, buffer[q + i].reward);
      if q + i + 1 < |buffer| {
        ReturnAsWrittenFrom(buffer, index, nextIndex, q, i + 1, d, gamma);
      } else {
        assert Min(d, |buffer| - q) == i + 1;
      }
    } else {
      assert Min(d, |buffer| - q) == i;
    }
  }

  /** As written, `compute_return` is the discounted return of the window
      when every step's id is its position. */
  lemma ReturnAsWrittenWhenIdsArePositions(buffer: seq<Step>, index: map<nat, nat>, nextIndex: map<nat, nat>,
                                           idx: nat, d: nat, gamma: real)
    requires DistinctIds(buffer) && IndexesSlots(index, buffer) && LinksNext(nextIndex, index, buffer)
    requires IdsArePositions(buffer)
    ensures ReturnAsWritten(buffer, index, nextIndex, idx, 0, d, gamma, 0.0) == Steps.ComputeReturn(buffer, idx, d, gamma)
  {
    if d > 0 && idx in index {
      var p := index[idx];
      assert buffer[p].idx == p;
      ReturnAsWrittenFrom(buffer, index, nextIndex, p, 0, d, gamma);
      ReturnReached(buffer, index, idx, p, Min(d, |buffer| - p), d, gamma,
                    WindowReturn(buffer, p, Min(d, |buffer| - p), gamma));
    } else if d > 0 {
      LookupBySlot(index, buffer, idx);
    }
  }

  /** As written, `compute_return` fails on a two-step window whose ids are
      not 0 and 1: the hop lands on position 1, which is no id. */
  lemma ReturnAsWrittenFailsOnSecondStep(s0: Step, s1: Step, gamma: real)
    requires s0.idx != s1.idx && s0.idx != 1 && s1.idx != 1
    ensures IndexesSlots(map[s0.idx := 0, s1.idx := 1], [s0, s1])
    ensures LinksNext(map[s0.idx := 1], map[s0.idx := 0, s1.idx := 1], [s0, s1])
    ensures Steps.ComputeReturn([s0, s1], s0.idx, 2, gamma).Ok?
    ensures ReturnAsWritten([s0, s1], map[s0.idx := 0, s1.idx := 1], map[s0.idx := 1], s0.idx, 0, 2, gamma, 0.0)
         == Err(NotFound)
  {
    IndexOfDistinct([s0, s1], 0);
  }
}
