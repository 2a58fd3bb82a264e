/** The item algebra of kiox/item.py: an item is a Python scalar, a numpy
    array, or a list/tuple of arrays. Arrays are a shape plus row-major flat
    data; numpy's guarantee that the data fills the shape is the subset type
    `Array`. */
module Items {
  import opened Common

  function Product(shape: seq<nat>): nat
  {
    if |shape| == 0 then 1 else shape[0] * Product(shape[1..])
  }

  datatype NdArray = NdArray(shape: seq<nat>, data: seq<real>)

  type Array = a: NdArray | |a.data| == Product(a.shape) witness NdArray([], [0.0])

  /** An observation, action or reward. `Unrecognised` is any other Python
      value, on which the item functions raise ValueError. */
  datatype Item =
    | IntScalar(i: int)
    | FloatScalar(x: real)
    | Tensor(arr: Array)
    | Tuple(parts: seq<Array>)
    | Unrecognised

  /** What `stack_items` returns: one array, or one array per tuple position. */
  datatype StackedItem = Stacked(arr: Array) | StackedTuple(parts: seq<Array>)

  predicate IsScalar(x: Item) { x.IntScalar? || x.FloatScalar? }

  function ScalarValue(x: Item): real
    requires IsScalar(x)
  {
    if x.IntScalar? then x.i as real else x.x
  }

  /** Concatenation of the arrays' data, in order. */
  function Flatten(arrays: seq<Array>): seq<real>
  {
    if |arrays| == 0 then [] else arrays[0].data + Flatten(arrays[1..])
  }

  lemma MulSucc(j: nat, p: nat)
    ensures j * p + p == (j + 1) * p
  {
  }

  lemma MulMono(a: nat, b: nat, p: nat)
    requires a <= b
    ensures a * p <= b * p
  {
  }

  lemma SliceOfConcat(a: seq<real>, f: seq<real>, lo: nat, hi: nat)
    requires |a| <= lo <= hi <= |a| + |f|
    ensures (a + f)[lo .. hi] == f[lo - |a| .. hi - |a|]
  {
  }

  /** Flattening n arrays of one shape s gives n * Product(s) values. */
  lemma {:induction false} FlattenLength(arrays: seq<Array>, s: seq<nat>)
    requires forall j :: 0 <= j < |arrays| ==> arrays[j].shape == s
    ensures |Flatten(arrays)| == |arrays| * Product(s)
  {
    if |arrays| > 0 {
      FlattenLength(arrays[1..], s);
      MulSucc(|arrays| - 1, Product(s));
    }
  }

  /** ... and the j-th block of Product(s) values is array j. */
  lemma {:induction false} FlattenBlock(arrays: seq<Array>, s: seq<nat>, j: nat)
    requires forall k :: 0 <= k < |arrays| ==> arrays[k].shape == s
    requires j < |arrays|
    ensures j * Product(s) + Product(s) <= |Flatten(arrays)|
    ensures Flatten(arrays)[j * Product(s) .. j * Product(s) + Product(s)] == arrays[j].data
  {
    var p := Product(s);
    FlattenLength(arrays, s);
    MulMono(j + 1, |arrays|, p);
    MulSucc(j, p);
    if j > 0 {
      var rest := arrays[1..];
      FlattenBlock(rest, s, j - 1);
      MulSucc(j - 1, p);
      assert rest[j - 1] == arrays[j];
      SliceOfConcat(arrays[0].data, Flatten(rest), j * p, j * p + p);
    }
  }

  /** np.stack of arrays that all have shape s: shape (n, *s), data in order. */
  function StackArrayList(arrays: seq<Array>, s: seq<nat>): (r: Array)
    requires forall j :: 0 <= j < |arrays| ==> arrays[j].shape == s
    ensures r.shape == [|arrays|] + s
    ensures r.data == Flatten(arrays)
  {
    FlattenLength(arrays, s);
    assert ([|arrays|] + s)[1..] == s;
    NdArray([|arrays|] + s, Flatten(arrays))
  }

  /** Row `j` of an array with at least one dimension: the block of data
      under leading index j. */
  function Row(a: Array, j: nat): (r: Array)
    requires |a.shape| >= 1 && j < a.shape[0]
    ensures r.shape == a.shape[1..]
  {
    var p := Product(a.shape[1..]);
    MulMono(j + 1, a.shape[0], p);
    MulSucc(j, p);
    NdArray(a.shape[1..], a.data[j * p .. j * p + p])
  }

  /** `array[index]` for the leading axis. */
  function Index(a: Array, index: int): Result<Array>
  {
    if |a.shape| == 0 then Err(IndexError)
    else match NormaliseIndex(index, a.shape[0])
      case None => Err(IndexError)
      case Some(j) => Ok(Row(a, j))
  }

  // ---------------------------------------------------------------- stack_items

  predicate AllScalars(items: seq<Item>)
  {
    forall j :: 0 <= j < |items| ==> IsScalar(items[j])
  }

  predicate AllArraysOfShape(items: seq<Item>, s: seq<nat>)
  {
    forall j :: 0 <= j < |items| ==> items[j].Tensor? && items[j].arr.shape == s
  }

  /** Every item is a tuple that has at least the parts of `first`, each with
      the shape of the corresponding part of `first`. */
  predicate AllTuplesLike(items: seq<Item>, first: seq<Array>)
  {
    forall j :: 0 <= j < |items| ==>
      items[j].Tuple? && |items[j].parts| >= |first| &&
      forall i :: 0 <= i < |first| ==> items[j].parts[i].shape == first[i].shape
  }

  function ArraysOf(items: seq<Item>): (r: seq<Array>)
    requires forall j :: 0 <= j < |items| ==> items[j].Tensor?
    ensures |r| == |items| && forall j :: 0 <= j < |items| ==> r[j] == items[j].arr
  {
    seq(|items|, j requires 0 <= j < |items| => items[j].arr)
  }

  /** Tuple position i of every item: `[items[j][i] for j in range(len(items))]`. */
  function Column(items: seq<Item>, i: nat): (r: seq<Array>)
    requires forall j :: 0 <= j < |items| ==> items[j].Tuple? && i < |items[j].parts|
    ensures |r| == |items| && forall j :: 0 <= j < |items| ==> r[j] == items[j].parts[i]
  {
    seq(|items|, j requires 0 <= j < |items| => items[j].parts[i])
  }

  function ScalarColumn(items: seq<Item>): (r: seq<real>)
    requires AllScalars(items)
    ensures |r| == |items| && forall j :: 0 <= j < |items| ==> r[j] == ScalarValue(items[j])
  {
    seq(|items|, j requires 0 <= j < |items| => ScalarValue(items[j]))
  }

  function StackTupleColumns(items: seq<Item>, first: seq<Array>): (r: seq<Array>)
    requires AllTuplesLike(items, first)
    ensures |r| == |first|
    ensures forall i :: 0 <= i < |first| ==> r[i] == StackArrayList(Column(items, i), first[i].shape)
  {
    seq(|first|, i requires 0 <= i < |first| => StackArrayList(Column(items, i), first[i].shape))
  }

  /** Tuple `x` has a part at position `k` shaped like `first[k]`. */
  predicate HasPartLike(x: Item, first: seq<Array>, k: nat)
    requires x.Tuple?
  {
    k < |first| && k < |x.parts| && x.parts[k].shape == first[k].shape
  }

  /** The first tuple position, from `i` on, whose column
      `[items[j][i] for j in range(len(items))]` cannot be built into one
      array: IndexError when some tuple has no part `i`, ValueError when the
      parts there differ in shape from the first tuple's (numpy refuses a
      ragged array). Columns are built in tuple order, so the first bad
      position decides the exception. */
  function TupleFault(items: seq<Item>, first: seq<Array>, i: nat): (r: Option<Error>)
    requires forall j :: 0 <= j < |items| ==> items[j].Tuple?
    requires i <= |first|
    ensures r.None? <==> forall j, k :: 0 <= j < |items| && i <= k < |first| ==> HasPartLike(items[j], first, k)
    ensures r.Some? ==> r.value == IndexError || r.value == ValueError
    decreases |first| - i
  {
    if i == |first| then None
    else if exists j :: 0 <= j < |items| && |items[j].parts| <= i then
      var j :| 0 <= j < |items| && |items[j].parts| <= i;
      assert !HasPartLike(items[j], first, i);
      Some(IndexError)
    else if exists j :: 0 <= j < |items| && items[j].parts[i].shape != first[i].shape then
      var j :| 0 <= j < |items| && items[j].parts[i].shape != first[i].shape;
      assert !HasPartLike(items[j], first, i);
      Some(ValueError)
    else
      assert forall j :: 0 <= j < |items| ==> HasPartLike(items[j], first, i);
      TupleFault(items, first, i + 1)
  }

  /** The tuple branch of stack_items (item.py:53-58), for a first tuple
      with at least one part. A later item that is not a tuple is ValueError. */
  function StackTuples(items: seq<Item>, first: seq<Array>): (r: Result<StackedItem>)
    requires |first| >= 1
    ensures r.Ok? <==> AllTuplesLike(items, first)
    ensures r.Ok? ==> r.value.StackedTuple? && |r.value.parts| == |first|
  {
    if exists j :: 0 <= j < |items| && !items[j].Tuple? then Err(ValueError)
    else
      TupleFaultNone(items, first);
      match TupleFault(items, first, 0)
      case Some(e) => Err(e)
      case None => Ok(StackedTuple(StackTupleColumns(items, first)))
  }

  lemma TupleFaultNone(items: seq<Item>, first: seq<Array>)
    requires forall j :: 0 <= j < |items| ==> items[j].Tuple?
    requires |first| >= 1
    ensures TupleFault(items, first, 0).None? <==> AllTuplesLike(items, first)
  {
    var every := forall j, k :: 0 <= j < |items| && 0 <= k < |first| ==> HasPartLike(items[j], first, k);
    assert TupleFault(items, first, 0).None? <==> every;
    if every {
      forall j | 0 <= j < |items|
        ensures |items[j].parts| >= |first|
        ensures forall i :: 0 <= i < |first| ==> items[j].parts[i].shape == first[i].shape
      {
        assert HasPartLike(items[j], first, |first| - 1);
        forall i | 0 <= i < |first|
          ensures items[j].parts[i].shape == first[i].shape
        {
          assert HasPartLike(items[j], first, i);
        }
      }
    }
    if AllTuplesLike(items, first) {
      forall j, k | 0 <= j < |items| && 0 <= k < |first|
        ensures HasPartLike(items[j], first, k)
      {
      }
    }
  }

  /** stack_items: dispatches on the kind of the first item (item.py:48-60).
      Arrays of unequal shapes are ValueError, as is a later item of another
      kind than the first; an empty first tuple is IndexError, and a tuple
      column fails as `TupleFault` says. */
  function StackItems(items: seq<Item>): (r: Result<StackedItem>)
    ensures |items| == 0 ==> r == Err(IndexError)
    ensures |items| > 0 && items[0].Unrecognised? ==> r == Err(ValueError)
    ensures r.Ok? && IsScalar(items[0]) ==> r.value.Stacked?
    ensures |items| > 0 && items[0].Tensor? ==> (r.Ok? <==> AllArraysOfShape(items, items[0].arr.shape))
    ensures r.Ok? && items[0].Tensor? ==> r.value.Stacked?
    ensures |items| > 0 && items[0].Tuple? ==>
      (r.Ok? <==> |items[0].parts| >= 1 && AllTuplesLike(items, items[0].parts))
    ensures |items| > 0 && items[0].Tuple? && |items[0].parts| == 0 ==> r == Err(IndexError)
    ensures r.Ok? && items[0].Tuple? ==> r.value.StackedTuple? && |r.value.parts| == |items[0].parts|
  {
    if |items| == 0 then Err(IndexError)
    else match items[0]
      case IntScalar(_) => StackScalars(items)
      case FloatScalar(_) => StackScalars(items)
      case Tensor(a) =>
        if AllArraysOfShape(items, a.shape) then Ok(Stacked(StackArrayList(ArraysOf(items), a.shape)))
        else Err(ValueError)
      case Tuple(first) =>
        if |first| == 0 then Err(IndexError) else StackTuples(items, first)
      case Unrecognised => Err(ValueError)
  }

  /** A tuple that lacks a part the first tuple has makes the stacking fail
      with IndexError, when the parts that are present agree in shape. */
  lemma {:induction false} TupleFaultShort(items: seq<Item>, first: seq<Array>, i: nat)
    requires forall j :: 0 <= j < |items| ==> items[j].Tuple? && |items[j].parts| >= i
    requires forall j, k :: 0 <= j < |items| && 0 <= k < |first| && k < |items[j].parts| ==>
               items[j].parts[k].shape == first[k].shape
    requires exists j :: 0 <= j < |items| && |items[j].parts| < |first|
    ensures i <= |first| && TupleFault(items, first, i) == Some(IndexError)
    decreases |first| - i
  {
    var j :| 0 <= j < |items| && |items[j].parts| < |first|;
    assert i < |first|;
    if !exists j :: 0 <= j < |items| && |items[j].parts| <= i {
      TupleFaultShort(items, first, i + 1);
    }
  }

  /** When the first failing column `k` has its part in every tuple, the
      parts there differ in shape and the fault is ValueError. */
  lemma {:induction false} TupleFaultRagged(items: seq<Item>, first: seq<Array>, i: nat, k: nat)
    requires forall j :: 0 <= j < |items| ==> items[j].Tuple?
    requires i <= k < |first|
    requires forall j, m :: 0 <= j < |items| && i <= m < k ==> HasPartLike(items[j], first, m)
    requires forall j :: 0 <= j < |items| ==> k < |items[j].parts|
    requires exists j :: 0 <= j < |items| && items[j].parts[k].shape != first[k].shape
    ensures TupleFault(items, first, i) == Some(ValueError)
    decreases k - i
  {
    if i < k {
      assert !exists j :: 0 <= j < |items| && |items[j].parts| <= i by {
        forall j | 0 <= j < |items| ensures |items[j].parts| > i {
          assert HasPartLike(items[j], first, i);
        }
      }
      assert !exists j :: 0 <= j < |items| && items[j].parts[i].shape != first[i].shape by {
        forall j | 0 <= j < |items| ensures items[j].parts[i].shape == first[i].shape {
          assert HasPartLike(items[j], first, i);
        }
      }
      TupleFaultRagged(items, first, i + 1, k);
    }
  }

  /** Tuples that all hold position k, agree in shape before it and differ
      there fail to stack with ValueError: numpy refuses the ragged column. */
  lemma StackTuplesRaggedColumn(items: seq<Item>, k: nat)
    requires |items| >= 1 && items[0].Tuple? && k < |items[0].parts|
    requires forall j :: 0 <= j < |items| ==> items[j].Tuple? && k < |items[j].parts|
    requires forall j, m :: 0 <= j < |items| && 0 <= m < k ==> HasPartLike(items[j], items[0].parts, m)
    requires exists j :: 0 <= j < |items| && items[j].parts[k].shape != items[0].parts[k].shape
    ensures StackItems(items) == Err(ValueError)
  {
    TupleFaultRagged(items, items[0].parts, 0, k);
    assert StackItems(items) == StackTuples(items, items[0].parts);
  }

  lemma StackTuplesShortItem(items: seq<Item>)
    requires |items| >= 1 && items[0].Tuple? && |items[0].parts| >= 1
    requires forall j :: 0 <= j < |items| ==> items[j].Tuple?
    requires forall j, k :: 0 <= j < |items| && 0 <= k < |items[0].parts| && k < |items[j].parts| ==>
               items[j].parts[k].shape == items[0].parts[k].shape
    requires exists j :: 0 <= j < |items| && |items[j].parts| < |items[0].parts|
    ensures StackItems(items) == Err(IndexError)
  {
    TupleFaultShort(items, items[0].parts, 0);
    assert StackItems(items) == StackTuples(items, items[0].parts);
  }

  /** np.reshape(np.array(items), [-1, 1]) */
  function StackScalars(items: seq<Item>): (r: Result<StackedItem>)
  {
    if AllScalars(items) then
      var column := ScalarColumn(items);
      assert [|items|, 1][1..] == [1] && [1][1..] == [];
      assert Product([|items|, 1]) == |items|;
      Ok(Stacked(NdArray([|items|, 1], column)))
    else Err(ValueError)
  }

  // ----------------------------------------------------------------- zeros_like

  function ZeroArray(a: Array): (r: Array)
    ensures r.shape == a.shape
    ensures forall k :: 0 <= k < |r.data| ==> r.data[k] == 0.0
  {
    NdArray(a.shape, seq(|a.data|, _ => 0.0))
  }

  /** zeros_like (item.py:64-83). */
  function ZerosLike(item: Item): (r: Result<Item>)
  {
    match item
    case IntScalar(_) => Ok(IntScalar(0))
    case FloatScalar(_) => Ok(FloatScalar(0.0))
    case Tensor(a) => Ok(Tensor(ZeroArray(a)))
    case Tuple(parts) => Ok(Tuple(seq(|parts|, i requires 0 <= i < |parts| => ZeroArray(parts[i]))))
    case Unrecognised => Err(ValueError)
  }

  predicate IsZeroArray(a: Array) { forall k :: 0 <= k < |a.data| ==> a.data[k] == 0.0 }

  /** zeros_like keeps the kind and every shape, fills with zeros, and fails
      exactly on an unrecognised item; an int gives 0 and a float 0.0. */
  lemma ZerosLikeShape(item: Item)
    ensures ZerosLike(item).Ok? <==> !item.Unrecognised?
    ensures item.IntScalar? ==> ZerosLike(item) == Ok(IntScalar(0))
    ensures item.FloatScalar? ==> ZerosLike(item) == Ok(FloatScalar(0.0))
    ensures item.Tensor? ==> var z := ZerosLike(item).value;
      z.Tensor? && z.arr.shape == item.arr.shape && IsZeroArray(z.arr)
    ensures item.Tuple? ==> var z := ZerosLike(item).value;
      z.Tuple? && |z.parts| == |item.parts| &&
      forall i :: 0 <= i < |item.parts| ==> z.parts[i].shape == item.parts[i].shape && IsZeroArray(z.parts[i])
  {
  }

  // ------------------------------------------------------- sizeof / locate

  /** A part whose leading dimension is `size`. */
  predicate LeadsWith(a: Array, size: nat)
  {
    |a.shape| >= 1 && a.shape[0] == size
  }

  /** The loop of item.py:98-99 over parts `i..`: the first part that does
      not lead with `size` fails, with IndexError when it is 0-d (it has no
      `shape[0]`) and AssertionError otherwise. */
  function SizeFault(parts: seq<Array>, size: nat, i: nat): (r: Option<Error>)
    ensures r.None? <==> forall k :: i <= k < |parts| ==> LeadsWith(parts[k], size)
    ensures r.Some? ==> exists k :: i <= k < |parts| && (forall m :: i <= m < k ==> LeadsWith(parts[m], size))
                           && !LeadsWith(parts[k], size)
                           && r.value == (if |parts[k].shape| == 0 then IndexError else AssertionError)
    decreases |parts| - i
  {
    if i >= |parts| then None
    else if |parts[i].shape| == 0 then Some(IndexError)
    else if parts[i].shape[0] != size then Some(AssertionError)
    else
      var r := SizeFault(parts, size, i + 1);
      assert r.Some? ==> exists k :: i + 1 <= k < |parts| && (forall m :: i + 1 <= m < k ==> LeadsWith(parts[m], size))
                           && !LeadsWith(parts[k], size)
                           && r.value == (if |parts[k].shape| == 0 then IndexError else AssertionError);
      r
  }

  /** sizeof_stacked_item (item.py:86-103): the leading dimension; for a
      tuple the first part's (`len` of a 0-d part is TypeError), and every
      later part must lead with the same, as `SizeFault` says. */
  function SizeofStackedItem(s: StackedItem): (r: Result<nat>)
    ensures s.Stacked? && |s.arr.shape| >= 1 ==> r == Ok(s.arr.shape[0])
    ensures s.Stacked? && |s.arr.shape| == 0 ==> r == Err(IndexError)
    ensures s.StackedTuple? && |s.parts| == 0 ==> r == Err(IndexError)
    ensures s.StackedTuple? && |s.parts| >= 1 && |s.parts[0].shape| == 0 ==> r == Err(TypeError)
    ensures s.StackedTuple? ==>
      (r.Ok? <==> |s.parts| >= 1 && |s.parts[0].shape| >= 1
                  && forall i :: 0 <= i < |s.parts| ==> LeadsWith(s.parts[i], s.parts[0].shape[0]))
    ensures s.StackedTuple? && r.Ok? ==>
      r.value == s.parts[0].shape[0] && forall i :: 0 <= i < |s.parts| ==> LeadsWith(s.parts[i], r.value)
    ensures s.StackedTuple? && r.Err? && |s.parts| >= 1 && |s.parts[0].shape| >= 1 ==>
      exists k :: 1 <= k < |s.parts| && (forall m :: 1 <= m < k ==> LeadsWith(s.parts[m], s.parts[0].shape[0]))
        && !LeadsWith(s.parts[k], s.parts[0].shape[0])
        && r.error == (if |s.parts[k].shape| == 0 then IndexError else AssertionError)
  {
    match s
    case Stacked(a) => if |a.shape| == 0 then Err(IndexError) else Ok(a.shape[0])
    case StackedTuple(parts) =>
      if |parts| == 0 then Err(IndexError)
      else if |parts[0].shape| == 0 then Err(TypeError)
      else match SizeFault(parts, parts[0].shape[0], 1)
        case Some(e) => Err(e)
        case None => Ok(parts[0].shape[0])
  }

  function IndexAll(parts: seq<Array>, index: int): (r: Result<seq<Array>>)
    ensures r.Ok? ==> |r.value| == |parts| && forall i :: 0 <= i < |parts| ==> Index(parts[i], index) == Ok(r.value[i])
    ensures r.Err? ==> exists i :: 0 <= i < |parts| && Index(parts[i], index).Err?
  {
    if |parts| == 0 then Ok([])
    else match Index(parts[0], index)
      case Err(e) => Err(e)
      case Ok(row) =>
        match IndexAll(parts[1..], index)
        case Err(e) => assert Index(parts[1..][0], index).Err? || exists i :: 0 <= i < |parts[1..]| && Index(parts[1..][i], index).Err?; Err(e)
        case Ok(rows) => Ok([row] + rows)
  }

  /** locate_stacked_item (item.py:106-121): row `index` of the array, or the
      list of rows of each tuple part. */
  function LocateStackedItem(s: StackedItem, index: int): Result<Item>
  {
    match s
    case Stacked(a) =>
      (match Index(a, index) case Err(e) => Err(e) case Ok(row) => Ok(Tensor(row)))
    case StackedTuple(parts) =>
      (match IndexAll(parts, index) case Err(e) => Err(e) case Ok(rows) => Ok(Tuple(rows)))
  }

  // ------------------------------------------------------------ stack facts

  /** n >= 1 scalars stack to shape (n, 1), value j being item j. */
  lemma StackScalarsShape(items: seq<Item>)
    requires |items| >= 1 && AllScalars(items)
    ensures StackItems(items).Ok?
    ensures var a := StackItems(items).value.arr;
      a.shape == [|items|, 1] && forall j :: 0 <= j < |items| ==> a.data[j] == ScalarValue(items[j])
  {
  }

  /** The row of a stacked list of equally shaped arrays is the array. */
  lemma {:induction false} StackArrayListRow(arrays: seq<Array>, s: seq<nat>, j: nat)
    requires forall k :: 0 <= k < |arrays| ==> arrays[k].shape == s
    requires j < |arrays|
    ensures Row(StackArrayList(arrays, s), j) == arrays[j]
  {
    FlattenBlock(arrays, s, j);
    var st := StackArrayList(arrays, s);
    assert st.shape[1..] == s;
  }

  /** n arrays of common shape s stack to shape (n, *s) with row j equal to
      array j, their size is n, and locating j returns item j. */
  lemma StackArraysRoundTrip(items: seq<Item>, s: seq<nat>)
    requires |items| >= 1 && AllArraysOfShape(items, s)
    ensures StackItems(items).Ok?
    ensures var st := StackItems(items).value;
      st.Stacked? && st.arr.shape == [|items|] + s &&
      SizeofStackedItem(st) == Ok(|items|) &&
      forall j :: 0 <= j < |items| ==> LocateStackedItem(st, j) == Ok(items[j])
  {
    var arrays := ArraysOf(items);
    assert items[0].arr.shape == s;
    var st := StackItems(items).value;
    assert st == Stacked(StackArrayList(arrays, s));
    forall j | 0 <= j < |items|
      ensures LocateStackedItem(st, j) == Ok(items[j])
    {
      StackArrayListRow(arrays, s, j);
    }
  }

  /** Tuples whose parts match the first tuple's shapes, with no extra parts,
      stack to one (n, *s_i) array per position in tuple order; their size is
      n and locating j returns tuple j. */
  lemma StackTuplesRoundTrip(items: seq<Item>)
    requires |items| >= 1 && items[0].Tuple? && |items[0].parts| >= 1
    requires AllTuplesLike(items, items[0].parts)
    requires forall j :: 0 <= j < |items| ==> |items[j].parts| == |items[0].parts|
    ensures StackItems(items).Ok?
    ensures var st := StackItems(items).value;
      st.StackedTuple? && |st.parts| == |items[0].parts| &&
      (forall i :: 0 <= i < |st.parts| ==> st.parts[i].shape == [|items|] + items[0].parts[i].shape) &&
      SizeofStackedItem(st) == Ok(|items|) &&
      forall j :: 0 <= j < |items| ==> LocateStackedItem(st, j) == Ok(items[j])
  {
    var first := items[0].parts;
    var st := StackItems(items).value;
    assert st.parts == StackTupleColumns(items, first);
    forall j | 0 <= j < |items|
      ensures LocateStackedItem(st, j) == Ok(items[j])
    {
      forall i | 0 <= i < |first|
        ensures Index(st.parts[i], j) == Ok(items[j].parts[i])
      {
        StackArrayListRow(Column(items, i), first[i].shape, j);
      }
      var rows := IndexAll(st.parts, j);
      assert rows.Ok?;
      assert rows.value == items[j].parts;
    }
  }
}
