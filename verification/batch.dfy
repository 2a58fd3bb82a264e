/** The stacking half of `BatchFactory.sample` (kiox/batch_factory.py:48-73):
    a list of already materialised transitions becomes one `Batch`, column
    by column, every column taken from the one list in its order. */
module Batches {
  import opened Common
  import opened Items
  import opened Transitions

  /** kiox/batch_factory.py:12-19. */
  datatype Batch = Batch(observations: StackedItem, actions: StackedItem, rewards: StackedItem,
                         nextObservations: StackedItem, terminals: Array, durations: Array)

  function ObservationItems(ts: seq<Transition>): (r: seq<Item>)
    ensures |r| == |ts| && forall j :: 0 <= j < |ts| ==> r[j] == ts[j].observation
  {
    seq(|ts|, j requires 0 <= j < |ts| => ts[j].observation)
  }

  function NextObservationItems(ts: seq<Transition>): (r: seq<Item>)
    ensures |r| == |ts| && forall j :: 0 <= j < |ts| ==> r[j] == ts[j].nextObservation
  {
    seq(|ts|, j requires 0 <= j < |ts| => ts[j].nextObservation)
  }

  function ActionItems(ts: seq<Transition>): (r: seq<Item>)
    ensures |r| == |ts| && forall j :: 0 <= j < |ts| ==> r[j] == ts[j].action
  {
    seq(|ts|, j requires 0 <= j < |ts| => ts[j].action)
  }

  /** The rewards are Python floats. */
  function RewardItems(ts: seq<Transition>): (r: seq<Item>)
    ensures |r| == |ts| && forall j :: 0 <= j < |ts| ==> r[j] == FloatScalar(ts[j].reward)
  {
    seq(|ts|, j requires 0 <= j < |ts| => FloatScalar(ts[j].reward))
  }

  /** `np.reshape(np.array(values), [n, -1])` for n values: one per row. */
  function ColumnVector(values: seq<real>): (r: Array)
    ensures r.shape == [|values|, 1] && r.data == values
  {
    assert [|values|, 1][1..] == [1] && [1][1..] == [];
    assert Product([|values|, 1]) == |values|;
    NdArray([|values|, 1], values)
  }

  /** Lines 48-73: the four item columns are stacked in the order of the
      source (observations, next observations, actions, rewards), the first
      failure being the one raised; terminals and durations become (n, 1)
      float columns. */
  function StackBatch(ts: seq<Transition>): Result<Batch>
  {
    var obs := StackItems(ObservationItems(ts));
    var next := StackItems(NextObservationItems(ts));
    var act := StackItems(ActionItems(ts));
    var rew := StackItems(RewardItems(ts));
    if obs.Err? then Err(obs.error)
    else if next.Err? then Err(next.error)
    else if act.Err? then Err(act.error)
    else if rew.Err? then Err(rew.error)
    else Ok(Batch(obs.value, act.value, rew.value, next.value,
                  ColumnVector(seq(|ts|, j requires 0 <= j < |ts| => ts[j].terminal)),
                  ColumnVector(seq(|ts|, j requires 0 <= j < |ts| => ts[j].duration as real))))
  }

  /** Row j of a successfully stacked column is item j: a scalar comes back
      as a one-element array, an array as itself, and a tuple as itself when
      every tuple has as many parts as the first. The column has one row per
      item. */
  lemma StackedRow(items: seq<Item>, j: nat)
    requires StackItems(items).Ok? && j < |items|
    ensures var st := StackItems(items).value;
      SizeofStackedItem(st) == Ok(|items|)
      && (IsScalar(items[0]) ==> LocateStackedItem(st, j) == Ok(Tensor(NdArray([1], [ScalarValue(items[j])]))))
      && (items[0].Tensor? ==> LocateStackedItem(st, j) == Ok(items[j]))
      && (items[0].Tuple? && (forall k :: 0 <= k < |items| ==> items[k].Tuple? && |items[k].parts| == |items[0].parts|) ==>
            LocateStackedItem(st, j) == Ok(items[j]))
  {
    var st := StackItems(items).value;
    if IsScalar(items[0]) {
      StackScalarsShape(items);
      var a := st.arr;
      assert a.shape[1..] == [1] && [1][1..] == [] && Product([1]) == 1;
      assert NormaliseIndex(j, a.shape[0]) == Some(j);
      assert Row(a, j) == NdArray([1], [a.data[j]]);
    } else if items[0].Tensor? {
      StackArraysRoundTrip(items, items[0].arr.shape);
    } else if items[0].Tuple? {
      var first := items[0].parts;
      assert |first| >= 1 && AllTuplesLike(items, first);
      assert st == StackedTuple(StackTupleColumns(items, first));
      assert forall i :: 0 <= i < |st.parts| ==> st.parts[i].shape == [|items|] + first[i].shape;
      if forall k :: 0 <= k < |items| ==> |items[k].parts| == |first| {
        StackTuplesRoundTrip(items);
      }
    }
  }

  /** A batch is stacked exactly when each of its four item columns stacks,
      so never from an empty list; each item column is `stack_items` of the
      matching field, and every column has one row per transition, row j
      coming from transition j: the reward, terminal and duration of
      transition j sit in row j of their (n, 1) columns, and the
      observation, next observation and action of transition j are what
      row j of their columns locates. */
  lemma StackBatchColumns(ts: seq<Transition>)
    ensures StackBatch(ts).Ok? <==>
      StackItems(ObservationItems(ts)).Ok? && StackItems(NextObservationItems(ts)).Ok?
      && StackItems(ActionItems(ts)).Ok? && StackItems(RewardItems(ts)).Ok?
    ensures |ts| == 0 ==> StackBatch(ts) == Err(IndexError)
    ensures StackBatch(ts).Ok? ==> var b := StackBatch(ts).value;
      b.observations == StackItems(ObservationItems(ts)).value
      && b.nextObservations == StackItems(NextObservationItems(ts)).value
      && b.actions == StackItems(ActionItems(ts)).value
      && b.rewards == StackItems(RewardItems(ts)).value
      && b.rewards.Stacked? && b.rewards.arr.shape == [|ts|, 1]
      && b.terminals.shape == [|ts|, 1] && b.durations.shape == [|ts|, 1]
      && SizeofStackedItem(b.observations) == Ok(|ts|) && SizeofStackedItem(b.nextObservations) == Ok(|ts|)
      && SizeofStackedItem(b.actions) == Ok(|ts|) && SizeofStackedItem(b.rewards) == Ok(|ts|)
      && forall j :: 0 <= j < |ts| ==>
           b.rewards.arr.data[j] == ts[j].reward
           && b.terminals.data[j] == ts[j].terminal && b.durations.data[j] == ts[j].duration as real
  {
    if StackBatch(ts).Ok? {
      var b := StackBatch(ts).value;
      var rs := RewardItems(ts);
      assert AllScalars(rs);
      StackScalarsShape(rs);
      StackedRow(ObservationItems(ts), 0);
      StackedRow(NextObservationItems(ts), 0);
      StackedRow(ActionItems(ts), 0);
      StackedRow(rs, 0);
    }
  }

  /** Row j of the observation column locates transition j's observation
      when the observations are arrays, or tuples all with as many parts;
      the same holds for the next observations and the actions. */
  lemma StackBatchRows(ts: seq<Transition>, j: nat)
    requires StackBatch(ts).Ok? && j < |ts|
    ensures var b := StackBatch(ts).value;
      (!IsScalar(ts[0].observation) && !ts[0].observation.Tuple? ==> LocateStackedItem(b.observations, j) == Ok(ts[j].observation))
      && (!IsScalar(ts[0].nextObservation) && !ts[0].nextObservation.Tuple? ==>
            LocateStackedItem(b.nextObservations, j) == Ok(ts[j].nextObservation))
      && (!IsScalar(ts[0].action) && !ts[0].action.Tuple? ==> LocateStackedItem(b.actions, j) == Ok(ts[j].action))
      && (ts[0].observation.Tuple? && (forall k :: 0 <= k < |ts| ==> ts[k].observation.Tuple? && |ts[k].observation.parts| == |ts[0].observation.parts|) ==>
            LocateStackedItem(b.observations, j) == Ok(ts[j].observation))
  {
    StackBatchColumns(ts);
    StackedRow(ObservationItems(ts), j);
    StackedRow(NextObservationItems(ts), j);
    StackedRow(ActionItems(ts), j);
  }
}
