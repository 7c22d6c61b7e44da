/**
 Concrete batches routed through the model: a two-action table with a
 three-row batch, a row whose action is not in the table, and a two-column
 table whose entries share their first component.
 */
module Scenarios {
  import opened Matrices
  import opened Indices
  import opened ActionRegressor
  import opened RoutingProperties

  /** Actions 0 and 1 (N = 2, K = 1). */
  const table: Matrix<real> := Matrix([[0.0], [1.0]], 1)

  /** Three rows: two state columns, then the action. */
  const batch: Matrix<real> := Matrix([[1.0, 2.0, 0.0], [3.0, 4.0, 1.0], [5.0, 6.0, 0.0]], 3)

  const targets: seq<real> := [10.0, 20.0, 30.0]

  /** Rows 0 and 2 go to action 0, row 1 to action 1. */
  lemma TwoActionPartitions()
    ensures Partition(batch, 1, table.rows[0]) == [0, 2]
    ensures Partition(batch, 1, table.rows[1]) == [1]
  {
    assert Routes(batch.rows[0], 1, table.rows[0]) && Routes(batch.rows[2], 1, table.rows[0]);
    assert !Routes(batch.rows[1], 1, table.rows[0]);
    PartitionIsRoutedRowsAscending(batch, 1, table.rows[0], [0, 2]);
    assert Routes(batch.rows[1], 1, table.rows[1]);
    assert !Routes(batch.rows[0], 1, table.rows[1]) && !Routes(batch.rows[2], 1, table.rows[1]);
    PartitionIsRoutedRowsAscending(batch, 1, table.rows[1], [1]);
  }

  /** The state columns and targets of each action's rows. */
  lemma TwoActionSlices()
    ensures States(batch, 1, [0, 2]) == [[1.0, 2.0], [5.0, 6.0]]
    ensures States(batch, 1, [1]) == [[3.0, 4.0]]
    ensures Gather(targets, [0, 2]) == [10.0, 30.0]
    ensures Gather(targets, [1]) == [20.0]
  {
    assert batch.Rectangular();
    var s02 := States(batch, 1, [0, 2]);
    assert s02[0] == [1.0, 2.0] && s02[1] == [5.0, 6.0];
    var s1 := States(batch, 1, [1]);
    assert s1[0] == [3.0, 4.0];
  }

  /** Each model is fitted on its rows' state columns and targets. */
  lemma TwoActionFit<S>(model: S, fit: (S, seq<seq<real>>, seq<real>) -> S)
    ensures Refit(model, batch, 1, table.rows[0], targets, fit) == fit(model, [[1.0, 2.0], [5.0, 6.0]], [10.0, 30.0])
    ensures Refit(model, batch, 1, table.rows[1], targets, fit) == fit(model, [[3.0, 4.0]], [20.0])
  {
    TwoActionPartitions();
    TwoActionSlices();
  }

  /** The example table with a bank of two models of its own choosing:
      `m0` for action 0 and `m1` for action 1. */
  function Bank<S>(m0: S, m1: S): Regressor<S, real>
  {
    Regressor(table, 1, [m0, m1])
  }

  /** Predicting the example batch with two distinct models: rows 0 and 2
      take model `m0`'s two outputs, row 1 takes model `m1`'s output. */
  lemma TwoActionPredict<S>(m0: S, m1: S, predict: (S, seq<seq<real>>) -> seq<real>)
    requires Bank(m0, m1).RowAligned(batch, predict)
    ensures var out0 := predict(m0, [[1.0, 2.0], [5.0, 6.0]]);
            var out1 := predict(m1, [[3.0, 4.0]]);
            var p := Predicted(Bank(m0, m1), batch, predict);
            && |out0| == 2 && |out1| == 1 && |p| == 3
            && p[0] == out0[0] && p[1] == out1[0] && p[2] == out0[1]
  {
    TwoActionRowsOfAction0(m0, m1, predict);
    TwoActionRowOfAction1(m0, m1, predict);
    TwoActionOutputs(m0, m1, predict);
  }

  /** Rows 0 and 2 of the example batch take action 0's two outputs. */
  lemma TwoActionRowsOfAction0<S>(m0: S, m1: S, predict: (S, seq<seq<real>>) -> seq<real>)
    requires Bank(m0, m1).RowAligned(batch, predict)
    ensures Partition(batch, 1, table.rows[0]) == [0, 2]
    ensures && |ActionPredictions(Bank(m0, m1), batch, predict, 0)| == 2
            && Predicted(Bank(m0, m1), batch, predict)[0] == ActionPredictions(Bank(m0, m1), batch, predict, 0)[0]
            && Predicted(Bank(m0, m1), batch, predict)[2] == ActionPredictions(Bank(m0, m1), batch, predict, 0)[1]
  {
    TableFirstComponentsDistinct();
    TwoActionPartitions();
    RoutedRowPredictedByItsModel(Bank(m0, m1), batch, predict, 0, 0);
    RoutedRowPredictedByItsModel(Bank(m0, m1), batch, predict, 0, 1);
  }

  /** Row 1 of the example batch takes action 1's single output. */
  lemma TwoActionRowOfAction1<S>(m0: S, m1: S, predict: (S, seq<seq<real>>) -> seq<real>)
    requires Bank(m0, m1).RowAligned(batch, predict)
    ensures Partition(batch, 1, table.rows[1]) == [1]
    ensures && |ActionPredictions(Bank(m0, m1), batch, predict, 1)| == 1
            && Predicted(Bank(m0, m1), batch, predict)[1] == ActionPredictions(Bank(m0, m1), batch, predict, 1)[0]
  {
    TableFirstComponentsDistinct();
    TwoActionPartitions();
    RoutedRowPredictedByItsModel(Bank(m0, m1), batch, predict, 1, 0);
  }

  /** Each model is asked to predict for its own rows' state columns. */
  lemma TwoActionOutputs<S>(m0: S, m1: S, predict: (S, seq<seq<real>>) -> seq<real>)
    requires Bank(m0, m1).RowAligned(batch, predict)
    ensures && Partition(batch, 1, table.rows[0]) == [0, 2]
            && ActionPredictions(Bank(m0, m1), batch, predict, 0) == predict(m0, [[1.0, 2.0], [5.0, 6.0]])
    ensures && Partition(batch, 1, table.rows[1]) == [1]
            && ActionPredictions(Bank(m0, m1), batch, predict, 1) == predict(m1, [[3.0, 4.0]])
  {
    TwoActionPartitions();
    TwoActionSlices();
  }

  /** A regressor over the example table whose models are the prototype
      refitted on the example batch is the bank of the two trained models. */
  lemma TwoActionFittedBank<S>(model: S, fit: (S, seq<seq<real>>, seq<real>) -> S, fitted: Regressor<S, real>)
    requires fitted.discreteActions == table && fitted.actionDim == 1 && |fitted.models| == 2
    requires fitted.models[0] == Refit(model, batch, 1, table.rows[0], targets, fit)
    requires fitted.models[1] == Refit(model, batch, 1, table.rows[1], targets, fit)
    ensures fitted == Bank(fit(model, [[1.0, 2.0], [5.0, 6.0]], [10.0, 30.0]), fit(model, [[3.0, 4.0]], [20.0]))
  {
    TwoActionFit(model, fit);
    assert fitted.models == [fitted.models[0], fitted.models[1]];
  }

  /** Fitting a fresh regressor on the example batch and then predicting
      the same batch: the bank the fit leaves is model 0 trained on rows 0
      and 2 and model 1 trained on row 1, and each row's prediction comes
      from the model trained on its action's rows. */
  method FitThenPredict<S>(model: S, fit: (S, seq<seq<real>>, seq<real>) -> S,
                           predict: (S, seq<seq<real>>) -> seq<real>) returns (fitted: Regressor<S, real>, p: seq<real>)
    requires Bank(fit(model, [[1.0, 2.0], [5.0, 6.0]], [10.0, 30.0]), fit(model, [[3.0, 4.0]], [20.0]))
               .RowAligned(batch, predict)
    ensures fitted == Bank(fit(model, [[1.0, 2.0], [5.0, 6.0]], [10.0, 30.0]), fit(model, [[3.0, 4.0]], [20.0]))
    ensures var out0 := predict(fitted.models[0], [[1.0, 2.0], [5.0, 6.0]]);
            var out1 := predict(fitted.models[1], [[3.0, 4.0]]);
            && |out0| == 2 && |out1| == 1 && |p| == 3
            && p[0] == out0[0] && p[1] == out1[0] && p[2] == out0[1]
  {
    fitted := Fit(Init(model, table), batch, targets, fit);
    TwoActionFittedBank(model, fit, fitted);
    p := Predict(fitted, batch, predict);
    TwoActionPredict(fitted.models[0], fitted.models[1], predict);
  }

  lemma TableFirstComponentsDistinct()
    ensures FirstComponentsDistinct(table.rows)
  {
    assert Distinct(table.rows);
    SingleColumnTableIsDistinct(table);
  }

  /** A row labelled with action 2, which the table lacks, predicts 0.0
      whatever its state columns hold. */
  lemma UnknownActionPredictsZero<S>(model: S, predict: (S, seq<seq<real>>) -> seq<real>, s0: real, s1: real)
    requires Init(model, table).RowAligned(Matrix([[s0, s1, 2.0]], 3), predict)
    ensures Predicted(Init(model, table), Matrix([[s0, s1, 2.0]], 3), predict) == [0.0]
  {
    var x := Matrix([[s0, s1, 2.0]], 3);
    assert !Routes(x.rows[0], 1, table.rows[0]) && !Routes(x.rows[0], 1, table.rows[1]);
  }

  /** Two-column actions (0, 1) and (0, 2) share their first component. */
  const sharedTable: Matrix<int> := Matrix([[0, 1], [0, 2]], 2)

  /** The one-row batch with state 7 and action (0, 1). */
  const sharedBatch: Matrix<int> := Matrix([[7, 0, 1]], 3)

  /** Both entries route the row, and its state slice is [7]. */
  lemma SharedPartitions()
    ensures Partition(sharedBatch, 2, sharedTable.rows[0]) == [0]
    ensures Partition(sharedBatch, 2, sharedTable.rows[1]) == [0]
    ensures States(sharedBatch, 2, [0]) == [[7]]
  {
    PartitionIsRoutedRowsAscending(sharedBatch, 2, sharedTable.rows[0], [0]);
    SharedFirstComponentSamePartition(sharedBatch, 2, sharedTable.rows[0], sharedTable.rows[1]);
    assert States(sharedBatch, 2, [0])[0] == [7];
  }

  /** The row is routed to both entries, and the later entry's model `m1`
      decides its prediction, although the row's action is exactly the
      earlier entry. */
  lemma SharedFirstComponentOverlaps<S>(m0: S, m1: S, predict: (S, seq<seq<int>>) -> seq<real>)
    requires Regressor(sharedTable, 2, [m0, m1]).RowAligned(sharedBatch, predict)
    ensures Partition(sharedBatch, 2, sharedTable.rows[0]) == [0]
    ensures Partition(sharedBatch, 2, sharedTable.rows[1]) == [0]
    ensures && |predict(m1, [[7]])| == 1
            && Predicted(Regressor(sharedTable, 2, [m0, m1]), sharedBatch, predict)[0] == predict(m1, [[7]])[0]
  {
    var reg := Regressor(sharedTable, 2, [m0, m1]);
    SharedPartitions();
    assert ActionPredictions(reg, sharedBatch, predict, 1) == predict(m1, [[7]]);
    LastRoutingActionDecides(reg, sharedBatch, predict, 1, 0);
  }
}
