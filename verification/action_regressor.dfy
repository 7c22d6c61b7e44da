/**
 A model of `ActionRegressor`: one regression model per discrete action.
 A batch of rows, whose last `k` columns hold the action and whose leading
 columns hold the state, is split by action; each part is sent to the model
 owning that action, and predictions are scattered back in row order.

 The estimators are abstract: a model is a value of type `S`, fitting it is a
 function `fit(model, states, targets)` returning the new model, and
 predicting is a function `predict(model, states)` returning one value per
 state row. The model bank is a sequence, so no two actions share a model.
 */
module ActionRegressor {
  import opened Matrices
  import opened Indices

  datatype Option<V> = None | Some(value: V)

  /** The regressor: the action table (shape N x K), its column count K,
      and the bank of N models, `models[i]` belonging to action row `i`. */
  datatype Regressor<S, T(==)> = Regressor(discreteActions: Matrix<T>, actionDim: nat, models: seq<S>)
  {
    predicate Valid()
    {
      && discreteActions.Rectangular()
      && actionDim == discreteActions.cols
      && |models| == |discreteActions.rows|
    }

    /** The shapes fit and predict rely on: a rectangular batch whose width
        leaves room for the `actionDim` action columns, with at least one
        action column whenever there is an action to route to. */
    predicate Accepts(x: Matrix<T>)
    {
      && x.Rectangular()
      && (|models| > 0 ==> 1 <= actionDim <= x.cols)
    }

    /** The estimators return one value per row on every call the router
        makes for batch `x`: each action with a non-empty partition has its
        model asked about that partition's state slices. Actions with an
        empty partition are never asked, and nothing is demanded of them. */
    predicate RowAligned(x: Matrix<T>, predict: (S, seq<seq<T>>) -> seq<real>)
      requires Valid() && Accepts(x)
    {
      forall i :: 0 <= i < |models| ==>
        var idxs := Partition(x, actionDim, discreteActions.rows[i]);
        |idxs| > 0 ==> |predict(models[i], States(x, actionDim, idxs))| == |idxs|
    }

    /** Every row routed to some action has a target: the indexing `y[idxs]`
        reads only routed rows, so rows that no action routes need none. */
    predicate TargetsCover(x: Matrix<T>, y: seq<real>)
      requires Valid()
    {
      forall i :: 0 <= i < |models| ==>
        InRange(Partition(x, actionDim, discreteActions.rows[i]), |y|)
    }
  }

  /** Builds the model bank: one copy of the prototype per action row. */
  function Init<S, T(==)>(model: S, discreteActions: Matrix<T>): (reg: Regressor<S, T>)
    requires discreteActions.Rectangular()
    ensures reg.Valid()
    ensures reg.discreteActions == discreteActions
    ensures reg.actionDim == discreteActions.cols
    ensures |reg.models| == |discreteActions.rows|
    ensures forall i :: 0 <= i < |reg.models| ==> reg.models[i] == model
  {
    Regressor(discreteActions, discreteActions.cols, seq(|discreteActions.rows|, _ => model))
  }

  /** Column 0 of the element-wise comparison of the row's last `k` entries
      with `action`: only the first action component takes part. */
  predicate Routes<T(==)>(row: seq<T>, k: nat, action: seq<T>)
  {
    1 <= k <= |row| && |action| >= 1 && row[|row| - k] == action[0]
  }

  /** The element-wise comparison of the batch's last `k` columns with
      `action` (`x[:, -k:] == action`): entry `[r][c]` holds exactly when
      column `C - k + c` of row `r` equals `action[c]`. */
  function Compare<T(==)>(x: Matrix<T>, k: nat, action: seq<T>): (cmp: seq<seq<bool>>)
    requires x.Rectangular() && k <= x.cols && |action| == k
    ensures |cmp| == |x.rows|
    ensures forall r :: 0 <= r < |x.rows| ==> |cmp[r]| == k
    ensures forall r, c :: 0 <= r < |x.rows| && 0 <= c < k ==>
              (cmp[r][c] <==> x.rows[r][x.cols - k + c] == action[c])
  {
    seq(|x.rows|, r requires 0 <= r < |x.rows| =>
      seq(k, c requires 0 <= c < k => x.rows[r][x.cols - k + c] == action[c]))
  }

  /** One boolean per batch row: is the row routed to `action`? */
  function Mask<T(==)>(x: Matrix<T>, k: nat, action: seq<T>): (m: seq<bool>)
    ensures |m| == |x.rows|
    ensures forall r :: 0 <= r < |x.rows| ==> (m[r] <==> Routes(x.rows[r], k, action))
  {
    seq(|x.rows|, r requires 0 <= r < |x.rows| => Routes(x.rows[r], k, action))
  }

  /** The indices of the batch rows routed to `action`, ascending. */
  function Partition<T(==)>(x: Matrix<T>, k: nat, action: seq<T>): (idxs: seq<nat>)
    ensures Increasing(idxs)
    ensures InRange(idxs, |x.rows|)
    ensures forall r :: 0 <= r < |x.rows| ==> (r in idxs <==> Routes(x.rows[r], k, action))
  {
    ArgWhere(Mask(x, k, action))
  }

  /** The routing mask is column 0 of the element-wise comparison, and
      nothing else: a row whose first action column matches is routed
      whatever the comparison says about the other columns. */
  lemma MaskIsFirstComparisonColumn<T>(x: Matrix<T>, k: nat, action: seq<T>)
    requires x.Rectangular() && 1 <= k <= x.cols && |action| == k
    ensures forall r :: 0 <= r < |x.rows| ==> (Mask(x, k, action)[r] <==> Compare(x, k, action)[r][0])
  {
  }

  /** The state slices of the rows at `idxs`, in that order. */
  function States<T>(x: Matrix<T>, k: nat, idxs: seq<nat>): (states: seq<seq<T>>)
    requires x.Rectangular() && k <= x.cols
    requires InRange(idxs, |x.rows|)
    ensures |states| == |idxs|
    ensures forall j :: 0 <= j < |idxs| ==> states[j] + x.rows[idxs[j]][x.cols - k..] == x.rows[idxs[j]]
    ensures forall j :: 0 <= j < |idxs| ==> |states[j]| == x.cols - k
  {
    seq(|idxs|, j requires 0 <= j < |idxs| => StateSlice(x.rows[idxs[j]], k))
  }

  // ---------------------------------------------------------------- fit

  /** What one action's model becomes after a fit on batch `x`: trained on
      the state slices and targets of its rows, or left alone when no row
      is routed to it. */
  function Refit<S, T(==)>(model: S, x: Matrix<T>, k: nat, action: seq<T>, y: seq<real>,
                           fit: (S, seq<seq<T>>, seq<real>) -> S): (m: S)
    requires x.Rectangular() && k <= x.cols
    requires InRange(Partition(x, k, action), |y|)
    ensures (forall r :: 0 <= r < |x.rows| ==> !Routes(x.rows[r], k, action)) ==> m == model
  {
    var idxs := Partition(x, k, action);
    assert |idxs| > 0 ==> Routes(x.rows[idxs[0]], k, action);
    if |idxs| > 0 then fit(model, States(x, k, idxs), Gather(y, idxs)) else model
  }

  /** One iteration of the fit loop: only `models[i]` may change. */
  function FitAction<S, T(==)>(reg: Regressor<S, T>, i: nat, x: Matrix<T>, y: seq<real>,
                               fit: (S, seq<seq<T>>, seq<real>) -> S): (next: Regressor<S, T>)
    requires reg.Valid() && reg.Accepts(x) && reg.TargetsCover(x, y)
    requires i < |reg.models|
    ensures next.Valid()
    ensures next.discreteActions == reg.discreteActions && next.actionDim == reg.actionDim
    ensures |next.models| == |reg.models|
    ensures forall j :: 0 <= j < |reg.models| && j != i ==> next.models[j] == reg.models[j]
    ensures (forall r :: 0 <= r < |x.rows| ==> !Routes(x.rows[r], reg.actionDim, reg.discreteActions.rows[i]))
            ==> next == reg
  {
    var m := Refit(reg.models[i], x, reg.actionDim, reg.discreteActions.rows[i], y, fit);
    assert reg.models[i := reg.models[i]] == reg.models;
    reg.(models := reg.models[i := m])
  }

  /** Fits every action's model on its own partition of the batch, in
      action-table order. The result does not depend on that order: each
      model ends up as `Refit` of its own starting value. */
  method Fit<S, T(==)>(reg: Regressor<S, T>, x: Matrix<T>, y: seq<real>,
                       fit: (S, seq<seq<T>>, seq<real>) -> S) returns (fitted: Regressor<S, T>)
    requires reg.Valid() && reg.Accepts(x) && reg.TargetsCover(x, y)
    ensures fitted.Valid()
    ensures fitted.discreteActions == reg.discreteActions && fitted.actionDim == reg.actionDim
    ensures |fitted.models| == |reg.models|
    ensures forall i :: 0 <= i < |reg.models| ==>
              fitted.models[i] == Refit(reg.models[i], x, reg.actionDim, reg.discreteActions.rows[i], y, fit)
    ensures forall i :: 0 <= i < |reg.models| ==>
              (forall r :: 0 <= r < |x.rows| ==> !Routes(x.rows[r], reg.actionDim, reg.discreteActions.rows[i]))
              ==> fitted.models[i] == reg.models[i]
  {
    fitted := reg;
    var i := 0;
    while i < |reg.models|
      invariant 0 <= i <= |reg.models|
      invariant fitted.Valid()
      invariant fitted.discreteActions == reg.discreteActions && fitted.actionDim == reg.actionDim
      invariant |fitted.models| == |reg.models|
      invariant fitted.TargetsCover(x, y)
      invariant forall j :: 0 <= j < i ==>
                  fitted.models[j] == Refit(reg.models[j], x, reg.actionDim, reg.discreteActions.rows[j], y, fit)
      invariant forall j :: i <= j < |reg.models| ==> fitted.models[j] == reg.models[j]
    {
      fitted := FitAction(fitted, i, x, y, fit);
      i := i + 1;
    }
  }

  // ------------------------------------------------------------ predict

  /** The last action index below `bound` whose table row routes `row`. */
  function LastMatch<T(==)>(actions: seq<seq<T>>, k: nat, row: seq<T>, bound: nat): (m: Option<nat>)
    requires bound <= |actions|
    ensures m.None? <==> forall i :: 0 <= i < bound ==> !Routes(row, k, actions[i])
    ensures m.Some? ==> m.value < bound && Routes(row, k, actions[m.value])
    ensures m.Some? ==> forall j :: m.value < j < bound ==> !Routes(row, k, actions[j])
    decreases bound
  {
    if bound == 0 then None
    else if Routes(row, k, actions[bound - 1]) then Some(bound - 1)
    else LastMatch(actions, k, row, bound - 1)
  }

  /** An entry that routes the row, with no later entry below the bound
      routing it, is the last match. */
  lemma LastMatchIsLastRoute<T>(actions: seq<seq<T>>, k: nat, row: seq<T>, bound: nat, i: nat)
    requires i < bound <= |actions|
    requires Routes(row, k, actions[i])
    requires forall l :: i < l < bound ==> !Routes(row, k, actions[l])
    ensures LastMatch(actions, k, row, bound) == Some(i)
  {
    var m := LastMatch(actions, k, row, bound);
    assert m.Some?;
    assert !(m.value < i) && !(m.value > i);
  }

  /** What the model of action `i` predicts for the state slices of its
      partition of the batch, one value per partition row. */
  function ActionPredictions<S, T(==)>(reg: Regressor<S, T>, x: Matrix<T>,
                                       predict: (S, seq<seq<T>>) -> seq<real>, i: nat): (p: seq<real>)
    requires reg.Valid() && reg.Accepts(x) && reg.RowAligned(x, predict)
    requires i < |reg.models|
    requires |Partition(x, reg.actionDim, reg.discreteActions.rows[i])| > 0
    ensures |p| == |Partition(x, reg.actionDim, reg.discreteActions.rows[i])|
  {
    var idxs := Partition(x, reg.actionDim, reg.discreteActions.rows[i]);
    predict(reg.models[i], States(x, reg.actionDim, idxs))
  }

  /** The prediction for batch row `r` once the actions below `bound` have
      been handled: 0.0 if none of them routes the row, otherwise the value
      the last such action's model gives the row, read at the row's place
      within that action's partition. */
  function RowPrediction<S, T(==)>(reg: Regressor<S, T>, x: Matrix<T>,
                                   predict: (S, seq<seq<T>>) -> seq<real>, r: nat, bound: nat): real
    requires reg.Valid() && reg.Accepts(x) && reg.RowAligned(x, predict)
    requires r < |x.rows| && bound <= |reg.models|
  {
    match LastMatch(reg.discreteActions.rows, reg.actionDim, x.rows[r], bound)
    case None => 0.0
    case Some(i) =>
      var mask := Mask(x, reg.actionDim, reg.discreteActions.rows[i]);
      RankLocates(mask, r);
      ActionPredictions(reg, x, predict, i)[Rank(mask, r)]
  }

  /** The full prediction vector, row by row. */
  function Predicted<S, T(==)>(reg: Regressor<S, T>, x: Matrix<T>,
                               predict: (S, seq<seq<T>>) -> seq<real>): (p: seq<real>)
    requires reg.Valid() && reg.Accepts(x) && reg.RowAligned(x, predict)
    ensures |p| == |x.rows|
  {
    seq(|x.rows|, r requires 0 <= r < |x.rows| => RowPrediction(reg, x, predict, r, |reg.models|))
  }

  /** A vector agreeing with `RowPrediction` at every row is `Predicted`. */
  lemma PredictedByRows<S, T>(reg: Regressor<S, T>, x: Matrix<T>,
                              predict: (S, seq<seq<T>>) -> seq<real>, p: seq<real>)
    requires reg.Valid() && reg.Accepts(x) && reg.RowAligned(x, predict)
    requires |p| == |x.rows|
    requires forall r :: 0 <= r < |x.rows| ==> p[r] == RowPrediction(reg, x, predict, r, |reg.models|)
    ensures p == Predicted(reg, x, predict)
  {
  }

  /** The body of the predict loop for action `i`: the rows routed to it
      receive its model's outputs, in partition order; when no row is
      routed to it, nothing is written and its model is not called. */
  function Overwrite<S, T(==)>(reg: Regressor<S, T>, x: Matrix<T>,
                               predict: (S, seq<seq<T>>) -> seq<real>, i: nat,
                               predictions: seq<real>): (after: seq<real>)
    requires reg.Valid() && reg.Accepts(x) && reg.RowAligned(x, predict)
    requires i < |reg.models| && |predictions| == |x.rows|
    ensures |after| == |x.rows|
  {
    var idxs := Partition(x, reg.actionDim, reg.discreteActions.rows[i]);
    if |idxs| > 0 then Scatter(predictions, idxs, ActionPredictions(reg, x, predict, i)) else predictions
  }

  /** One iteration of the predict loop, for one row: if the row held its
      prediction from the actions below `i`, it now holds the prediction
      from the actions below `i + 1`. */
  lemma OverwriteRow<S, T>(reg: Regressor<S, T>, x: Matrix<T>,
                           predict: (S, seq<seq<T>>) -> seq<real>, i: nat,
                           before: seq<real>, r: nat)
    requires reg.Valid() && reg.Accepts(x) && reg.RowAligned(x, predict)
    requires i < |reg.models| && r < |x.rows| == |before|
    requires before[r] == RowPrediction(reg, x, predict, r, i)
    ensures Overwrite(reg, x, predict, i, before)[r] == RowPrediction(reg, x, predict, r, i + 1)
  {
    var k := reg.actionDim;
    var action := reg.discreteActions.rows[i];
    var idxs := Partition(x, k, action);
    if Routes(x.rows[r], k, action) {
      var mask := Mask(x, k, action);
      RankLocates(mask, r);
      assert idxs[Rank(mask, r)] == r;
    } else {
      assert r !in idxs;
    }
  }

  /** One iteration of the predict loop, for all rows. */
  lemma OverwriteAdvances<S, T>(reg: Regressor<S, T>, x: Matrix<T>,
                                predict: (S, seq<seq<T>>) -> seq<real>, i: nat, before: seq<real>)
    requires reg.Valid() && reg.Accepts(x) && reg.RowAligned(x, predict)
    requires i < |reg.models| && |before| == |x.rows|
    requires forall r :: 0 <= r < |x.rows| ==> before[r] == RowPrediction(reg, x, predict, r, i)
    ensures forall r :: 0 <= r < |x.rows| ==>
              Overwrite(reg, x, predict, i, before)[r] == RowPrediction(reg, x, predict, r, i + 1)
  {
    forall r | 0 <= r < |x.rows|
      ensures Overwrite(reg, x, predict, i, before)[r] == RowPrediction(reg, x, predict, r, i + 1)
    {
      OverwriteRow(reg, x, predict, i, before, r);
    }
  }

  /** Predicts every batch row: starts from zeros and, action by action,
      overwrites the rows routed to that action with its model's output. */
  method Predict<S, T(==)>(reg: Regressor<S, T>, x: Matrix<T>,
                           predict: (S, seq<seq<T>>) -> seq<real>) returns (predictions: seq<real>)
    requires reg.Valid() && reg.Accepts(x) && reg.RowAligned(x, predict)
    ensures |predictions| == |x.rows|
    ensures predictions == Predicted(reg, x, predict)
    ensures forall r :: 0 <= r < |x.rows| ==>
              (forall i :: 0 <= i < |reg.models| ==> !Routes(x.rows[r], reg.actionDim, reg.discreteActions.rows[i]))
              ==> predictions[r] == 0.0
  {
    predictions := seq(|x.rows|, _ => 0.0);
    var i := 0;
    while i < |reg.models|
      invariant 0 <= i <= |reg.models|
      invariant |predictions| == |x.rows|
      invariant forall r :: 0 <= r < |x.rows| ==> predictions[r] == RowPrediction(reg, x, predict, r, i)
    {
      OverwriteAdvances(reg, x, predict, i, predictions);
      predictions := Overwrite(reg, x, predict, i, predictions);
      i := i + 1;
    }
    PredictedByRows(reg, x, predict, predictions);
  }
}
