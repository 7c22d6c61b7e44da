/**
 Properties of the router that relate several of its definitions: what each
 model is fitted on, which model decides each prediction, and when the
 partitions of different actions are disjoint.
 */
module RoutingProperties {
  import opened Matrices
  import opened Indices
  import opened ActionRegressor

  /** Any ascending list of exactly the rows routed to `action` is that
      action's partition: the partition is the routed rows in row order. */
  lemma PartitionIsRoutedRowsAscending<T>(x: Matrix<T>, k: nat, action: seq<T>, idxs: seq<nat>)
    requires Increasing(idxs) && InRange(idxs, |x.rows|)
    requires forall r :: 0 <= r < |x.rows| ==> (r in idxs <==> Routes(x.rows[r], k, action))
    ensures idxs == Partition(x, k, action)
  {
    var part := Partition(x, k, action);
    forall p
      ensures p in idxs <==> p in part
    {
      if p in idxs {
        var j :| 0 <= j < |idxs| && idxs[j] == p;
      }
      if p in part {
        var j :| 0 <= j < |part| && part[j] == p;
      }
    }
    IncreasingUnique(idxs, part);
  }

  /** When some row is routed to action `i`, its model is fitted on the state
      slices and targets of exactly the routed rows, ascending and aligned:
      `states[j]` and `targets[j]` both come from row `idxs[j]`. */
  lemma FitReceivesRoutedRows<S, T>(reg: Regressor<S, T>, x: Matrix<T>, y: seq<real>,
                                    fit: (S, seq<seq<T>>, seq<real>) -> S, i: nat,
                                    idxs: seq<nat>, states: seq<seq<T>>, targets: seq<real>)
    requires reg.Valid() && reg.Accepts(x) && reg.TargetsCover(x, y) && i < |reg.models|
    requires Increasing(idxs) && InRange(idxs, |x.rows|) && |idxs| > 0
    requires forall r :: 0 <= r < |x.rows| ==>
               (r in idxs <==> Routes(x.rows[r], reg.actionDim, reg.discreteActions.rows[i]))
    requires |states| == |idxs| && |targets| == |idxs|
    requires forall j :: 0 <= j < |idxs| ==>
               states[j] == StateSlice(x.rows[idxs[j]], reg.actionDim) && targets[j] == y[idxs[j]]
    ensures Refit(reg.models[i], x, reg.actionDim, reg.discreteActions.rows[i], y, fit)
            == fit(reg.models[i], states, targets)
  {
    PartitionIsRoutedRowsAscending(x, reg.actionDim, reg.discreteActions.rows[i], idxs);
    assert states == States(x, reg.actionDim, idxs);
    assert targets == Gather(y, idxs);
  }

  /** One target per batch row is enough for every routed row to have one,
      whatever the routing. */
  lemma TargetPerRowCovers<S, T>(reg: Regressor<S, T>, x: Matrix<T>, y: seq<real>)
    requires reg.Valid() && |x.rows| <= |y|
    ensures reg.TargetsCover(x, y)
  {
  }

  /** The `j`-th row of action `i`'s partition gets the `j`-th value its
      model predicts, unless a later table entry also routes that row. */
  lemma LastRoutingActionDecides<S, T>(reg: Regressor<S, T>, x: Matrix<T>,
                                       predict: (S, seq<seq<T>>) -> seq<real>, i: nat, j: nat)
    requires reg.Valid() && reg.Accepts(x) && reg.RowAligned(x, predict)
    requires i < |reg.models|
    requires j < |Partition(x, reg.actionDim, reg.discreteActions.rows[i])|
    requires forall l :: i < l < |reg.models| ==>
               !Routes(x.rows[Partition(x, reg.actionDim, reg.discreteActions.rows[i])[j]],
                       reg.actionDim, reg.discreteActions.rows[l])
    ensures Predicted(reg, x, predict)[Partition(x, reg.actionDim, reg.discreteActions.rows[i])[j]]
            == ActionPredictions(reg, x, predict, i)[j]
  {
    var r := Partition(x, reg.actionDim, reg.discreteActions.rows[i])[j];
    RowPredictionOfLastRoute(reg, x, predict, i, j);
    assert Predicted(reg, x, predict)[r] == RowPrediction(reg, x, predict, r, |reg.models|);
  }

  /** `LastRoutingActionDecides` for the per-row reference prediction. */
  lemma RowPredictionOfLastRoute<S, T>(reg: Regressor<S, T>, x: Matrix<T>,
                                       predict: (S, seq<seq<T>>) -> seq<real>, i: nat, j: nat)
    requires reg.Valid() && reg.Accepts(x) && reg.RowAligned(x, predict)
    requires i < |reg.models|
    requires j < |Partition(x, reg.actionDim, reg.discreteActions.rows[i])|
    requires forall l :: i < l < |reg.models| ==>
               !Routes(x.rows[Partition(x, reg.actionDim, reg.discreteActions.rows[i])[j]],
                       reg.actionDim, reg.discreteActions.rows[l])
    ensures RowPrediction(reg, x, predict, Partition(x, reg.actionDim, reg.discreteActions.rows[i])[j], |reg.models|)
            == ActionPredictions(reg, x, predict, i)[j]
  {
    var k := reg.actionDim;
    var action := reg.discreteActions.rows[i];
    var r := Partition(x, k, action)[j];
    assert Routes(x.rows[r], k, action);
    LastMatchIsLastRoute(reg.discreteActions.rows, k, x.rows[r], |reg.models|, i);
    RankOfSelected(Mask(x, k, action), j);
  }

  /** A row that no table entry routes keeps the initial 0.0. */
  lemma UnroutedRowPredictsZero<S, T>(reg: Regressor<S, T>, x: Matrix<T>,
                                      predict: (S, seq<seq<T>>) -> seq<real>, r: nat)
    requires reg.Valid() && reg.Accepts(x) && reg.RowAligned(x, predict)
    requires r < |x.rows|
    requires forall i :: 0 <= i < |reg.models| ==> !Routes(x.rows[r], reg.actionDim, reg.discreteActions.rows[i])
    ensures Predicted(reg, x, predict)[r] == 0.0
  {
    assert LastMatch(reg.discreteActions.rows, reg.actionDim, x.rows[r], |reg.models|) == None;
  }

  /** No two table entries share a first component. */
  predicate FirstComponentsDistinct<T(==)>(actions: seq<seq<T>>)
  {
    forall i, j :: 0 <= i < j < |actions| ==>
      |actions[i]| > 0 && |actions[j]| > 0 && actions[i][0] != actions[j][0]
  }

  /** With distinct first components, no row is routed to two actions. */
  lemma PartitionsDisjoint<T>(x: Matrix<T>, k: nat, actions: seq<seq<T>>, i: nat, j: nat)
    requires FirstComponentsDistinct(actions)
    requires i < |actions| && j < |actions| && i != j
    ensures forall r :: r in Partition(x, k, actions[i]) ==> r !in Partition(x, k, actions[j])
  {
    forall r | r in Partition(x, k, actions[i])
      ensures r !in Partition(x, k, actions[j])
    {
      var n :| 0 <= n < |Partition(x, k, actions[i])| && Partition(x, k, actions[i])[n] == r;
      assert Routes(x.rows[r], k, actions[i]);
    }
  }

  /** Conversely, entries that share their first component route the same
      rows, whatever their other components: their partitions are equal. */
  lemma SharedFirstComponentSamePartition<T>(x: Matrix<T>, k: nat, a: seq<T>, b: seq<T>)
    requires |a| > 0 && |b| > 0 && a[0] == b[0]
    ensures Partition(x, k, a) == Partition(x, k, b)
  {
    PartitionIsRoutedRowsAscending(x, k, b, Partition(x, k, a));
  }

  /** With distinct first components, every routed row is predicted by the
      one model it is routed to: no later entry overwrites it. */
  lemma RoutedRowPredictedByItsModel<S, T>(reg: Regressor<S, T>, x: Matrix<T>,
                                           predict: (S, seq<seq<T>>) -> seq<real>, i: nat, j: nat)
    requires reg.Valid() && reg.Accepts(x) && reg.RowAligned(x, predict)
    requires FirstComponentsDistinct(reg.discreteActions.rows)
    requires i < |reg.models|
    requires j < |Partition(x, reg.actionDim, reg.discreteActions.rows[i])|
    ensures Predicted(reg, x, predict)[Partition(x, reg.actionDim, reg.discreteActions.rows[i])[j]]
            == ActionPredictions(reg, x, predict, i)[j]
  {
    var actions := reg.discreteActions.rows;
    var r := Partition(x, reg.actionDim, actions[i])[j];
    assert Routes(x.rows[r], reg.actionDim, actions[i]);
    forall l | i < l < |reg.models|
      ensures !Routes(x.rows[r], reg.actionDim, actions[l])
    {
      assert actions[i][0] != actions[l][0];
    }
    LastRoutingActionDecides(reg, x, predict, i, j);
  }

  /** A one-column table of distinct actions has distinct first components,
      so its partitions never overlap. */
  lemma SingleColumnTableIsDistinct<T>(actions: Matrix<T>)
    requires actions.Rectangular() && actions.cols == 1
    requires Distinct(actions.rows)
    ensures FirstComponentsDistinct(actions.rows)
  {
    forall i, j | 0 <= i < j < |actions.rows|
      ensures actions.rows[i][0] != actions.rows[j][0]
    {
      assert actions.rows[i] == [actions.rows[i][0]];
      assert actions.rows[j] == [actions.rows[j][0]];
    }
  }
}
