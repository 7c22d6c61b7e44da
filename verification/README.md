# ActionRegressor routing, modelled in Dafny

`ActionRegressor` approximates a Q-function over a small set of discrete
actions by keeping one regression model per action. A batch row holds the
state in its leading columns and the action in its last `K` columns. `fit`
splits the batch by action and trains each action's model on the state
columns and targets of its own rows. `predict` starts from a vector of zeros
and overwrites each action's rows with that action's model output, in the
batch's row order.

This project models that routing as pure index bookkeeping:

- `Matrices` — the two-dimensional arrays (`Matrix`, with a column count kept
  even for a table with no rows) and the state slice of a row.
- `Indices` — `ArgWhere` (a boolean mask to its ascending list of true
  positions), `Rank` (a selected row's place within that list), `Gather` and
  `Scatter`.
- `ActionRegressor` — the regressor (action table, `actionDim`, model bank),
  construction, the routing rule, `Fit` and `Predict` as loops over the
  action table, and per-model and per-row reference definitions (`Refit`,
  `RowPrediction`, `Predicted`) that the loops are proved to compute.
- `RoutingProperties` — which rows a model is fitted on, which model decides a
  prediction, and disjointness of partitions.
- `Scenarios` — concrete batches: a two-action table, an action missing from
  the table, and two table entries that share a first component.

The estimator is abstract. A model is a value of a type parameter `S`.
Fitting is a function `fit(model, states, targets)` that returns the new
model. Predicting is a function `predict(model, states)`. Because the bank
is a sequence of values, fitting one action's model cannot change another's.

**Routing rule.** The code compares the row's last `K` columns with the
action entry element-wise and keeps only column 0 of that comparison
(`PyPi/approximators/action_regressor.py` lines 39-40 and 59-60). So row `r`
goes to action `i` exactly when `x[r][C-K] == discreteActions[i][0]`
(`ActionRegressor.Routes`; `ActionRegressor.MaskIsFirstComparisonColumn`
relates it to the full comparison). Only the first action component is
compared, so with `K > 1` two entries that share it get the same partition
(`RoutingProperties.SharedFirstComponentSamePartition`), and in `predict`
the later entry overwrites the earlier one
(`Scenarios.SharedFirstComponentOverlaps`). When the first components differ,
the partitions are disjoint (`RoutingProperties.PartitionsDisjoint`). That
always holds for a one-column table of distinct actions
(`RoutingProperties.SingleColumnTableIsDistinct`).

**Shapes and empty inputs.** The code checks neither the table's nor the
batch's shape. The model states the shapes it relies on as preconditions
(`Regressor.Valid`, `Regressor.Accepts`) and has no error outcomes. A table
with no rows is accepted: the bank is then empty, `fit` changes nothing and
`predict` returns all zeros. An action with no routed rows is skipped by
both loops: its model is neither fitted nor asked to predict.

## Model

| member | source | states |
|---|---|---|
| `ActionRegressor.Init` | PyPi/approximators/action_regressor.py:21-26 | the bank has exactly one model per action-table row, every one equal to the prototype; `actionDim` is the table's column count and the table is kept as given |
| `Matrices.StateSlice` | PyPi/approximators/action_regressor.py:43 | the state part of a row is the row with its last `k` (action) columns removed: put back in front of them, it gives the row again |
| `Indices.ArgWhere` | PyPi/approximators/action_regressor.py:39-40 | the positions returned are strictly increasing, all within the mask, and are exactly the positions where the mask holds |
| `Indices.RankLocates` | PyPi/approximators/action_regressor.py:59-64 | a selected row `p` sits at index `Rank(mask, p)` of the selected positions, so it is the output slot that row receives |
| `Indices.RankOfSelected` | PyPi/approximators/action_regressor.py:59-64 | conversely, the `j`-th selected position has rank `j` |
| `Indices.GatherAfterScatter` | PyPi/approximators/action_regressor.py:63 | after `out[idxs] = vals` with distinct indices, reading `out[idxs]` gives back `vals` |
| `Indices.ScatterOfGather` | PyPi/approximators/action_regressor.py:63 | writing `out[idxs]` back at `idxs` leaves `out` unchanged |
| `Indices.Scatter` | PyPi/approximators/action_regressor.py:63 | assignment at distinct indices writes `vals[j]` at `idxs[j]`, leaves every other position unchanged and keeps the length |
| `ActionRegressor.MaskIsFirstComparisonColumn` | PyPi/approximators/action_regressor.py:39-40 | a row's routing flag is column 0 of the element-wise comparison of its last `K` columns with the action entry, whatever the other columns of that comparison say |
| `ActionRegressor.Partition` | PyPi/approximators/action_regressor.py:38-40 | the selected row indices are strictly increasing, within the batch, and row `r` is selected if and only if it is routed to the action |
| `ActionRegressor.States` | PyPi/approximators/action_regressor.py:43 | one state slice per selected index, in index order, each of width `C - K` and equal to its row minus the action columns |
| `ActionRegressor.Refit` | PyPi/approximators/action_regressor.py:42-44 | a model none of whose rows is in the batch comes back unchanged (it is not fitted); only the routed rows need targets |
| `ActionRegressor.FitAction` | PyPi/approximators/action_regressor.py:37-44 | one iteration of the fit loop changes at most the model of its own action; table and `actionDim` are kept; with an empty partition nothing changes |
| `ActionRegressor.Fit` | PyPi/approximators/action_regressor.py:28-44 | after the loop every model `i` is `Refit` of its own starting value on its own partition, whatever the processing order; a model with no routed rows is unchanged; table, `actionDim` and bank size are kept |
| `ActionRegressor.LastMatch` | PyPi/approximators/action_regressor.py:57-63 | the greatest table index below the bound that routes the row, if any; none exactly when no such entry routes it |
| `ActionRegressor.LastMatchIsLastRoute` | PyPi/approximators/action_regressor.py:57-63 | an entry that routes the row, with no later entry routing it, is the one whose write survives |
| `ActionRegressor.ActionPredictions` | PyPi/approximators/action_regressor.py:62-64 | for an action with a non-empty partition (the only case in which the model is asked), the model's output on the partition's state slices has one value per partition row |
| `ActionRegressor.Predicted` | PyPi/approximators/action_regressor.py:56 | the per-row reference prediction has one value per batch row (its values are stated by `UnroutedRowPredictsZero` and `LastRoutingActionDecides`) |
| `ActionRegressor.Overwrite` | PyPi/approximators/action_regressor.py:58-64 | the loop body for one action keeps the prediction vector's length |
| `ActionRegressor.OverwriteRow` | PyPi/approximators/action_regressor.py:57-64 | for one row: if it held the per-row reference for the actions below `i`, after action `i`'s write it holds the reference for those below `i + 1` (written if routed to `i`, untouched otherwise) |
| `ActionRegressor.OverwriteAdvances` | PyPi/approximators/action_regressor.py:57-64 | the same for every row at once: each iteration advances the per-row reference by one action |
| `ActionRegressor.Predict` | PyPi/approximators/action_regressor.py:46-66 | the zero-initialised, action-by-action scatter returns one value per input row, equal to the per-row reference; a row matched by no entry gets 0.0 |
| `RoutingProperties.PartitionIsRoutedRowsAscending` | PyPi/approximators/action_regressor.py:38-40 | any ascending list of exactly the routed rows is the partition, so the partition is the routed rows in row order |
| `RoutingProperties.TargetPerRowCovers` | PyPi/approximators/action_regressor.py:43 | one target per batch row is enough for `y[idxs]` to find a target for every routed row |
| `RoutingProperties.FitReceivesRoutedRows` | PyPi/approximators/action_regressor.py:42-44 | a model with routed rows is fitted on `states[j]`, `targets[j]` both taken from the `j`-th routed row in ascending order, and on nothing else |
| `RoutingProperties.UnroutedRowPredictsZero` | PyPi/approximators/action_regressor.py:56-64 | a row whose first action column matches no entry's first component is predicted 0.0 |
| `RoutingProperties.LastRoutingActionDecides` | PyPi/approximators/action_regressor.py:57-64 | the `j`-th row of action `i`'s partition gets the `j`-th output of action `i`'s model when no later entry routes it |
| `RoutingProperties.RowPredictionOfLastRoute` | PyPi/approximators/action_regressor.py:57-64 | the per-row reference for the `j`-th row of action `i`'s partition is action `i`'s `j`-th output when no later entry routes the row |
| `RoutingProperties.PartitionsDisjoint` | PyPi/approximators/action_regressor.py:59-60 | when table entries have distinct first components, no row lies in two actions' partitions |
| `RoutingProperties.SharedFirstComponentSamePartition` | PyPi/approximators/action_regressor.py:39-40 | two entries with the same first component have the same partition, whatever their other components |
| `RoutingProperties.RoutedRowPredictedByItsModel` | PyPi/approximators/action_regressor.py:57-64 | with distinct first components, every routed row is predicted by the one model it is routed to |
| `RoutingProperties.SingleColumnTableIsDistinct` | PyPi/approximators/action_regressor.py:21-22 | a one-column table of distinct actions has distinct first components |
| `Scenarios.TwoActionPartitions` | PyPi/approximators/action_regressor.py:37-40 | with actions 0 and 1, rows 0 and 2 of the example batch go to action 0 and row 1 to action 1 |
| `Scenarios.TwoActionSlices` | PyPi/approximators/action_regressor.py:43 | the example partitions carry state rows [[1,2],[5,6]] with targets [10,30], and [[3,4]] with target [20] |
| `Scenarios.TwoActionFit` | PyPi/approximators/action_regressor.py:37-44 | fitting the example batch trains model 0 on [[1,2],[5,6]] / [10,30] and model 1 on [[3,4]] / [20] |
| `Scenarios.TwoActionPredict` | PyPi/approximators/action_regressor.py:56-66 | with any two models `m0`, `m1`, predicting the example batch gives rows 0 and 2 the two outputs of `m0` on [[1,2],[5,6]] and row 1 the output of `m1` on [[3,4]] |
| `Scenarios.TwoActionRowsOfAction0` | PyPi/approximators/action_regressor.py:57-64 | in the example, rows 0 and 2 take action 0's two outputs, in that order |
| `Scenarios.TwoActionRowOfAction1` | PyPi/approximators/action_regressor.py:57-64 | in the example, row 1 takes action 1's single output |
| `Scenarios.TwoActionOutputs` | PyPi/approximators/action_regressor.py:62-64 | in the example, model `m0` is asked about [[1,2],[5,6]] and model `m1` about [[3,4]] |
| `Scenarios.TwoActionFittedBank` | PyPi/approximators/action_regressor.py:37-44 | a bank whose models are the prototype refitted on the example batch is model 0 trained on [[1,2],[5,6]] / [10,30] and model 1 trained on [[3,4]] / [20] |
| `Scenarios.FitThenPredict` | PyPi/approximators/action_regressor.py:28-66 | constructing, fitting and predicting on the example batch: the fitted bank holds the two trained models, and each row is predicted by the model trained on its own action's rows |
| `Scenarios.UnknownActionPredictsZero` | PyPi/approximators/action_regressor.py:56-64 | a row with action 2, absent from the table, predicts 0.0 whatever its state columns |
| `Scenarios.SharedPartitions` | PyPi/approximators/action_regressor.py:59-60 | with entries (0,1) and (0,2), the row with state 7 and action (0,1) lies in both partitions, with state slice [7] |
| `Scenarios.SharedFirstComponentOverlaps` | PyPi/approximators/action_regressor.py:57-64 | with entries (0,1) and (0,2) and models `m0`, `m1`, a row with action (0,1) lies in both partitions and its prediction is the output of the later entry's model `m1` |

## Left out

- `__str__` (diagnostic text built from the first model) is not modelled; it has no effect on routing.
- The deep copy of the prototype is not modelled as an operation: the bank is a sequence of values, so copies are independent by construction.
- The `**fit_params` keyword arguments are not modelled; they are passed unchanged to every model's fit and play no part in routing.
- Estimator internals are not modelled: fit and predict are function parameters, and estimator failures (which the code lets propagate) do not arise.
- Floating point and numpy broadcasting are not modelled: action values are compared by exact equality over an arbitrary element type, and targets and predictions are `real`.
- `ActionRegressor.Predict` and the lemmas about `Predicted` assume (`Regressor.RowAligned`) that a model's predict, when the code calls it, returns one value per row it is given; numpy would reject a different length, or broadcast a single value, and neither is modelled.
- `ActionRegressor.Fit` requires (`Regressor.TargetsCover`) a target for every routed row; a target vector too short for some routed row makes `y[idxs]` raise an index error, and that error is not modelled.
- Shape errors are not modelled: the code raises none of its own. A non-rectangular batch, an empty action row or a batch narrower than `K` are excluded by preconditions.
- Targets are a vector of reals; multi-column targets are not modelled.
- The order-preservation law under a permutation of the batch is not modelled: it depends on the estimator predicting row by row, which an abstract estimator does not promise.
