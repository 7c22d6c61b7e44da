/**
 This module models the two-dimensional arrays the action regressor works on:
 the table of discrete actions and the batch of (state, action) rows.
 */
module Matrices {

  /** A two-dimensional array with `cols` columns, stored row by row.
      `cols` is kept separately so that a table with no rows still has a
      column count, as a numpy array of shape (0, K) does. */
  datatype Matrix<T> = Matrix(rows: seq<seq<T>>, cols: nat)
  {
    /** Every row has exactly `cols` entries. */
    predicate Rectangular()
    {
      forall r :: 0 <= r < |rows| ==> |rows[r]| == cols
    }
  }

  /** The state part of a row whose last `k` entries encode the action:
      the leading `|row| - k` entries. For `k >= 1`, the only case the
      router uses, this is the slice `row[:-k]` (which for `k == 0` would
      be empty rather than the whole row). */
  function StateSlice<T>(row: seq<T>, k: nat): (s: seq<T>)
    requires k <= |row|
    ensures |s| + k == |row|
    ensures s + row[|row| - k..] == row
  {
    row[..|row| - k]
  }
}
