/**
 Index bookkeeping used by the router: turning a boolean mask into the
 ascending list of selected positions, gathering the entries at such a list,
 and scattering values back to those positions.
 */
module Indices {

  /** Strictly increasing, hence free of repetitions. */
  predicate Increasing(s: seq<nat>)
  {
    forall j1, j2 :: 0 <= j1 < j2 < |s| ==> s[j1] < s[j2]
  }

  predicate Distinct<V(==)>(s: seq<V>)
  {
    forall j1, j2 :: 0 <= j1 < j2 < |s| ==> s[j1] != s[j2]
  }

  predicate InRange(idxs: seq<nat>, n: nat)
  {
    forall j :: 0 <= j < |idxs| ==> idxs[j] < n
  }

  /** The positions at which `mask` holds, in ascending order, as
      `np.argwhere(mask).ravel()` returns them for a one-dimensional mask. */
  function ArgWhere(mask: seq<bool>): (idxs: seq<nat>)
    ensures Increasing(idxs)
    ensures forall j :: 0 <= j < |idxs| ==> idxs[j] < |mask| && mask[idxs[j]]
    ensures forall p :: 0 <= p < |mask| && mask[p] ==> p in idxs
    decreases |mask|
  {
    if |mask| == 0 then []
    else
      var front := ArgWhere(mask[..|mask| - 1]);
      if mask[|mask| - 1] then front + [|mask| - 1] else front
  }

  /** The number of selected positions strictly before `p`: where `p`
      sits in `ArgWhere(mask)` when `mask[p]` holds. */
  function Rank(mask: seq<bool>, p: nat): nat
    requires p <= |mask|
  {
    |ArgWhere(mask[..p])|
  }

  /** The selected positions of a prefix of the mask are a prefix of the
      selected positions of the whole mask. */
  lemma {:induction false} ArgWherePrefix(mask: seq<bool>, p: nat)
    requires p <= |mask|
    ensures ArgWhere(mask[..p]) <= ArgWhere(mask)
    decreases |mask| - p
  {
    if p < |mask| {
      var init := mask[..|mask| - 1];
      assert init[..p] == mask[..p];
      ArgWherePrefix(init, p);
    } else {
      assert mask[..p] == mask;
    }
  }

  /** `Rank` locates a selected position inside `ArgWhere`. */
  lemma RankLocates(mask: seq<bool>, p: nat)
    requires p < |mask| && mask[p]
    ensures Rank(mask, p) < |ArgWhere(mask)|
    ensures ArgWhere(mask)[Rank(mask, p)] == p
  {
    var upTo := mask[..p + 1];
    assert upTo[..|upTo| - 1] == mask[..p];
    assert ArgWhere(upTo) == ArgWhere(mask[..p]) + [p];
    ArgWherePrefix(mask, p + 1);
  }

  /** Conversely, the `j`-th selected position has rank `j`. */
  lemma RankOfSelected(mask: seq<bool>, j: nat)
    requires j < |ArgWhere(mask)|
    ensures ArgWhere(mask)[j] < |mask|
    ensures Rank(mask, ArgWhere(mask)[j]) == j
  {
    var idxs := ArgWhere(mask);
    RankLocates(mask, idxs[j]);
  }

  lemma EmptyIffNoMember(s: seq<nat>)
    ensures |s| == 0 <==> forall p :: p !in s
  {
    if |s| > 0 {
      assert s[0] in s;
    }
  }

  /** A set of positions has only one ascending enumeration: two strictly
      increasing sequences with the same members are equal. */
  lemma {:induction false} IncreasingUnique(a: seq<nat>, b: seq<nat>)
    requires Increasing(a) && Increasing(b)
    requires forall p :: p in a <==> p in b
    ensures a == b
    decreases |a|
  {
    if |a| == 0 || |b| == 0 {
      EmptyIffNoMember(a);
      EmptyIffNoMember(b);
    } else {
      assert a[0] in b && b[0] in a;
      assert a[0] == b[0];
      forall p
        ensures p in a[1..] <==> p in b[1..]
      {
        assert p in a[1..] <==> p in a && p != a[0];
        assert p in b[1..] <==> p in b && p != b[0];
      }
      IncreasingUnique(a[1..], b[1..]);
    }
  }

  /** The entries of `s` at positions `idxs`, in that order (`s[idxs]`). */
  function Gather<V>(s: seq<V>, idxs: seq<nat>): (g: seq<V>)
    requires InRange(idxs, |s|)
    ensures |g| == |idxs|
    ensures forall j :: 0 <= j < |idxs| ==> g[j] == s[idxs[j]]
  {
    seq(|idxs|, j requires 0 <= j < |idxs| => s[idxs[j]])
  }

  /** `out` with `vals[j]` written at position `idxs[j]` for every `j`
      (the assignment `out[idxs] = vals` with distinct indices). */
  function Scatter<V>(out: seq<V>, idxs: seq<nat>, vals: seq<V>): (r: seq<V>)
    requires |vals| == |idxs|
    requires InRange(idxs, |out|)
    requires Distinct(idxs)
    ensures |r| == |out|
    ensures forall j :: 0 <= j < |idxs| ==> r[idxs[j]] == vals[j]
    ensures forall p :: 0 <= p < |out| && p !in idxs ==> r[p] == out[p]
    decreases |idxs|
  {
    if |idxs| == 0 then out
    else
      var rest := Scatter(out[idxs[0] := vals[0]], idxs[1..], vals[1..]);
      assert forall j :: 1 <= j < |idxs| ==> idxs[j] == idxs[1..][j - 1];
      rest
  }

  /** Reading back the positions just written returns the written values:
      `(out[idxs] = vals)[idxs] == vals`. */
  lemma GatherAfterScatter<V>(out: seq<V>, idxs: seq<nat>, vals: seq<V>)
    requires |vals| == |idxs|
    requires InRange(idxs, |out|)
    requires Distinct(idxs)
    ensures Gather(Scatter(out, idxs, vals), idxs) == vals
  {
  }

  /** Writing back what was read at the same positions changes nothing:
      `out[idxs] = out[idxs]` leaves `out` as it was. */
  lemma ScatterOfGather<V>(out: seq<V>, idxs: seq<nat>)
    requires InRange(idxs, |out|)
    requires Distinct(idxs)
    ensures Scatter(out, idxs, Gather(out, idxs)) == out
  {
  }
}
