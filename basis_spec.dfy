/** What the basis selection computes: the flat positions a boolean mask selects, the
    set of whole points those positions touch, and the column subsampling of a mask. */
module BasisSpec {
  import opened IndexMap
  import opened SortedSeqs

  /** A boolean matrix of `rows` dimensions by `cols` points, stored column-major (cols * rows entries) like
      `SGMatrix<bool>`: entry (dimension r, point c) is `cells[c * rows + r]`, so the flat
      position of an entry is exactly its IndexMap encoding. */
  datatype Mask = Mask(rows: nat, cols: nat, cells: seq<bool>) {
    predicate WellFormed()
    {
      |cells| == cols * rows
    }
  }

  /** The positions p < n with `cells[p]` true, in the order an ascending scan meets them. */
  function MaskedPositions(cells: seq<bool>, n: nat): seq<nat>
    requires n <= |cells|
  {
    if n == 0 then []
    else MaskedPositions(cells, n - 1) + (if cells[n - 1] then [n - 1] else [])
  }

  lemma {:induction false} MaskedPositionsIncreasing(cells: seq<bool>, n: nat)
    requires n <= |cells|
    ensures StrictlyIncreasing(MaskedPositions(cells, n))
    ensures forall k :: 0 <= k < |MaskedPositions(cells, n)| ==> MaskedPositions(cells, n)[k] < n
  {
    if n > 0 {
      MaskedPositionsIncreasing(cells, n - 1);
    }
  }

  lemma {:induction false} MaskedPositionsMembers(cells: seq<bool>, n: nat)
    requires n <= |cells|
    ensures forall p: nat :: p in MaskedPositions(cells, n) <==> p < n && cells[p]
  {
    if n > 0 {
      MaskedPositionsMembers(cells, n - 1);
    }
  }

  lemma {:induction false} MaskedPositionsCount(cells: seq<bool>, n: nat)
    requires n <= |cells|
    ensures |MaskedPositions(cells, n)| == multiset(cells[..n])[true]
  {
    if n > 0 {
      MaskedPositionsCount(cells, n - 1);
      assert cells[..n] == cells[..n - 1] + [cells[n - 1]];
    }
  }

  /** The selected positions are exactly the true entries below n, strictly increasing,
      one per true entry. */
  lemma {:induction false} MaskedPositionsSpec(cells: seq<bool>, n: nat)
    requires n <= |cells|
    ensures StrictlyIncreasing(MaskedPositions(cells, n))
    ensures forall p: nat :: p in MaskedPositions(cells, n) <==> p < n && cells[p]
    ensures forall k :: 0 <= k < |MaskedPositions(cells, n)| ==> MaskedPositions(cells, n)[k] < n
    ensures |MaskedPositions(cells, n)| == multiset(cells[..n])[true]
  {
    MaskedPositionsIncreasing(cells, n);
    MaskedPositionsMembers(cells, n);
    MaskedPositionsCount(cells, n);
  }

  /** The set of points touched by the first n flat indices. */
  function PointSet(inds: seq<nat>, D: nat, n: nat): set<nat>
    requires D >= 1 && n <= |inds|
  {
    if n == 0 then {} else PointSet(inds, D, n - 1) + {IdxToAi(inds[n - 1], D).0}
  }

  /** The points touched by a list of flat basis indices. */
  function Points(inds: seq<nat>, D: nat): set<nat>
    requires D >= 1
  {
    PointSet(inds, D, |inds|)
  }

  /** A point is touched exactly when one of the indices decodes to it. */
  lemma {:induction false} PointSetMembership(inds: seq<nat>, D: nat, n: nat, a: nat)
    requires D >= 1 && n <= |inds|
    ensures a in PointSet(inds, D, n) <==> exists k :: 0 <= k < n && IdxToAi(inds[k], D).0 == a
  {
    if n > 0 {
      PointSetMembership(inds, D, n - 1, a);
    }
  }

  /** Indices below N * D touch only points below N. */
  lemma PointsBelow(inds: seq<nat>, D: nat, N: nat)
    requires D >= 1
    requires forall k :: 0 <= k < |inds| ==> inds[k] < N * D
    ensures forall a :: a in Points(inds, D) ==> a < N
  {
    forall a | a in Points(inds, D) ensures a < N {
      PointSetMembership(inds, D, |inds|, a);
      var k :| 0 <= k < |inds| && IdxToAi(inds[k], D).0 == a;
      PointBelow(inds[k], N, D);
    }
  }

  /** Where flat position p of a mask reduced to the columns `keep` is read from in `m`. */
  function SourcePosition(m: Mask, keep: seq<nat>, p: nat): (q: nat)
    requires m.WellFormed() && m.rows >= 1
    requires forall c :: 0 <= c < |keep| ==> keep[c] < m.cols
    requires p < |keep| * m.rows
    ensures q < |m.cells|
  {
    var ai := IdxToAi(p, m.rows);
    PointBelow(p, |keep|, m.rows);
    FlatBelow(keep[ai.0], ai.1, m.cols, m.rows);
    AiToIdx(keep[ai.0], ai.1, m.rows)
  }

  /** `subsample_matrix_cols` on a mask: keeps the columns listed in `keep`, in that order. */
  function SubsampleCols(m: Mask, keep: seq<nat>): (r: Mask)
    requires m.WellFormed() && m.rows >= 1
    requires forall c :: 0 <= c < |keep| ==> keep[c] < m.cols
    ensures r.WellFormed() && r.rows == m.rows && r.cols == |keep|
  {
    Mask(m.rows, |keep|,
      seq(|keep| * m.rows, p requires 0 <= p < |keep| * m.rows => m.cells[SourcePosition(m, keep, p)]))
  }

  /** Entry (r, c) of the reduced mask is entry (r, keep[c]) of the original. */
  lemma SubsampledEntry(m: Mask, keep: seq<nat>, c: nat, r: nat)
    requires m.WellFormed() && m.rows >= 1
    requires forall k :: 0 <= k < |keep| ==> keep[k] < m.cols
    requires c < |keep| && r < m.rows
    ensures AiToIdx(c, r, m.rows) < |SubsampleCols(m, keep).cells|
    ensures AiToIdx(keep[c], r, m.rows) < |m.cells|
    ensures SubsampleCols(m, keep).cells[AiToIdx(c, r, m.rows)] == m.cells[AiToIdx(keep[c], r, m.rows)]
  {
    FlatBelow(c, r, |keep|, m.rows);
    FlatBelow(keep[c], r, m.cols, m.rows);
    AiToIdxRoundTrip(c, r, m.rows);
  }

  /** A touched point has a selected component. */
  lemma TouchedHasSelectedEntry(m: Mask, a: nat) returns (r: nat)
    requires m.WellFormed() && m.rows >= 1
    requires a in Points(MaskedPositions(m.cells, |m.cells|), m.rows)
    ensures r < m.rows && AiToIdx(a, r, m.rows) < |m.cells| && m.cells[AiToIdx(a, r, m.rows)]
  {
    var sel := MaskedPositions(m.cells, |m.cells|);
    PointSetMembership(sel, m.rows, |sel|, a);
    var k :| 0 <= k < |sel| && IdxToAi(sel[k], m.rows).0 == a;
    MaskedPositionsSpec(m.cells, |m.cells|);
    assert sel[k] in sel;
    r := IdxToAi(sel[k], m.rows).1;
  }

  /** A point with a selected component is touched. */
  lemma SelectedEntryTouches(m: Mask, a: nat, r: nat)
    requires m.WellFormed() && m.rows >= 1
    requires r < m.rows && AiToIdx(a, r, m.rows) < |m.cells| && m.cells[AiToIdx(a, r, m.rows)]
    ensures a in Points(MaskedPositions(m.cells, |m.cells|), m.rows)
  {
    var sel := MaskedPositions(m.cells, |m.cells|);
    var q := AiToIdx(a, r, m.rows);
    MaskedPositionsSpec(m.cells, |m.cells|);
    assert q in sel;
    var k :| 0 <= k < |sel| && sel[k] == q;
    AiToIdxRoundTrip(a, r, m.rows);
    PointSetMembership(sel, m.rows, |sel|, a);
  }

  /** When `keep` lists only touched points, every column of the reduced mask is touched:
      the reduction leaves no point without a selected component. */
  lemma SubsampledMaskColumnTouched(m: Mask, keep: seq<nat>, c: nat)
    requires m.WellFormed() && m.rows >= 1
    requires forall k :: 0 <= k < |keep| ==> keep[k] < m.cols
    requires forall k :: 0 <= k < |keep| ==> keep[k] in Points(MaskedPositions(m.cells, |m.cells|), m.rows)
    requires c < |keep|
    ensures c in Points(MaskedPositions(SubsampleCols(m, keep).cells, |SubsampleCols(m, keep).cells|), m.rows)
  {
    var r := TouchedHasSelectedEntry(m, keep[c]);
    SubsampledEntry(m, keep, c, r);
    SelectedEntryTouches(SubsampleCols(m, keep), c, r);
  }

  /** Every point of the mask has at least one selected component. */
  ghost predicate EveryColumnTouched(m: Mask)
    requires m.WellFormed() && m.rows >= 1
  {
    forall a: nat :: a < m.cols ==> a in Points(MaskedPositions(m.cells, |m.cells|), m.rows)
  }

  /** The members of `s` below `n`, ascending. */
  function Below(s: set<nat>, n: nat): (r: seq<nat>)
    ensures StrictlyIncreasing(r)
    ensures forall k :: 0 <= k < |r| ==> r[k] < n
  {
    if n == 0 then []
    else Below(s, n - 1) + (if n - 1 in s then [n - 1] else [])
  }

  /** The members of `s` below `n` are exactly those listed. */
  lemma {:induction false} BelowMembers(s: set<nat>, n: nat)
    ensures forall a :: a in Below(s, n) <==> a < n && a in s
  {
    if n > 0 {
      BelowMembers(s, n - 1);
    }
  }

  /** The columns of a mask that hold at least one true entry, ascending: the points the
      data-only constructor keeps. */
  function TouchedColumns(m: Mask): (r: seq<nat>)
    requires m.WellFormed() && m.rows >= 1
    ensures StrictlyIncreasing(r)
    ensures forall k :: 0 <= k < |r| ==> r[k] < m.cols
    ensures forall a :: a in r <==> a < m.cols && a in Points(MaskedPositions(m.cells, |m.cells|), m.rows)
  {
    BelowMembers(Points(MaskedPositions(m.cells, |m.cells|), m.rows), m.cols);
    Below(Points(MaskedPositions(m.cells, |m.cells|), m.rows), m.cols)
  }

  /** Keeping every column, in order, leaves a mask unchanged. */
  lemma SubsampleAllColumns(m: Mask, keep: seq<nat>)
    requires m.WellFormed() && m.rows >= 1
    requires |keep| == m.cols
    requires forall c :: 0 <= c < |keep| ==> keep[c] == c
    ensures SubsampleCols(m, keep) == m
  {
    var r := SubsampleCols(m, keep);
    forall p | 0 <= p < |m.cells| ensures r.cells[p] == m.cells[p] {
      var ai := IdxToAi(p, m.rows);
      PointBelow(p, m.cols, m.rows);
    }
  }

  /** Any ascending, duplicate-free list of exactly the touched points is TouchedColumns. */
  lemma TouchedColumnsUnique(m: Mask, pts: seq<nat>)
    requires m.WellFormed() && m.rows >= 1
    requires StrictlyIncreasing(pts)
    requires forall a :: a in pts <==> a in Points(MaskedPositions(m.cells, |m.cells|), m.rows)
    ensures pts == TouchedColumns(m)
  {
    var sel := MaskedPositions(m.cells, |m.cells|);
    MaskedPositionsSpec(m.cells, |m.cells|);
    PointsBelow(sel, m.rows, m.cols);
    SameMembersIncreasingEqual(pts, TouchedColumns(m));
  }

  /** When every column is touched, TouchedColumns keeps every column and the reduction
      leaves the mask unchanged. */
  lemma AllColumnsTouched(m: Mask)
    requires m.WellFormed() && m.rows >= 1
    requires |TouchedColumns(m)| == m.cols
    ensures forall c :: 0 <= c < m.cols ==> TouchedColumns(m)[c] == c
    ensures EveryColumnTouched(m)
    ensures SubsampleCols(m, TouchedColumns(m)) == m
  {
    var keep := TouchedColumns(m);
    IncreasingBelowIsRange(keep, m.cols);
    forall a: nat | a < m.cols ensures a in Points(MaskedPositions(m.cells, |m.cells|), m.rows) {
      assert keep[a] == a;
    }
    SubsampleAllColumns(m, keep);
  }

  /** When some column is untouched, TouchedColumns is shorter than the column count. */
  lemma SomeColumnUntouched(m: Mask)
    requires m.WellFormed() && m.rows >= 1
    requires |TouchedColumns(m)| != m.cols
    ensures !EveryColumnTouched(m)
  {
    if EveryColumnTouched(m) {
      CoversBelow(TouchedColumns(m), m.cols);
      assert false;
    }
  }

  /** Every column of the mask reduced to its touched columns is touched. */
  lemma ReducedMaskFullyTouched(m: Mask)
    requires m.WellFormed() && m.rows >= 1
    ensures var r := SubsampleCols(m, TouchedColumns(m));
            forall c :: 0 <= c < r.cols ==> c in Points(MaskedPositions(r.cells, |r.cells|), r.rows)
  {
    var keep := TouchedColumns(m);
    forall c | 0 <= c < |keep|
      ensures c in Points(MaskedPositions(SubsampleCols(m, keep).cells, |SubsampleCols(m, keep).cells|), m.rows)
    {
      SubsampledMaskColumnTouched(m, keep, c);
    }
  }

  // ---------------------------------------------------------------- selected-entry counts

  /** Entry (dimension r, point c) of a mask. */
  function Entry(m: Mask, c: nat, r: nat): bool
    requires m.WellFormed() && c < m.cols && r < m.rows
  {
    FlatBelow(c, r, m.cols, m.rows);
    m.cells[AiToIdx(c, r, m.rows)]
  }

  /** The entries of column c (the components of point c). */
  function ColumnCells(m: Mask, c: nat): (col: seq<bool>)
    requires m.WellFormed() && c < m.cols
    ensures |col| == m.rows
  {
    seq(m.rows, r requires 0 <= r < m.rows => Entry(m, c, r))
  }

  /** The number of selected components of each point. */
  function ColumnCounts(m: Mask): (counts: seq<nat>)
    requires m.WellFormed()
    ensures |counts| == m.cols
  {
    seq(m.cols, c requires 0 <= c < m.cols => multiset(ColumnCells(m, c))[true])
  }

  /** counts[0] + ... + counts[n - 1]. */
  function SumPrefix(counts: seq<nat>, n: nat): nat
    requires n <= |counts|
  {
    if n == 0 then 0 else SumPrefix(counts, n - 1) + counts[n - 1]
  }

  /** The sum of counts[k] over the k listed in `ks` (an index outside `counts` adds
      nothing). */
  function SumAt(counts: seq<nat>, ks: seq<nat>): nat
  {
    if ks == [] then 0
    else SumAt(counts, ks[..|ks| - 1]) + (if ks[|ks| - 1] < |counts| then counts[ks[|ks| - 1]] else 0)
  }

  /** Column c occupies the flat positions c * rows up to (c + 1) * rows. */
  lemma ColumnSlice(m: Mask, c: nat)
    requires m.WellFormed() && c < m.cols
    ensures c * m.rows + m.rows == (c + 1) * m.rows <= |m.cells|
    ensures m.cells[c * m.rows .. c * m.rows + m.rows] == ColumnCells(m, c)
  {
    MulMonotone(c + 1, m.cols, m.rows);
    var lo := c * m.rows;
    forall j | 0 <= j < m.rows ensures m.cells[lo + j] == ColumnCells(m, c)[j] {
      assert AiToIdx(c, j, m.rows) == lo + j;
    }
  }

  /** The first k columns hold the true entries of the first k - 1 columns and those of
      column k - 1. */
  lemma PrefixStep(m: Mask, k: nat)
    requires m.WellFormed() && 1 <= k <= m.cols
    ensures (k - 1) * m.rows <= k * m.rows <= |m.cells|
    ensures multiset(m.cells[..k * m.rows])[true]
         == multiset(m.cells[..(k - 1) * m.rows])[true] + ColumnCounts(m)[k - 1]
  {
    ColumnSlice(m, k - 1);
    var lo, hi := (k - 1) * m.rows, k * m.rows;
    assert m.cells[..hi] == m.cells[..lo] + m.cells[lo..hi];
    assert multiset(m.cells[..hi]) == multiset(m.cells[..lo]) + multiset(ColumnCells(m, k - 1));
  }

  /** Counting the first k columns entry by entry or column by column agrees. */
  lemma {:induction false} PrefixCount(m: Mask, k: nat)
    requires m.WellFormed() && k <= m.cols
    ensures k * m.rows <= |m.cells|
    ensures multiset(m.cells[..k * m.rows])[true] == SumPrefix(ColumnCounts(m), k)
  {
    if k == 0 {
      assert m.cells[..0 * m.rows] == [];
    } else {
      PrefixCount(m, k - 1);
      PrefixStep(m, k);
    }
  }

  /** Column c of the reduced mask is column keep[c] of the original. */
  lemma ReducedColumn(m: Mask, keep: seq<nat>, c: nat)
    requires m.WellFormed() && m.rows >= 1
    requires forall k :: 0 <= k < |keep| ==> keep[k] < m.cols
    requires c < |keep|
    ensures ColumnCells(SubsampleCols(m, keep), c) == ColumnCells(m, keep[c])
  {
    forall r | 0 <= r < m.rows
      ensures ColumnCells(SubsampleCols(m, keep), c)[r] == ColumnCells(m, keep[c])[r]
    {
      SubsampledEntry(m, keep, c, r);
    }
  }

  lemma {:induction false} ReducedPrefix(m: Mask, keep: seq<nat>, k: nat)
    requires m.WellFormed() && m.rows >= 1
    requires forall i :: 0 <= i < |keep| ==> keep[i] < m.cols
    requires k <= |keep|
    ensures SumPrefix(ColumnCounts(SubsampleCols(m, keep)), k) == SumAt(ColumnCounts(m), keep[..k])
  {
    if k > 0 {
      ReducedPrefix(m, keep, k - 1);
      ReducedColumn(m, keep, k - 1);
      assert keep[..k][..k - 1] == keep[..k - 1];
    }
  }

  /** A point with no selected component contributes nothing to the count. */
  lemma UntouchedColumnEmpty(m: Mask, c: nat)
    requires m.WellFormed() && m.rows >= 1 && c < m.cols
    requires c !in Points(MaskedPositions(m.cells, |m.cells|), m.rows)
    ensures ColumnCounts(m)[c] == 0
  {
    forall r | 0 <= r < m.rows ensures !ColumnCells(m, c)[r] {
      if Entry(m, c, r) {
        FlatBelow(c, r, m.cols, m.rows);
        SelectedEntryTouches(m, c, r);
        assert false;
      }
    }
    assert true !in ColumnCells(m, c);
  }

  /** Appending an index adds its count. */
  lemma SumAtSnoc(counts: seq<nat>, ks: seq<nat>, k: nat)
    requires k < |counts|
    ensures SumAt(counts, ks + [k]) == SumAt(counts, ks) + counts[k]
  {
    assert (ks + [k])[..|ks|] == ks;
  }

  /** Summing over the members of s below n, ascending, is summing over every index below
      n when the indices outside s count nothing. */
  lemma {:induction false} BelowSum(counts: seq<nat>, s: set<nat>, n: nat)
    requires n <= |counts|
    requires forall c: nat :: c < n && c !in s ==> counts[c] == 0
    ensures SumAt(counts, Below(s, n)) == SumPrefix(counts, n)
  {
    if n > 0 {
      BelowSum(counts, s, n - 1);
      var prev := Below(s, n - 1);
      var total := SumPrefix(counts, n - 1) + counts[n - 1];
      if n - 1 in s {
        assert Below(s, n) == prev + [n - 1];
        SumAtSnoc(counts, prev, n - 1);
        assert SumAt(counts, Below(s, n)) == total;
      } else {
        assert Below(s, n) == prev;
        assert counts[n - 1] == 0;
        assert SumAt(counts, Below(s, n)) == total;
      }
    }
  }

  /** Reducing a mask to its touched columns keeps every selected component: only points
      without one are dropped. */
  lemma ReductionKeepsSelectedCount(m: Mask)
    requires m.WellFormed() && m.rows >= 1
    ensures multiset(SubsampleCols(m, TouchedColumns(m)).cells)[true] == multiset(m.cells)[true]
    ensures var r := SubsampleCols(m, TouchedColumns(m));
            |MaskedPositions(r.cells, |r.cells|)| == multiset(m.cells)[true]
  {
    var touched := Points(MaskedPositions(m.cells, |m.cells|), m.rows);
    var keep := TouchedColumns(m);
    var r := SubsampleCols(m, keep);
    PrefixCount(r, |keep|);
    assert r.cells[..|keep| * m.rows] == r.cells;
    ReducedPrefix(m, keep, |keep|);
    assert keep[..|keep|] == keep;
    forall c: nat | c < m.cols && c !in touched ensures ColumnCounts(m)[c] == 0 {
      UntouchedColumnEmpty(m, c);
    }
    BelowSum(ColumnCounts(m), touched, m.cols);
    PrefixCount(m, m.cols);
    assert m.cells[..m.cols * m.rows] == m.cells;
    MaskedPositionsCount(r.cells, |r.cells|);
    assert r.cells[..|r.cells|] == r.cells;
  }
}
