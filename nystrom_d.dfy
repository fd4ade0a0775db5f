/** The per-dimension Nystrom estimator `NystromD`: basis elements are individual
    (point, dimension) components chosen by a boolean mask, and the Gram assembly and the
    evaluators address the kernel derivatives through the decoded basis indices. */
module NystromDEstimator {
  import opened IndexMap
  import opened Kernel
  import opened SortedSeqs
  import opened BasisSpec
  import opened EvalSpec

  /** `h.scale(1.0 / N)` in compute_h: multiplies every entry of the vector in place. */
  method ScaleInPlace(h: array<real>, c: real)
    modifies h
    ensures forall k :: 0 <= k < h.Length ==> h[k] == old(h[k]) * c
  {
    var m := 0;
    while m < h.Length
      invariant 0 <= m <= h.Length
      invariant forall k :: 0 <= k < m ==> h[k] == old(h[k]) * c
      invariant forall k :: m <= k < h.Length ==> h[k] == old(h[k])
    {
      h[m] := h[m] * c;
      m := m + 1;
    }
  }

  /** `subsample_matrix_cols` of the base class on a real matrix: a new D x |keep| matrix
      made of the columns `keep` of `m`, in that order. */
  method SubsampleMatrixCols(keep: seq<nat>, m: array2<real>) returns (r: array2<real>)
    requires forall c :: 0 <= c < |keep| ==> keep[c] < m.Length1
    ensures fresh(r)
    ensures r.Length0 == m.Length0 && r.Length1 == |keep|
    ensures forall i, c :: 0 <= i < r.Length0 && 0 <= c < r.Length1 ==> r[i, c] == m[i, keep[c]]
  {
    r := new real[m.Length0, |keep|];
    var c := 0;
    while c < |keep|
      invariant 0 <= c <= |keep|
      invariant forall i, c' :: 0 <= i < r.Length0 && 0 <= c' < c ==> r[i, c'] == m[i, keep[c']]
    {
      var i := 0;
      while i < m.Length0
        invariant 0 <= i <= m.Length0
        invariant forall i', c' :: 0 <= i' < r.Length0 && 0 <= c' < c ==> r[i', c'] == m[i', keep[c']]
        invariant forall i' :: 0 <= i' < i ==> r[i', c] == m[i', keep[c]]
      {
        r[i, c] := m[i, keep[c]];
        i := i + 1;
      }
      c := c + 1;
    }
  }

  class NystromD {
    const kernel: Derivatives
    const lambda: real
    const lambdaL2: real
    /** D x N training data, one point per column. */
    var data: array2<real>
    /** D x M basis points, one point per column. */
    var basis: array2<real>
    /** `m_basis_inds`: flat (basis point, dimension) indices. */
    var basisInds: seq<nat>
    /** `m_beta`, set by the base class's fit: one coefficient per basis index. */
    var beta: seq<real>

    function NumDimensions(): nat
      reads this
    {
      data.Length0
    }

    function NumData(): nat
      reads this
    {
      data.Length1
    }

    function NumBasis(): nat
      reads this
    {
      basis.Length1
    }

    /** `get_system_size`: one unknown per basis index, so at most one per component of
        the basis space. */
    function GetSystemSize(): (size: nat)
      reads this
      ensures Valid() ==> size <= NumBasis() * NumDimensions()
    {
      assert Valid() ==> |basisInds| <= NumBasis() * NumDimensions() by {
        if Valid() {
          IncreasingBelowLength(basisInds, NumBasis() * NumDimensions());
        }
      }
      |basisInds|
    }

    /** What both constructors establish: at least one dimension, a basis of the data's
        dimension, and ascending, duplicate-free basis indices inside the basis space. */
    ghost predicate Valid()
      reads this
    {
      && NumDimensions() >= 1
      && basis.Length0 == NumDimensions()
      && StrictlyIncreasing(basisInds)
      && forall k :: 0 <= k < |basisInds| ==> basisInds[k] < NumBasis() * NumDimensions()
    }

    /** The evaluators read one coefficient per basis index. */
    predicate Fitted()
      reads this
    {
      |beta| == |basisInds|
    }

    /** `basis_is_subsampled_data`: the basis is the very matrix that holds the data, so
        it has one basis point per data point and the data's dimension. */
    function BasisIsSubsampledData(): (same: bool)
      reads this
      ensures same ==> NumBasis() == NumData() && basis.Length0 == NumDimensions()
    {
      data == basis
    }

    /** Data-only constructor. The basis starts out as the data; when some data point has
        no selected component, the basis and the mask are reduced to the touched columns
        before the basis indices are read off the mask. */
    constructor FromMask(data0: array2<real>, basisMask: Mask, kernel0: Derivatives, lambda0: real, lambdaL20: real)
      requires data0.Length0 >= 1
      requires basisMask.WellFormed() && basisMask.rows == data0.Length0 && basisMask.cols == data0.Length1
      ensures Valid() && beta == []
      ensures data == data0 && kernel == kernel0 && lambda == lambda0 && lambdaL2 == lambdaL20
      ensures BasisIsSubsampledData() <==> EveryColumnTouched(basisMask)
      ensures basis.Length0 == data0.Length0 && basis.Length1 == |TouchedColumns(basisMask)|
      ensures forall i, c :: 0 <= i < basis.Length0 && 0 <= c < basis.Length1 ==> basis[i, c] == data0[i, TouchedColumns(basisMask)[c]]
      ensures var reduced := SubsampleCols(basisMask, TouchedColumns(basisMask));
              basisInds == MaskedPositions(reduced.cells, |reduced.cells|)
      ensures forall c :: 0 <= c < NumBasis() ==> c in Points(basisInds, NumDimensions())
      ensures GetSystemSize() == multiset(basisMask.cells)[true]
    {
      data := data0;
      basis := data0;
      kernel := kernel0;
      lambda := lambda0;
      lambdaL2 := lambdaL20;
      basisInds := [];
      beta := [];
      new;
      var reducedMask;
      basis, reducedMask := SubsampleUnusedPoints(basisMask);
      var unused := SetBasisIndsFromMask(reducedMask);
      MaskedPositionsIncreasing(reducedMask.cells, |reducedMask.cells|);
      assert |reducedMask.cells| == NumBasis() * NumDimensions();
      assert Valid();
      ReducedMaskFullyTouched(basisMask);
      assert forall c :: 0 <= c < reducedMask.cols ==> c in Points(basisInds, reducedMask.rows);
      ReductionKeepsSelectedCount(basisMask);
    }

    /** The first half of the data-only constructor: when the mask leaves some data point
        without a selected component, the basis becomes the touched columns of the data
        and the mask is reduced to the same columns; otherwise the basis is the data. */
    method SubsampleUnusedPoints(basisMask: Mask) returns (newBasis: array2<real>, mask: Mask)
      requires NumDimensions() >= 1
      requires basisMask.WellFormed() && basisMask.rows == NumDimensions() && basisMask.cols == NumData()
      ensures newBasis == data <==> EveryColumnTouched(basisMask)
      ensures newBasis.Length0 == NumDimensions() && newBasis.Length1 == |TouchedColumns(basisMask)|
      ensures forall i, c :: 0 <= i < newBasis.Length0 && 0 <= c < newBasis.Length1 ==>
                newBasis[i, c] == data[i, TouchedColumns(basisMask)[c]]
      ensures mask == SubsampleCols(basisMask, TouchedColumns(basisMask))
    {
      var N := NumData();
      var inds := BasisIndsFromMask(basisMask);
      var pts := GetBasisPointInds(inds);
      TouchedColumnsUnique(basisMask, pts);
      newBasis, mask := data, basisMask;
      if |pts| == N {
        AllColumnsTouched(basisMask);
        assert newBasis == data;
      } else {
        newBasis := SubsampleMatrixCols(pts, data);
        mask := SubsampleCols(basisMask, pts);
        SomeColumnUntouched(basisMask);
        assert newBasis != data;
      }
    }

    /** Constructor with an explicit basis matrix whose components the mask selects. */
    constructor WithBasis(data0: array2<real>, basis0: array2<real>, basisMask: Mask, kernel0: Derivatives, lambda0: real, lambdaL20: real)
      requires data0.Length0 >= 1 && basis0.Length0 == data0.Length0
      requires basisMask.WellFormed() && basisMask.rows == data0.Length0 && basisMask.cols == basis0.Length1
      ensures Valid() && beta == []
      ensures data == data0 && basis == basis0 && kernel == kernel0 && lambda == lambda0 && lambdaL2 == lambdaL20
      ensures basisInds == MaskedPositions(basisMask.cells, |basisMask.cells|)
      ensures GetSystemSize() == multiset(basisMask.cells)[true]
    {
      data := data0;
      basis := basis0;
      kernel := kernel0;
      lambda := lambda0;
      lambdaL2 := lambdaL20;
      basisInds := [];
      beta := [];
      new;
      var unused := SetBasisIndsFromMask(basisMask);
      MaskedPositionsIncreasing(basisMask.cells, |basisMask.cells|);
      MaskedPositionsCount(basisMask.cells, |basisMask.cells|);
      assert basisMask.cells[..|basisMask.cells|] == basisMask.cells;
    }

    /** `set_basis_inds_from_mask`: stores the mask's basis indices and reports, ascending,
        the points below the mask's column count that no basis index touches (the points
        the source warns about). Nothing else changes. */
    method SetBasisIndsFromMask(mask: Mask) returns (unused: seq<nat>)
      requires NumDimensions() >= 1 && mask.WellFormed()
      modifies this`basisInds
      ensures basisInds == MaskedPositions(mask.cells, |mask.cells|)
      ensures StrictlyIncreasing(unused)
      ensures forall a: nat :: a in unused <==> a < mask.cols && a !in Points(basisInds, NumDimensions())
    {
      basisInds := BasisIndsFromMask(mask);
      var pts := GetBasisPointInds(basisInds);
      var allInds: seq<nat> := [];
      var i := 0;
      while i < mask.cols
        invariant 0 <= i <= mask.cols
        invariant |allInds| == i
        invariant forall k :: 0 <= k < i ==> allInds[k] == k
      {
        allInds := allInds + [i];
        i := i + 1;
      }
      assert StrictlyIncreasing(allInds);
      unused := SetDifference(allInds, pts);
      forall a: nat ensures a in unused <==> a < mask.cols && a !in Points(basisInds, NumDimensions()) {
        if a < mask.cols {
          assert allInds[a] == a;
        }
      }
    }

    /** `basis_inds_from_mask`: the flat positions of the true mask entries, ascending. */
    method BasisIndsFromMask(mask: Mask) returns (inds: seq<nat>)
      requires mask.WellFormed()
      ensures inds == MaskedPositions(mask.cells, |mask.cells|)
      ensures StrictlyIncreasing(inds)
      ensures |inds| == multiset(mask.cells)[true]
    {
      var dynamic: seq<nat> := [];
      var i := 0;
      while i < |mask.cells|
        invariant 0 <= i <= |mask.cells|
        invariant dynamic == MaskedPositions(mask.cells, i)
      {
        if mask.cells[i] {
          dynamic := dynamic + [i];
        }
        i := i + 1;
      }
      var a := new nat[|dynamic|](k requires 0 <= k < |dynamic| => dynamic[k]);
      assert a[..] == dynamic;
      SortAscending(a);
      MaskedPositionsSpec(mask.cells, |mask.cells|);
      assert mask.cells[..|mask.cells|] == mask.cells;
      SortedPermutationIsIdentity(dynamic, a[..]);
      inds := a[..];
    }

    /** `get_basis_point_inds`: the distinct points the indices touch, ascending. */
    method GetBasisPointInds(inds: seq<nat>) returns (pts: seq<nat>)
      requires NumDimensions() >= 1
      ensures StrictlyIncreasing(pts)
      ensures forall a :: a in pts <==> a in Points(inds, NumDimensions())
      ensures forall a :: a in pts <==> exists k :: 0 <= k < |inds| && IdxToAi(inds[k], NumDimensions()).0 == a
    {
      var D := NumDimensions();
      var s: set<nat> := {};
      var i := 0;
      while i < |inds|
        invariant 0 <= i <= |inds|
        invariant s == PointSet(inds, D, i)
      {
        var ai := IdxToAi(inds[i], D);
        s := s + {ai.0};
        i := i + 1;
      }
      pts := SortedElements(s);
      forall a ensures a in pts <==> exists k :: 0 <= k < |inds| && IdxToAi(inds[k], D).0 == a {
        PointSetMembership(inds, D, |inds|, a);
      }
    }

    /** `compute_G_mm`: the S x S Gram matrix of the basis indices. */
    method ComputeGmm() returns (G: array2<real>)
      requires NumDimensions() >= 1
      ensures G.Length0 == GetSystemSize() && G.Length1 == GetSystemSize()
      ensures forall k, l :: 0 <= k < G.Length0 && 0 <= l < G.Length1 ==>
                G[k, l] == GmmCell(kernel, basisInds, NumDimensions(), k, l)
      ensures MixedSymmetric(kernel) ==>
                forall k, l :: 0 <= k < G.Length0 && 0 <= l < G.Length1 ==> G[k, l] == G[l, k]
      ensures fresh(G)
    {
      var S := GetSystemSize();
      var D := NumDimensions();
      G := new real[S, S];
      var l := 0;
      while l < S
        invariant 0 <= l <= S
        invariant forall k', l' :: 0 <= k' < S && 0 <= l' < l ==> G[k', l'] == GmmCell(kernel, basisInds, D, k', l')
      {
        var ai := IdxToAi(basisInds[l], D);
        var k := 0;
        while k < S
          invariant 0 <= k <= S
          invariant forall k', l' :: 0 <= k' < S && 0 <= l' < l ==> G[k', l'] == GmmCell(kernel, basisInds, D, k', l')
          invariant forall k' :: 0 <= k' < k ==> G[k', l] == GmmCell(kernel, basisInds, D, k', l)
        {
          var bj := IdxToAi(basisInds[k], D);
          G[k, l] := kernel.dxDyComponent(bj.0, ai.0, bj.1, ai.1);
          k := k + 1;
        }
        l := l + 1;
      }
    }

    /** `compute_G_mn`: the S x (N * D) matrix of the basis indices against every flat data
        index. */
    method ComputeGmn() returns (G: array2<real>)
      requires NumDimensions() >= 1
      ensures G.Length0 == GetSystemSize() && G.Length1 == NumData() * NumDimensions()
      ensures forall k, l :: 0 <= k < G.Length0 && 0 <= l < G.Length1 ==>
                G[k, l] == GmnCell(kernel, basisInds, NumDimensions(), k, l)
      ensures fresh(G)
    {
      var D := NumDimensions();
      var S := GetSystemSize();
      var ND := NumData() * D;
      G := new real[S, ND];
      var l := 0;
      while l < ND
        invariant 0 <= l <= ND
        invariant forall k', l' :: 0 <= k' < S && 0 <= l' < l ==> G[k', l'] == GmnCell(kernel, basisInds, D, k', l')
      {
        var ai := IdxToAi(l, D);
        var k := 0;
        while k < S
          invariant 0 <= k <= S
          invariant forall k', l' :: 0 <= k' < S && 0 <= l' < l ==> G[k', l'] == GmnCell(kernel, basisInds, D, k', l')
          invariant forall k' :: 0 <= k' < k ==> G[k', l] == GmnCell(kernel, basisInds, D, k', l)
        {
          var bj := IdxToAi(basisInds[k], D);
          G[k, l] := kernel.dxDyComponent(bj.0, ai.0, bj.1, ai.1);
          k := k + 1;
        }
        l := l + 1;
      }
    }

    /** `subsample_G_mm_from_G_mn`: column l of the result is column basisInds[l] of G_mn.
        Applied to the G_mn that compute_G_mn produces, it is compute_G_mm cell for cell. */
    method SubsampleGmmFromGmn(Gmn: array2<real>) returns (G: array2<real>)
      requires GetSystemSize() <= Gmn.Length0
      requires forall l :: 0 <= l < |basisInds| ==> basisInds[l] < Gmn.Length1
      ensures G.Length0 == GetSystemSize() && G.Length1 == GetSystemSize()
      ensures forall k, l :: 0 <= k < G.Length0 && 0 <= l < G.Length1 ==> G[k, l] == Gmn[k, basisInds[l]]
      ensures NumDimensions() >= 1
              && (forall k, l :: 0 <= k < GetSystemSize() && 0 <= l < Gmn.Length1 ==>
                    Gmn[k, l] == GmnCell(kernel, basisInds, NumDimensions(), k, l))
              ==> forall k, l :: 0 <= k < G.Length0 && 0 <= l < G.Length1 ==>
                    G[k, l] == GmmCell(kernel, basisInds, NumDimensions(), k, l)
      ensures fresh(G)
    {
      var S := GetSystemSize();
      G := new real[S, S];
      var l := 0;
      while l < S
        invariant 0 <= l <= S
        invariant forall k', l' :: 0 <= k' < S && 0 <= l' < l ==> G[k', l'] == Gmn[k', basisInds[l']]
      {
        var k := 0;
        while k < S
          invariant 0 <= k <= S
          invariant forall k', l' :: 0 <= k' < S && 0 <= l' < l ==> G[k', l'] == Gmn[k', basisInds[l']]
          invariant forall k' :: 0 <= k' < k ==> G[k', l] == Gmn[k', basisInds[l]]
        {
          G[k, l] := Gmn[k, basisInds[l]];
          k := k + 1;
        }
        l := l + 1;
      }
      if NumDimensions() >= 1 {
        forall k, l | 0 <= k < S && 0 <= l < S {
          GmnAtBasisColumnIsGmm(kernel, basisInds, NumDimensions(), k, l);
        }
      }
    }

    /** `compute_h`, literally: entry k for k < N_basis * D (so the mask must select every
        component of every basis point), with a middle loop over the N * D flat data
        indices b that only matches basis indices whose POINT index equals b; then scaled
        by 1 / N. */
    method ComputeH() returns (h: array<real>)
      requires NumDimensions() >= 1 && NumData() >= 1
      requires NumBasis() * NumDimensions() <= GetSystemSize()
      ensures h[..] == HVector(kernel, basisInds, NumDimensions(), NumBasis(), NumData())
      ensures fresh(h)
    {
      var D := NumDimensions();
      var NB := NumBasis();
      var N := NumData();
      var S := NB * D;
      var ND := N * D;
      h := MiddleEntries(ND, S);
      ScaleInPlace(h, 1.0 / (N as real));
      ghost var spec := HVector(kernel, basisInds, D, NB, N);
      forall k' | 0 <= k' < S ensures h[k'] == spec[k'] {
      }
      assert h[..] == spec;
    }

    /** The outer loop of `compute_h`: entry k, before scaling, for every k < S. */
    method MiddleEntries(ND: nat, S: nat) returns (h: array<real>)
      requires NumDimensions() >= 1 && S <= GetSystemSize()
      ensures fresh(h) && h.Length == S
      ensures forall k :: 0 <= k < S ==> h[k] == HMiddle(kernel, basisInds, NumDimensions(), k, ND, S)
    {
      h := new real[S](_ => 0.0);
      var k := 0;
      while k < S
        invariant 0 <= k <= S
        invariant forall k' :: 0 <= k' < k ==> h[k'] == HMiddle(kernel, basisInds, NumDimensions(), k', ND, S)
      {
        var entry := HEntry(k, ND, S);
        h[k] := entry;
        k := k + 1;
      }
    }

    /** One entry of `compute_h` before scaling: the loops over the flat data index b and
        the basis index l, adding dx_dy_dy_component(a, b, i, j) whenever basis index l
        decodes to point b and dimension j. */
    method HEntry(k: nat, ND: nat, S: nat) returns (v: real)
      requires NumDimensions() >= 1 && k < S <= GetSystemSize()
      ensures v == HMiddle(kernel, basisInds, NumDimensions(), k, ND, S)
    {
      var D := NumDimensions();
      var ai := IdxToAi(basisInds[k], D);
      v := 0.0;
      var b := 0;
      while b < ND
        invariant 0 <= b <= ND
        invariant v == HMiddle(kernel, basisInds, D, k, b, S)
      {
        var l := 0;
        while l < S
          invariant 0 <= l <= S
          invariant v == HMiddle(kernel, basisInds, D, k, b, S) + HInner(kernel, basisInds, D, k, b, l)
        {
          var temp := IdxToAi(basisInds[l], D);
          if temp.0 != b {
            l := l + 1;
            continue;
          }
          var j := temp.1;
          v := v + kernel.dxDyDyComponent(ai.0, b, ai.1, j);
          l := l + 1;
        }
        b := b + 1;
      }
    }

    /** `log_pdf`: the beta-weighted sum of the kernel gradient components over the basis
        indices; regrouped by basis point it is the sum of beta-segment dot products. */
    method LogPdf(t: nat) returns (r: real)
      requires NumDimensions() >= 1 && Fitted()
      ensures r == LogPdfSum(kernel, basisInds, beta, NumDimensions(), t, GetSystemSize())
      ensures Valid() ==> r == LogPdfByPoint(kernel, basisInds, beta, NumDimensions(), t, NumBasis(), GetSystemSize())
    {
      var D := NumDimensions();
      var S := GetSystemSize();
      r := 0.0;
      var l := 0;
      while l < S
        invariant 0 <= l <= S
        invariant r == LogPdfSum(kernel, basisInds, beta, D, t, l)
      {
        var ai := IdxToAi(basisInds[l], D);
        var gradXxa := kernel.dxComponent(ai.0, t, ai.1);
        r := r + beta[l] * gradXxa;
        l := l + 1;
      }
      if Valid() {
        forall l | 0 <= l < S ensures Pt(basisInds, D, l) < NumBasis() {
          PointBelow(basisInds[l], NumBasis(), D);
        }
        LogPdfRegroupedByPoint(kernel, basisInds, beta, D, t, NumBasis(), S);
      }
    }

    /** `get_beta_for_basis_point`: the D-vector holding, in slot j, the coefficient of the
        basis index (a, j), and zero where (a, j) is not a basis index. */
    method GetBetaForBasisPoint(a: nat) returns (v: array<real>)
      requires NumDimensions() >= 1 && Fitted()
      ensures v.Length == NumDimensions()
      ensures v[..] == BetaForPoint(basisInds, beta, NumDimensions(), a)
      ensures StrictlyIncreasing(basisInds) ==>
                forall j, k :: 0 <= j < v.Length && 0 <= k < |basisInds| && basisInds[k] == AiToIdx(a, j, NumDimensions())
                  ==> v[j] == beta[k]
      ensures forall j :: 0 <= j < v.Length && (forall k :: 0 <= k < |basisInds| ==> basisInds[k] != AiToIdx(a, j, NumDimensions()))
                ==> v[j] == 0.0
      ensures fresh(v)
    {
      var D := NumDimensions();
      var S := GetSystemSize();
      v := new real[D](_ => 0.0);
      var k := 0;
      while k < S
        invariant 0 <= k <= S
        invariant v[..] == BetaUpTo(basisInds, beta, D, a, k)
      {
        var bj := IdxToAi(basisInds[k], D);
        if a != bj.0 {
          k := k + 1;
          continue;
        }
        v[bj.1] := beta[k];
        k := k + 1;
      }
      if StrictlyIncreasing(basisInds) {
        forall j, k' | 0 <= j < D && 0 <= k' < S && basisInds[k'] == AiToIdx(a, j, D) ensures v[j] == beta[k'] {
          BetaSegmentSelected(basisInds, beta, D, a, j, k', S);
        }
      }
      forall j | 0 <= j < D && (forall k' :: 0 <= k' < S ==> basisInds[k'] != AiToIdx(a, j, D)) ensures v[j] == 0.0 {
        BetaSegmentUnselected(basisInds, beta, D, a, j, S);
      }
    }

    /** `grad`: entry i subtracts, for every basis index (a, i), the kernel's Hessian row of
        a against the coefficients of a's basis indices, which is the dot product with a's
        beta vector; a dimension no basis index selects stays zero. */
    method Grad(t: nat) returns (g: array<real>)
      requires NumDimensions() >= 1 && Fitted()
      ensures g[..] == GradVector(kernel, basisInds, beta, NumDimensions(), t)
      ensures fresh(g)
    {
      var D := NumDimensions();
      var S := GetSystemSize();
      g := new real[D](_ => 0.0);
      var l := 0;
      while l < S
        invariant 0 <= l <= S
        invariant forall r :: 0 <= r < D ==> g[r] == GradUpTo(kernel, basisInds, beta, D, t, r, l)
      {
        var ai := IdxToAi(basisInds[l], D);
        var v := SubtractPointTerms(g[ai.1], ai.0, ai.1, t);
        g[ai.1] := v;
        l := l + 1;
      }
      ghost var spec := GradVector(kernel, basisInds, beta, D, t);
      forall r | 0 <= r < D ensures g[r] == spec[r] {
      }
      assert g[..] == spec;
    }

    /** The inner loop of grad for a basis index (a, i): starting from g0, subtracts
        dx_i_dx_j_component(a, t, i, j) * beta[k] for every basis index k = (a, j) of the same
        point. */
    method SubtractPointTerms(g0: real, a: nat, i: nat, t: nat) returns (v: real)
      requires NumDimensions() >= 1 && Fitted()
      ensures v == g0 - PointSum(basisInds, beta, NumDimensions(), a, HessRow(kernel, a, t, i), GetSystemSize())
    {
      var D := NumDimensions();
      var S := GetSystemSize();
      var leftArgHessian := HessRow(kernel, a, t, i);
      v := g0;
      var k := 0;
      while k < S
        invariant 0 <= k <= S
        invariant v == g0 - PointSum(basisInds, beta, D, a, leftArgHessian, k)
      {
        var bj := IdxToAi(basisInds[k], D);
        if a != bj.0 {
          k := k + 1;
          continue;
        }
        var j := bj.1;
        v := v - leftArgHessian(j) * beta[k];
        k := k + 1;
      }
    }

    /** `hessian`: for every basis index (a, i) and every basis index (a, j) of the same
        point, cell (i, j) gains the third-derivative term contracted with a's beta vector.
        Its diagonal is hessian_diag, and a cell (i, j) with no point selected in both i
        and j stays zero. */
    method Hessian(t: nat) returns (H: array2<real>)
      requires NumDimensions() >= 1 && Fitted()
      ensures H.Length0 == NumDimensions() && H.Length1 == NumDimensions()
      ensures forall r, c :: 0 <= r < H.Length0 && 0 <= c < H.Length1 ==>
                H[r, c] == HessUpTo(kernel, basisInds, beta, NumDimensions(), t, r, c, GetSystemSize())
      ensures StrictlyIncreasing(basisInds) ==>
                forall r :: 0 <= r < H.Length0 ==> H[r, r] == DiagUpTo(kernel, basisInds, beta, NumDimensions(), t, r, GetSystemSize())
      ensures forall r, c :: 0 <= r < H.Length0 && 0 <= c < H.Length1
                && (forall l, k :: 0 <= l < GetSystemSize() && 0 <= k < GetSystemSize()
                      && Dim(basisInds, NumDimensions(), l) == r && Dim(basisInds, NumDimensions(), k) == c
                      ==> Pt(basisInds, NumDimensions(), l) != Pt(basisInds, NumDimensions(), k))
                ==> H[r, c] == 0.0
      ensures fresh(H)
    {
      var D := NumDimensions();
      var S := GetSystemSize();
      H := new real[D, D]((_, _) => 0.0);
      var l := 0;
      while l < S
        invariant 0 <= l <= S
        invariant forall r, c :: 0 <= r < D && 0 <= c < D ==> H[r, c] == HessUpTo(kernel, basisInds, beta, D, t, r, c, l)
      {
        var ai := IdxToAi(basisInds[l], D);
        var a, i := ai.0, ai.1;
        var betaA := GetBetaForBasisPoint(a);
        var k := 0;
        while k < S
          invariant 0 <= k <= S
          invariant betaA[..] == BetaForPoint(basisInds, beta, D, a)
          invariant forall r, c :: 0 <= r < D && 0 <= c < D ==>
                      H[r, c] == HessUpTo(kernel, basisInds, beta, D, t, r, c, l)
                                 + (if r == i then HessInner(kernel, basisInds, beta, D, t, l, c, k) else 0.0)
        {
          var bj := IdxToAi(basisInds[k], D);
          if a != bj.0 {
            k := k + 1;
            continue;
          }
          var j := bj.1;
          var betaHessSum := kernel.dxIdxJdxKDotVecComponent(a, t, betaA[..], i, j);
          H[i, j] := H[i, j] + betaHessSum;
          k := k + 1;
        }
        l := l + 1;
      }
      if StrictlyIncreasing(basisInds) {
        forall r | 0 <= r < D {
          HessianDiagIsHessianDiagonal(kernel, basisInds, beta, D, t, r, S);
        }
      }
      forall r, c | 0 <= r < D && 0 <= c < D
        && (forall l', k' :: 0 <= l' < S && 0 <= k' < S && Dim(basisInds, D, l') == r && Dim(basisInds, D, k') == c
              ==> Pt(basisInds, D, l') != Pt(basisInds, D, k'))
        ensures H[r, c] == 0.0
      {
        HessianCellNeedsSharedPoint(kernel, basisInds, beta, D, t, r, c, S);
      }
    }

    /** `hessian_diag`: only the (i, i) terms of hessian; equal to hessian's diagonal. */
    method HessianDiag(t: nat) returns (d: array<real>)
      requires NumDimensions() >= 1 && Fitted()
      ensures d.Length == NumDimensions()
      ensures forall r :: 0 <= r < d.Length ==> d[r] == DiagUpTo(kernel, basisInds, beta, NumDimensions(), t, r, GetSystemSize())
      ensures StrictlyIncreasing(basisInds) ==>
                forall r :: 0 <= r < d.Length ==> d[r] == HessUpTo(kernel, basisInds, beta, NumDimensions(), t, r, r, GetSystemSize())
      ensures fresh(d)
    {
      var D := NumDimensions();
      var S := GetSystemSize();
      d := new real[D](_ => 0.0);
      var l := 0;
      while l < S
        invariant 0 <= l <= S
        invariant forall r :: 0 <= r < D ==> d[r] == DiagUpTo(kernel, basisInds, beta, D, t, r, l)
      {
        var ai := IdxToAi(basisInds[l], D);
        var a, i := ai.0, ai.1;
        var betaA := GetBetaForBasisPoint(a);
        var betaHessSum := kernel.dxIdxJdxKDotVecComponent(a, t, betaA[..], i, i);
        d[i] := d[i] + betaHessSum;
        l := l + 1;
      }
      if StrictlyIncreasing(basisInds) {
        forall r | 0 <= r < D {
          HessianDiagIsHessianDiagonal(kernel, basisInds, beta, D, t, r, S);
        }
      }
    }
  }
}
