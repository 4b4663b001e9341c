/** The LAMBDA decorrelation: integer Gauss transformations and pivot
    permutations applied to the factors `L`, `D` of the ambiguity covariance
    and to the integer transformation `Z`, driven by the reduction sweep. */
module Decorrelation {
  import opened Common

  /** Column j minus mu times column i, in the rows from..n-1 (the others are
      kept). */
  function ColumnOp(M: Matrix, n: nat, from: nat, i: nat, j: nat, mu: real): (R: Matrix)
    requires IsMatrix(M, n, n) && i < n && j < n
    ensures IsMatrix(R, n, n)
  {
    seq(n, r requires 0 <= r < n => seq(n, c requires 0 <= c < n =>
      if c == j && from <= r then M[r][c] - mu * M[r][i] else M[r][c]))
  }

  /** Columns j and j+1 exchanged in the rows from..n-1. */
  function SwapColumnsFrom(M: Matrix, n: nat, from: nat, j: nat): (R: Matrix)
    requires IsMatrix(M, n, n) && j + 1 < n
    ensures IsMatrix(R, n, n)
  {
    seq(n, r requires 0 <= r < n => if from <= r then Swapped(M[r], j, j + 1) else M[r])
  }

  /** The pivots after `perm(j)`: `D[j]` becomes `D[j] / del * D[j+1]` and
      `D[j+1]` becomes `del`. */
  function PermD(D: seq<real>, j: nat, del: real): (R: seq<real>)
    requires j + 1 < |D| && del != 0.0
    ensures |R| == |D|
  {
    D[j := D[j] / del * D[j + 1]][j + 1 := del]
  }

  /** Rows j and j+1 of L recombined by `perm(j)` before its column swap:
      with `l = L[j+1][j]`, each entry c < j becomes `-l * L[j][c] + L[j+1][c]`
      in row j and `eta * L[j][c] + lam * L[j+1][c]` in row j+1, and
      `L[j+1][j]` becomes lam. */
  function Mixed(L: Matrix, n: nat, j: nat, eta: real, lam: real): (R: Matrix)
    requires IsMatrix(L, n, n) && j + 1 < n
    ensures IsMatrix(R, n, n)
  {
    seq(n, r requires 0 <= r < n => seq(n, c requires 0 <= c < n =>
      if r == j && c < j then -L[j + 1][j] * L[j][c] + L[j + 1][c]
      else if r == j + 1 && c < j then eta * L[j][c] + lam * L[j + 1][c]
      else if r == j + 1 && c == j then lam
      else L[r][c]))
  }

  /** L after `perm(j)`: rows j and j+1 recombined with `eta = D[j] / del`
      and `lam = D[j+1] * L[j+1][j] / del`, then columns j and j+1 exchanged
      below row j+1. */
  function PermL(L: Matrix, n: nat, j: nat, del: real, D: seq<real>): (R: Matrix)
    requires IsMatrix(L, n, n) && |D| == n && j + 1 < n && del != 0.0
    ensures IsMatrix(R, n, n)
  {
    SwapColumnsFrom(Mixed(L, n, j, D[j] / del, D[j + 1] * L[j + 1][j] / del), n, j + 2, j)
  }

  /** A zero multiplier leaves the matrix as it is. */
  lemma ColumnOpZero(M: Matrix, n: nat, from: nat, i: nat, j: nat)
    requires IsMatrix(M, n, n) && i < n && j < n
    ensures ColumnOp(M, n, from, i, j, 0.0) == M
  {
    var R := ColumnOp(M, n, from, i, j, 0.0);
    forall r | 0 <= r < n
      ensures R[r] == M[r]
    {
      assert forall c :: 0 <= c < n ==> R[r][c] == M[r][c];
    }
  }

  /** Subtracting mu times column i and then adding it back restores the
      matrix: the Gauss transformation is invertible. */
  lemma ColumnOpInverse(M: Matrix, n: nat, from: nat, i: nat, j: nat, mu: real)
    requires IsMatrix(M, n, n) && i < n && j < n && i != j
    ensures ColumnOp(ColumnOp(M, n, from, i, j, mu), n, from, i, j, -mu) == M
  {
    var R := ColumnOp(ColumnOp(M, n, from, i, j, mu), n, from, i, j, -mu);
    forall r | 0 <= r < n
      ensures R[r] == M[r]
    {
      assert forall c :: 0 <= c < n ==> R[r][c] == M[r][c];
    }
  }

  lemma IntegerCombination(x: real, y: real, mu: real, z: real)
    requires IsInt(x) && IsInt(y) && IsInt(mu) && z == x - mu * y
    ensures IsInt(z)
  {
    var a, b, m := x.Floor, y.Floor, mu.Floor;
    assert mu * y == (m as real) * (b as real);
    assert (m as real) * (b as real) == (m * b) as real;
    assert x - mu * y == (a - m * b) as real;
  }

  /** An integer multiple of an integer column keeps an integer matrix
      integer. */
  lemma ColumnOpKeepsIntegral(M: Matrix, n: nat, from: nat, i: nat, j: nat, mu: real)
    requires IsMatrix(M, n, n) && i < n && j < n
    requires Integral(M) && IsInt(mu)
    ensures Integral(ColumnOp(M, n, from, i, j, mu))
  {
    var R := ColumnOp(M, n, from, i, j, mu);
    forall r, c | 0 <= r < n && 0 <= c < n
      ensures IsInt(R[r][c])
    {
      assert IsInt(M[r][c]) && IsInt(M[r][i]);
      if c == j && from <= r {
        IntegerCombination(M[r][c], M[r][i], mu, R[r][c]);
      }
    }
  }

  /** With a unit diagonal, `gauss(i, j)` leaves `L[i][j]` in [-1/2, 1/2). */
  lemma GaussReduces(L: Matrix, n: nat, i: nat, j: nat)
    requires IsMatrix(L, n, n) && i < n && j < n && L[i][i] == 1.0
    ensures var R := ColumnOp(L, n, i, i, j, Round(L[i][j]) as real);
            -0.5 <= R[i][j] < 0.5
  {
  }

  /** A Gauss transformation below the diagonal (i > j) keeps L unit lower
      triangular. */
  lemma GaussKeepsUnitLower(L: Matrix, n: nat, i: nat, j: nat, mu: real)
    requires IsMatrix(L, n, n) && j < i < n && UnitLower(L, n)
    ensures UnitLower(ColumnOp(L, n, i, i, j, mu), n)
  {
  }

  /** Exchanging columns twice restores the matrix. */
  lemma SwapColumnsInvolution(M: Matrix, n: nat, from: nat, j: nat)
    requires IsMatrix(M, n, n) && j + 1 < n
    ensures SwapColumnsFrom(SwapColumnsFrom(M, n, from, j), n, from, j) == M
  {
    var R := SwapColumnsFrom(SwapColumnsFrom(M, n, from, j), n, from, j);
    forall r | 0 <= r < n
      ensures R[r] == M[r]
    {
      assert forall c :: 0 <= c < n ==> R[r][c] == M[r][c];
    }
  }

  /** Exchanging columns keeps an integer matrix integer. */
  lemma SwapColumnsKeepsIntegral(M: Matrix, n: nat, from: nat, j: nat)
    requires IsMatrix(M, n, n) && j + 1 < n && Integral(M)
    ensures Integral(SwapColumnsFrom(M, n, from, j))
  {
  }

  /** `perm(j)` keeps the product of the two pivots it changes, sets
      `D[j+1]` to del and keeps positive pivots positive. */
  lemma PermDKeepsProduct(D: seq<real>, j: nat, del: real)
    requires j + 1 < |D| && del != 0.0
    ensures var R := PermD(D, j, del);
            R[j] * R[j + 1] == D[j] * D[j + 1] && R[j + 1] == del &&
            forall k :: 0 <= k < |D| && k != j && k != j + 1 ==> R[k] == D[k]
  {
    var R := PermD(D, j, del);
    calc {
      R[j] * R[j + 1];
      (D[j] / del * D[j + 1]) * del;
      D[j] * D[j + 1] * (del / del);
    }
  }

  lemma PermDPositive(D: seq<real>, j: nat, del: real)
    requires j + 1 < |D| && del > 0.0
    requires forall k :: 0 <= k < |D| ==> D[k] > 0.0
    ensures forall k :: 0 <= k < |D| ==> PermD(D, j, del)[k] > 0.0
  {
    var R := PermD(D, j, del);
    assert D[j] / del > 0.0;
    assert R[j] > 0.0;
  }

  /** `perm(j)` keeps L unit lower triangular. */
  lemma PermKeepsUnitLower(L: Matrix, n: nat, j: nat, del: real, D: seq<real>)
    requires IsMatrix(L, n, n) && |D| == n && j + 1 < n && del != 0.0 && UnitLower(L, n)
    ensures UnitLower(PermL(L, n, j, del, D), n)
  {
    var M := Mixed(L, n, j, D[j] / del, D[j + 1] * L[j + 1][j] / del);
    assert UnitLower(M, n);
  }

  /** Column j of M minus mu times column i, in rows from..n-1 (the loops at
      lines 247 and 248). */
  method SubtractColumn(n: nat, M: array2<real>, from: nat, i: nat, j: nat, mu: real)
    requires M.Length0 == n && M.Length1 == n && i < n && j < n
    modifies M
    ensures Snapshot(M) == ColumnOp(old(Snapshot(M)), n, from, i, j, mu)
  {
    ghost var M0 := Snapshot(M);
    var k := from;
    while k < n
      invariant from <= k || n <= k
      invariant forall r, c :: 0 <= r < n && 0 <= c < n ==>
        M[r, c] == if c == j && from <= r < k then M0[r][c] - mu * M0[r][i] else M0[r][c]
    {
      M[k, j] := M[k, j] - mu * M[k, i];
      k := k + 1;
    }
    ghost var R := ColumnOp(M0, n, from, i, j, mu);
    forall r | 0 <= r < n
      ensures Snapshot(M)[r] == R[r]
    {
      assert forall c :: 0 <= c < n ==> Snapshot(M)[r][c] == R[r][c];
    }
  }

  /** Columns j and j+1 of M exchanged in rows from..n-1 (the `SWAP` loops at
      lines 267 and 268). */
  method SwapColumnEntries(n: nat, M: array2<real>, from: nat, j: nat)
    requires M.Length0 == n && M.Length1 == n && j + 1 < n
    modifies M
    ensures Snapshot(M) == SwapColumnsFrom(old(Snapshot(M)), n, from, j)
  {
    ghost var M0 := Snapshot(M);
    var k := from;
    while k < n
      invariant from <= k || n <= k
      invariant forall r, c :: 0 <= r < n && 0 <= c < n ==>
        M[r, c] == if from <= r < k then Swapped(M0[r], j, j + 1)[c] else M0[r][c]
    {
      M[k, j], M[k, j + 1] := M[k, j + 1], M[k, j];
      k := k + 1;
    }
    ghost var R := SwapColumnsFrom(M0, n, from, j);
    forall r | 0 <= r < n
      ensures Snapshot(M)[r] == R[r]
    {
      assert forall c :: 0 <= c < n ==> Snapshot(M)[r][c] == R[r][c];
    }
  }

  /** `gauss(i, j)`: with `mu = ROUND(L[i][j])`, subtracts mu times column i
      from column j, in rows i..n-1 of L and in all rows of Z; nothing
      happens when mu is 0. */
  method Gauss(n: nat, L: array2<real>, Z: array2<real>, i: nat, j: nat)
    requires L.Length0 == n && L.Length1 == n && Z.Length0 == n && Z.Length1 == n
    requires i < n && j < n && L != Z
    modifies L, Z
    ensures Snapshot(L) == ColumnOp(old(Snapshot(L)), n, i, i, j, Round(old(L[i, j])) as real)
    ensures Snapshot(Z) == ColumnOp(old(Snapshot(Z)), n, 0, i, j, Round(old(L[i, j])) as real)
  {
    var mu := Round(L[i, j]);
    if mu != 0 {
      SubtractColumn(n, L, i, i, j, mu as real);
      SubtractColumn(n, Z, 0, i, j, mu as real);
    } else {
      ColumnOpZero(Snapshot(L), n, i, i, j);
      ColumnOpZero(Snapshot(Z), n, 0, i, j);
    }
  }

  /** Lines 260-266 of `perm(j)`: rows j and j+1 of L recombined with the
      weights eta and lam (see `Mixed`). */
  method MixRows(n: nat, L: array2<real>, j: nat, eta: real, lam: real)
    requires L.Length0 == n && L.Length1 == n && j + 1 < n
    modifies L
    ensures Snapshot(L) == Mixed(old(Snapshot(L)), n, j, eta, lam)
  {
    ghost var L0 := Snapshot(L);
    ghost var R := Mixed(L0, n, j, eta, lam);
    var k := 0;
    while k < j
      invariant k <= j
      invariant forall r, c :: 0 <= r < n && 0 <= c < n ==>
        L[r, c] == if (r == j || r == j + 1) && c < k then R[r][c] else L0[r][c]
    {
      L[j, k], L[j + 1, k] := -L[j + 1, j] * L[j, k] + L[j + 1, k], eta * L[j, k] + lam * L[j + 1, k];
      k := k + 1;
    }
    L[j + 1, j] := lam;
    forall r | 0 <= r < n
      ensures Snapshot(L)[r] == R[r]
    {
      assert forall c :: 0 <= c < n ==> Snapshot(L)[r][c] == R[r][c];
    }
  }

  /** The two stages of `PermL`, with the weights computed before D changes. */
  lemma PermLStages(L: Matrix, n: nat, j: nat, del: real, D: seq<real>, eta: real, lam: real)
    requires IsMatrix(L, n, n) && |D| == n && j + 1 < n && del != 0.0
    requires eta == D[j] / del && lam == D[j + 1] * L[j + 1][j] / del
    ensures PermL(L, n, j, del, D) == SwapColumnsFrom(Mixed(L, n, j, eta, lam), n, j + 2, j)
  {
  }

  /** `perm(j)`: exchanges the variables j and j+1 in the factorisation. With
      `del` the new pivot `D[j+1]`, D becomes `PermD`, L becomes `PermL` and
      columns j and j+1 of Z are exchanged. */
  method Perm(n: nat, L: array2<real>, D: array<real>, j: nat, del: real, Z: array2<real>)
    requires L.Length0 == n && L.Length1 == n && Z.Length0 == n && Z.Length1 == n && D.Length == n
    requires j + 1 < n && del != 0.0 && L != Z
    modifies L, D, Z
    ensures D[..] == PermD(old(D[..]), j, del)
    ensures Snapshot(L) == PermL(old(Snapshot(L)), n, j, del, old(D[..]))
    ensures Snapshot(Z) == SwapColumnsFrom(old(Snapshot(Z)), n, 0, j)
  {
    ghost var D0, L0 := D[..], Snapshot(L);
    var eta := D[j] / del;
    var lam := D[j + 1] * L[j + 1, j] / del;
    assert eta == D0[j] / del && lam == D0[j + 1] * L0[j + 1][j] / del;
    D[j] := eta * D[j + 1];
    D[j + 1] := del;
    assert forall k :: 0 <= k < n ==> D[k] == PermD(D0, j, del)[k];
    MixRows(n, L, j, eta, lam);
    SwapColumnEntries(n, L, j + 2, j);
    PermLStages(L0, n, j, del, D0, eta, lam);
    ghost var P := Snapshot(L);
    SwapColumnEntries(n, Z, 0, j);
    assert Snapshot(L) == P;
  }

  /** The reduction's swap test at j fails: `D[j] + L[j+1][j]^2 * D[j+1]`
      plus the tolerance is not below `D[j+1]`. */
  predicate NoSwapPending(L: Matrix, D: seq<real>, n: nat, j: nat)
    requires IsMatrix(L, n, n) && |D| == n && j + 1 < n
  {
    !(D[j] + L[j + 1][j] * L[j + 1][j] * D[j + 1] + Tolerance < D[j + 1])
  }

  /** The tolerance of the swap test (`1E-6`). */
  const Tolerance: real := 0.000001
  /** The swap tests at the positions above j read only columns above j of
      L, so changing column j keeps them. */
  lemma NoSwapPendingFrame(L1: Matrix, L2: Matrix, D: seq<real>, n: nat, j: int)
    requires IsMatrix(L1, n, n) && IsMatrix(L2, n, n) && |D| == n
    requires forall r, c :: 0 <= r < n && 0 <= c < n && c != j ==> L2[r][c] == L1[r][c]
    requires forall q :: 0 <= q < n - 1 && j < q ==> NoSwapPending(L1, D, n, q)
    ensures forall q :: 0 <= q < n - 1 && j < q ==> NoSwapPending(L2, D, n, q)
  {
    forall q | 0 <= q < n - 1 && j < q
      ensures NoSwapPending(L2, D, n, q)
    {
      assert L2[q + 1][q] == L1[q + 1][q];
      assert NoSwapPending(L1, D, n, q);
    }
  }

  lemma SquareWeightNonNegative(x: real, d: real)
    requires d > 0.0
    ensures x * x * d >= 0.0
  {
    assert x * x >= 0.0;
  }

  /** L and Z after `gauss(i, j)` for i = from, from+1, .., n-1 in turn,
      each with the multiplier rounded from the current `L[i][j]`. */
  function SizeReduced(L: Matrix, Z: Matrix, n: nat, j: nat, from: nat): (R: (Matrix, Matrix))
    requires IsMatrix(L, n, n) && IsMatrix(Z, n, n) && j < n
    ensures IsMatrix(R.0, n, n) && IsMatrix(R.1, n, n)
    decreases n - from
  {
    if n <= from then (L, Z)
    else
      var mu := Round(L[from][j]) as real;
      SizeReduced(ColumnOp(L, n, from, from, j, mu), ColumnOp(Z, n, 0, from, j, mu), n, j, from + 1)
  }

  /** Size reduction from row `from` on keeps L unit lower triangular and
      Z integer, changes no entry of L outside column j or above row
      `from`, and leaves every entry of column j from row `from` down in
      [-1/2, 1/2). */
  lemma {:induction false} SizeReducedKeeps(L: Matrix, Z: Matrix, n: nat, j: nat, from: nat, L': Matrix, Z': Matrix)
    requires IsMatrix(L, n, n) && IsMatrix(Z, n, n) && j < from && j < n
    requires UnitLower(L, n) && Integral(Z)
    requires (L', Z') == SizeReduced(L, Z, n, j, from)
    ensures IsMatrix(L', n, n) && UnitLower(L', n) && Integral(Z')
    ensures forall r, c :: 0 <= r < n && 0 <= c < n && (c != j || r < from) ==> L'[r][c] == L[r][c]
    ensures forall r :: from <= r < n ==> -0.5 <= L'[r][j] < 0.5
    decreases n - from
  {
    if from < n {
      var mu := Round(L[from][j]) as real;
      var L1, Z1 := ColumnOp(L, n, from, from, j, mu), ColumnOp(Z, n, 0, from, j, mu);
      GaussReduces(L, n, from, j);
      GaussKeepsUnitLower(L, n, from, j, mu);
      ColumnOpKeepsIntegral(Z, n, 0, from, j, mu);
      SizeReducedKeeps(L1, Z1, n, j, from + 1, L', Z');
    }
  }

  lemma SizeReducedStep(L: Matrix, Z: Matrix, n: nat, j: nat, i: nat)
    requires IsMatrix(L, n, n) && IsMatrix(Z, n, n) && j < n && i < n
    ensures var mu := Round(L[i][j]) as real;
      SizeReduced(L, Z, n, j, i) == SizeReduced(ColumnOp(L, n, i, i, j, mu), ColumnOp(Z, n, 0, i, j, mu), n, j, i + 1)
  {
  }

  /** Lines 280-281: `gauss(i, j)` for i = j+1..n-1. Afterwards L and Z are
      those `SizeReduced` gives: every entry of column j of L below the
      diagonal lies in [-1/2, 1/2), the other columns of L are untouched, L
      stays unit lower triangular and Z integer. */
  method ReduceColumn(n: nat, L: array2<real>, Z: array2<real>, j: nat)
    requires L.Length0 == n && L.Length1 == n && Z.Length0 == n && Z.Length1 == n
    requires j < n && L != Z
    requires UnitLower(Snapshot(L), n) && Integral(Snapshot(Z))
    modifies L, Z
    ensures (Snapshot(L), Snapshot(Z)) == SizeReduced(old(Snapshot(L)), old(Snapshot(Z)), n, j, j + 1)
    ensures UnitLower(Snapshot(L), n) && Integral(Snapshot(Z))
    ensures forall r, c :: 0 <= r < n && 0 <= c < n && c != j ==> Snapshot(L)[r][c] == old(Snapshot(L))[r][c]
    ensures forall i :: j < i < n ==> -0.5 <= L[i, j] < 0.5
  {
    ghost var L0, Z0 := Snapshot(L), Snapshot(Z);
    ghost var target := SizeReduced(L0, Z0, n, j, j + 1);
    var i := j + 1;
    while i < n
      invariant j < i
      invariant SizeReduced(Snapshot(L), Snapshot(Z), n, j, i) == target
    {
      SizeReducedStep(Snapshot(L), Snapshot(Z), n, j, i);
      Gauss(n, L, Z, i, j);
      i := i + 1;
    }
    SizeReducedKeeps(L0, Z0, n, j, j + 1, Snapshot(L), Snapshot(Z));
  }

  /** Lines 279-281 inside the sweep of `reduction`: column j is
      size-reduced, which keeps L unit lower triangular and Z integer and
      keeps passed every swap test above j, since those read only the
      columns above j. */
  method ReduceBelowSwaps(n: nat, L: array2<real>, D: seq<real>, Z: array2<real>, j: nat)
    requires L.Length0 == n && L.Length1 == n && Z.Length0 == n && Z.Length1 == n && |D| == n
    requires j < n && L != Z
    requires UnitLower(Snapshot(L), n) && Integral(Snapshot(Z))
    requires forall q :: 0 <= q < n - 1 && j < q ==> NoSwapPending(Snapshot(L), D, n, q)
    modifies L, Z
    ensures UnitLower(Snapshot(L), n) && Integral(Snapshot(Z))
    ensures forall q :: 0 <= q < n - 1 && j < q ==> NoSwapPending(Snapshot(L), D, n, q)
  {
    ghost var L1 := Snapshot(L);
    ReduceColumn(n, L, Z, j);
    NoSwapPendingFrame(L1, Snapshot(L), D, n, j);
  }

  /** Line 285: `perm(j)` with `del = D[j] + L[j+1][j]^2 * D[j+1]`, the new
      pivot `D[j+1]`. It keeps the pivots positive, L unit lower triangular
      and Z integer. */
  method SwapPivots(n: nat, L: array2<real>, D: array<real>, Z: array2<real>, j: nat, del: real)
    requires L.Length0 == n && L.Length1 == n && Z.Length0 == n && Z.Length1 == n && D.Length == n
    requires j + 1 < n && L != Z
    requires forall q :: 0 <= q < n ==> D[q] > 0.0
    requires UnitLower(Snapshot(L), n) && Integral(Snapshot(Z))
    requires del == D[j] + L[j + 1, j] * L[j + 1, j] * D[j + 1]
    modifies L, D, Z
    ensures forall q :: 0 <= q < n ==> D[q] > 0.0
    ensures UnitLower(Snapshot(L), n) && Integral(Snapshot(Z))
    ensures D[j + 1] == del
  {
    SquareWeightNonNegative(L[j + 1, j], D[j + 1]);
    PermDPositive(D[..], j, del);
    PermKeepsUnitLower(Snapshot(L), n, j, del, D[..]);
    SwapColumnsKeepsIntegral(Snapshot(Z), n, 0, j);
    Perm(n, L, D, j, del, Z);
  }

  /** `reduction`: sweeps j from n-2 down to 0, size-reducing column j (when
      j <= k, k being the last swap position) and swapping variables j and
      j+1 when `D[j] + L[j+1][j]^2 * D[j+1] + 1E-6 < D[j+1]`, after which the
      sweep restarts at n-2. The sweep's termination rests on a lattice
      argument outside the source, so the model bounds the number of swaps by
      `budget` and reports with `done == false` that the budget ran out.

      Positive pivots stay positive, L stays unit lower triangular and Z
      integer; `done` is true exactly when, at the end, no swap is pending at any j. */
  method Reduction(n: nat, L: array2<real>, D: array<real>, Z: array2<real>, budget: nat) returns (done: bool)
    requires L.Length0 == n && L.Length1 == n && Z.Length0 == n && Z.Length1 == n && D.Length == n
    requires L != Z
    requires forall q :: 0 <= q < n ==> D[q] > 0.0
    requires UnitLower(Snapshot(L), n) && Integral(Snapshot(Z))
    modifies L, D, Z
    ensures forall q :: 0 <= q < n ==> D[q] > 0.0
    ensures UnitLower(Snapshot(L), n) && Integral(Snapshot(Z))
    ensures done ==> forall q :: 0 <= q < n - 1 ==> NoSwapPending(Snapshot(L), D[..], n, q)
    ensures !done ==> exists q :: 0 <= q < n - 1 && !NoSwapPending(Snapshot(L), D[..], n, q)
  {
    var j: int := n - 2;
    var k: int := n - 2;
    var swaps: nat := 0;
    while j >= 0
      invariant j <= n - 2 && swaps <= budget
      invariant forall q :: 0 <= q < n ==> D[q] > 0.0
      invariant UnitLower(Snapshot(L), n) && Integral(Snapshot(Z))
      invariant forall q :: 0 <= q < n - 1 && j < q ==> NoSwapPending(Snapshot(L), D[..], n, q)
      decreases budget - swaps, j + 1
    {
      if j <= k {
        ReduceBelowSwaps(n, L, D[..], Z, j);
      }
      var del := D[j] + L[j + 1, j] * L[j + 1, j] * D[j + 1];
      if del + Tolerance < D[j + 1] {
        if swaps == budget {
          assert !NoSwapPending(Snapshot(L), D[..], n, j);
          return false;
        }
        SwapPivots(n, L, D, Z, j, del);
        swaps := swaps + 1;
        k := j;
        j := n - 2;
      } else {
        assert NoSwapPending(Snapshot(L), D[..], n, j);
        j := j - 1;
      }
    }
    return true;
  }
}
