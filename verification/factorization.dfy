/** The LD factorisation `Q = L' * diag(D) * L` computed in reverse order
    (the last variable first), as the LAMBDA method needs it. */
module Factorization {
  import opened Common

  /** Entry (r, c) of `L' * diag(D) * L`, summed over the rows k >= from of L:
      the sum of `L[k][r] * D[k] * L[k][c]`. */
  ghost function Gram(L: Matrix, D: seq<real>, n: nat, r: nat, c: nat, from: nat): real
    requires IsMatrix(L, n, n) && |D| == n && r < n && c < n && from <= n
    decreases n - from
  {
    if from == n then 0.0
    else L[from][r] * D[from] * L[from][c] + Gram(L, D, n, r, c, from + 1)
  }

  /** Gram only depends on columns r and c of the rows k >= from of L and on
      the entries k >= from of D. */
  lemma {:induction false} GramFrame(L1: Matrix, D1: seq<real>, L2: Matrix, D2: seq<real>,
                                     n: nat, r: nat, c: nat, from: nat)
    requires IsMatrix(L1, n, n) && |D1| == n && IsMatrix(L2, n, n) && |D2| == n
    requires r < n && c < n && from <= n
    requires forall k :: from <= k < n ==>
      L1[k][r] == L2[k][r] && L1[k][c] == L2[k][c] && D1[k] == D2[k]
    ensures Gram(L1, D1, n, r, c, from) == Gram(L2, D2, n, r, c, from)
    decreases n - from
  {
    if from < n {
      GramFrame(L1, D1, L2, D2, n, r, c, from + 1);
    }
  }

  /** Rows above column r contribute nothing when L is zero above its
      diagonal, so the full product entry is the sum from row r on. */
  lemma {:induction false} GramFromDiagonal(L: Matrix, D: seq<real>, n: nat, r: nat, c: nat, from: nat)
    requires IsMatrix(L, n, n) && |D| == n && c <= r < n && from <= r
    requires UnitLower(L, n)
    ensures Gram(L, D, n, r, c, from) == Gram(L, D, n, r, c, r)
    decreases r - from
  {
    if from < r {
      assert L[from][r] == 0.0;
      GramFromDiagonal(L, D, n, r, c, from + 1);
    }
  }

  /** `L' * diag(D) * L` is symmetric. */
  lemma {:induction false} GramSymmetric(L: Matrix, D: seq<real>, n: nat, r: nat, c: nat, from: nat)
    requires IsMatrix(L, n, n) && |D| == n && r < n && c < n && from <= n
    ensures Gram(L, D, n, r, c, from) == Gram(L, D, n, c, r, from)
    decreases n - from
  {
    if from < n {
      GramSymmetric(L, D, n, r, c, from + 1);
    }
  }

  /** Rows i+1..n-1 of the lower triangle of Q are `L' * diag(D) * L`. */
  ghost predicate Factored(Q: Matrix, L: Matrix, D: seq<real>, n: nat, i: int)
    requires IsMatrix(Q, n, n) && IsMatrix(L, n, n) && |D| == n
  {
    forall r, c :: i < r < n && 0 <= c <= r ==> FactoredAt(Q, L, D, n, r, c)
  }

  /** Entry (r, c) of Q is entry (r, c) of `L' * diag(D) * L`. */
  ghost predicate FactoredAt(Q: Matrix, L: Matrix, D: seq<real>, n: nat, r: nat, c: nat)
    requires IsMatrix(Q, n, n) && IsMatrix(L, n, n) && |D| == n && c <= r < n
  {
    Q[r][c] == Gram(L, D, n, r, c, r)
  }

  /** The working matrix A holds what rows 0..i of the lower triangle of Q
      still lack after the outer products of rows i+1..n-1 of L are taken off. */
  ghost predicate Remaining(Q: Matrix, A: Matrix, L: Matrix, D: seq<real>, n: nat, i: int)
    requires IsMatrix(Q, n, n) && IsMatrix(A, n, n) && IsMatrix(L, n, n) && |D| == n && i < n
  {
    forall r, c :: 0 <= c <= r <= i ==> RemainingAt(Q, A, L, D, n, i, r, c)
  }

  /** Entry (r, c) of Q is entry (r, c) of A plus the part of `L' * diag(D) * L`
      contributed by rows i+1..n-1. */
  ghost predicate RemainingAt(Q: Matrix, A: Matrix, L: Matrix, D: seq<real>, n: nat, i: int, r: nat, c: nat)
    requires IsMatrix(Q, n, n) && IsMatrix(A, n, n) && IsMatrix(L, n, n) && |D| == n && c <= r <= i < n
  {
    Q[r][c] == A[r][c] + Gram(L, D, n, r, c, i + 1)
  }

  lemma DivSelf(x: real)
    requires x > 0.0
    ensures x / x == 1.0
  {
  }

  /** Rows i+1..n-1 of L have a unit diagonal; the rows 0..i and the part
      above the diagonal are as the caller left them (Lin). */
  ghost predicate RowsSet(L: Matrix, Lin: Matrix, n: nat, i: int)
    requires IsMatrix(L, n, n) && IsMatrix(Lin, n, n)
  {
    (forall r, c :: 0 <= r < n && 0 <= c < n && (r < c || r <= i) ==> L[r][c] == Lin[r][c]) &&
    (forall r :: 0 <= r < n && i < r ==> L[r][r] == 1.0)
  }

  /** The pivots i+1..n-1 are positive; D[0..i] is as the caller left it (Din). */
  ghost predicate PivotsSet(D: seq<real>, Din: seq<real>, i: int)
    requires |D| == |Din|
  {
    (forall k :: 0 <= k < |D| && i < k ==> D[k] > 0.0) && (forall k :: 0 <= k <= i && k < |D| ==> D[k] == Din[k])
  }

  /** Setting the pivot `D[i]` to the remaining diagonal entry keeps what is
      factorised, and the pivot is what Q[i][i] lacks. */
  lemma PivotKeepsFactorisation(Q: Matrix, A0: Matrix, L0: Matrix, D0: seq<real>, D1: seq<real>, n: nat, i: nat)
    requires IsMatrix(Q, n, n) && IsMatrix(A0, n, n) && IsMatrix(L0, n, n) && |D0| == n && i < n
    requires Factored(Q, L0, D0, n, i) && Remaining(Q, A0, L0, D0, n, i)
    requires D1 == D0[i := A0[i][i]]
    ensures Factored(Q, L0, D1, n, i)
    ensures Q[i][i] == D1[i] + Gram(L0, D1, n, i, i, i + 1)
  {
    GramFrame(L0, D0, L0, D1, n, i, i, i + 1);
    assert RemainingAt(Q, A0, L0, D0, n, i, i, i);
    forall r, c | i < r < n && 0 <= c <= r
      ensures FactoredAt(Q, L0, D1, n, r, c)
    {
      assert FactoredAt(Q, L0, D0, n, r, c);
      GramFrame(L0, D0, L0, D1, n, r, c, r);
    }
  }

  /** L with row i, up to the diagonal, replaced by row i of A divided by d. */
  ghost function WithRow(L: Matrix, A: Matrix, n: nat, i: nat, d: real): (R: Matrix)
    requires IsMatrix(L, n, n) && IsMatrix(A, n, n) && i < n && d != 0.0
    ensures IsMatrix(R, n, n)
  {
    seq(n, r requires 0 <= r < n => if r == i then seq(n, c requires 0 <= c < n => if c <= i then A[i][c] / d else L[i][c]) else L[r])
  }

  /** A with `l[c] * l[r] * d` taken off its entries (r, c), c <= r < i. */
  ghost function TakenOff(A: Matrix, l: seq<real>, n: nat, i: nat, d: real): (R: Matrix)
    requires IsMatrix(A, n, n) && |l| == n
    ensures IsMatrix(R, n, n)
  {
    seq(n, r requires 0 <= r < n => seq(n, c requires 0 <= c < n => if c <= r < i then A[r][c] - l[c] * l[r] * d else A[r][c]))
  }

  /** One elimination step keeps the rows already factorised: rows below i of
      L and entries below i of D are untouched. */
  lemma StepKeepsRowsBelow(Q: Matrix, A0: Matrix, L0: Matrix, D0: seq<real>, n: nat, i: nat)
    requires IsMatrix(Q, n, n) && IsMatrix(A0, n, n) && IsMatrix(L0, n, n) && |D0| == n && i < n
    requires Factored(Q, L0, D0, n, i) && A0[i][i] > 0.0
    ensures Factored(Q, WithRow(L0, A0, n, i, A0[i][i]), D0[i := A0[i][i]], n, i)
  {
    var D1 := D0[i := A0[i][i]];
    var L1 := WithRow(L0, A0, n, i, D1[i]);
    forall r, c | i < r < n && 0 <= c <= r
      ensures FactoredAt(Q, L1, D1, n, r, c)
    {
      assert FactoredAt(Q, L0, D0, n, r, c);
      GramFrame(L0, D0, L1, D1, n, r, c, r);
    }
  }

  /** With the pivot `D1[i] = A0[i][i] > 0` and row i of L set to row i of A0
      divided by it, row i of the lower triangle of Q is factorised. */
  lemma StepFactorsRow(Q: Matrix, A0: Matrix, L0: Matrix, D0: seq<real>, n: nat, i: nat)
    requires IsMatrix(Q, n, n) && IsMatrix(A0, n, n) && IsMatrix(L0, n, n) && |D0| == n && i < n
    requires Remaining(Q, A0, L0, D0, n, i) && A0[i][i] > 0.0
    ensures var D1 := D0[i := A0[i][i]];
            var L1 := WithRow(L0, A0, n, i, D1[i]);
            forall c :: 0 <= c <= i ==> FactoredAt(Q, L1, D1, n, i, c)
  {
    var D1 := D0[i := A0[i][i]];
    var L1 := WithRow(L0, A0, n, i, D1[i]);
    DivSelf(D1[i]);
    assert L1[i][i] == 1.0;
    forall c | 0 <= c <= i
      ensures FactoredAt(Q, L1, D1, n, i, c)
    {
      assert RemainingAt(Q, A0, L0, D0, n, i, i, c);
      GramFrame(L0, D0, L1, D1, n, i, c, i + 1);
      assert L1[i][i] * D1[i] * L1[i][c] == A0[i][c];
    }
  }

  /** Taking the outer product of the new row i off the block above leaves in
      the working matrix what rows 0..i-1 of Q still lack. */
  lemma StepKeepsRemaining(Q: Matrix, A0: Matrix, L0: Matrix, D0: seq<real>, n: nat, i: nat)
    requires IsMatrix(Q, n, n) && IsMatrix(A0, n, n) && IsMatrix(L0, n, n) && |D0| == n && i < n
    requires Remaining(Q, A0, L0, D0, n, i) && A0[i][i] > 0.0
    ensures var D1 := D0[i := A0[i][i]];
            var L1 := WithRow(L0, A0, n, i, D1[i]);
            Remaining(Q, TakenOff(A0, L1[i], n, i, D1[i]), L1, D1, n, i - 1)
  {
    var D1 := D0[i := A0[i][i]];
    var L1 := WithRow(L0, A0, n, i, D1[i]);
    var A1 := TakenOff(A0, L1[i], n, i, D1[i]);
    var j: int := i - 1;
    forall r, c | 0 <= c <= r <= j
      ensures RemainingAt(Q, A1, L1, D1, n, j, r, c)
    {
      assert RemainingAt(Q, A0, L0, D0, n, i, r, c);
      GramFrame(L0, D0, L1, D1, n, r, c, i + 1);
    }
  }

  /** One elimination step: with pivot `D1[i] = A0[i][i] > 0`, row i of L set
      to row i of A0 divided by the pivot and the outer product taken off the
      block above, the factorised part grows by row i. */
  lemma StepKeepsFactorisation(Q: Matrix, A0: Matrix, L0: Matrix, D0: seq<real>,
                                A1: Matrix, L1: Matrix, D1: seq<real>, n: nat, i: nat)
    requires IsMatrix(Q, n, n) && IsMatrix(A0, n, n) && IsMatrix(L0, n, n) && |D0| == n && i < n
    requires Factored(Q, L0, D0, n, i) && Remaining(Q, A0, L0, D0, n, i)
    requires A0[i][i] > 0.0 && D1 == D0[i := A0[i][i]]
    requires L1 == WithRow(L0, A0, n, i, D1[i]) && A1 == TakenOff(A0, L1[i], n, i, D1[i])
    ensures Factored(Q, L1, D1, n, i - 1) && Remaining(Q, A1, L1, D1, n, i - 1)
  {
    StepKeepsRowsBelow(Q, A0, L0, D0, n, i);
    StepFactorsRow(Q, A0, L0, D0, n, i);
    StepKeepsRemaining(Q, A0, L0, D0, n, i);
  }

  /** A completed factorisation with a unit lower triangular L is the whole
      product: every entry of Q, on either side of the diagonal when Q is
      symmetric, is the full sum `(L' * diag(D) * L)[r][c]` over all rows of L. */
  lemma {:induction false} FactoredIsProduct(Q: Matrix, L: Matrix, D: seq<real>, n: nat)
    requires IsMatrix(Q, n, n) && IsMatrix(L, n, n) && |D| == n
    requires Factored(Q, L, D, n, -1) && UnitLower(L, n)
    requires forall r, c :: 0 <= r < n && 0 <= c < n ==> Q[r][c] == Q[c][r]
    ensures forall r, c :: 0 <= r < n && 0 <= c < n ==> Q[r][c] == Gram(L, D, n, r, c, 0)
  {
    forall r, c | 0 <= r < n && 0 <= c < n
      ensures Q[r][c] == Gram(L, D, n, r, c, 0)
    {
      if c <= r {
        assert FactoredAt(Q, L, D, n, r, c);
        GramFromDiagonal(L, D, n, r, c, 0);
      } else {
        assert FactoredAt(Q, L, D, n, c, r);
        GramFromDiagonal(L, D, n, c, r, 0);
        GramSymmetric(L, D, n, r, c, 0);
      }
    }
  }

  /** A step sets row i of L, with a unit diagonal, and the positive pivot i. */
  lemma StepSetsRow(L0: Matrix, Lin: Matrix, A0: Matrix, D0: seq<real>, Din: seq<real>,
                    L1: Matrix, D1: seq<real>, n: nat, i: nat)
    requires IsMatrix(L0, n, n) && IsMatrix(Lin, n, n) && IsMatrix(A0, n, n) && |D0| == n && |Din| == n && i < n
    requires RowsSet(L0, Lin, n, i) && PivotsSet(D0, Din, i)
    requires A0[i][i] > 0.0 && D1 == D0[i := A0[i][i]] && L1 == WithRow(L0, A0, n, i, D1[i])
    ensures RowsSet(L1, Lin, n, i - 1) && PivotsSet(D1, Din, i - 1)
  {
    DivSelf(A0[i][i]);
  }

  /** Line 232 with line 234 folded in: row i of L, up to the diagonal,
      becomes row i of the working matrix divided by the pivot d. */
  method SetRow(n: nat, A: Matrix, L: array2<real>, i: nat, d: real)
    requires IsMatrix(A, n, n) && L.Length0 == n && L.Length1 == n && i < n && d != 0.0
    modifies L
    ensures Snapshot(L) == WithRow(old(Snapshot(L)), A, n, i, d)
  {
    ghost var L0 := Snapshot(L);
    var j := 0;
    while j <= i
      invariant 0 <= j <= i + 1
      invariant forall c :: 0 <= c < j ==> L[i, c] == A[i][c] / d
      invariant forall r, c :: 0 <= r < n && 0 <= c < n && !(r == i && c < j) ==> L[r, c] == L0[r][c]
    {
      L[i, j] := A[i][j] / d;
      j := j + 1;
    }
    assert forall r :: 0 <= r < n ==> Snapshot(L)[r] == WithRow(L0, A, n, i, d)[r];
  }

  /** Line 233: the outer product of row i of L, weighted by the pivot d, is
      taken off the lower triangle of the block of rows and columns 0..i-1. */
  method TakeOffRow(n: nat, A: Matrix, L: array2<real>, i: nat, d: real) returns (B: Matrix)
    requires IsMatrix(A, n, n) && L.Length0 == n && L.Length1 == n && i < n
    ensures B == TakenOff(A, Snapshot(L)[i], n, i, d)
  {
    B := A;
    var j := 0;
    while j <= i - 1
      invariant 0 <= j <= i
      invariant IsMatrix(B, n, n)
      invariant forall r, c {:trigger B[r][c]} :: 0 <= r < n && 0 <= c < n ==>
        B[r][c] == if c <= r < j then A[r][c] - L[i, c] * L[i, r] * d else A[r][c]
    {
      var k := 0;
      while k <= j
        invariant 0 <= k <= j + 1
        invariant IsMatrix(B, n, n)
        invariant forall r, c {:trigger B[r][c]} :: 0 <= r < n && 0 <= c < n ==>
          B[r][c] == if (c <= r < j) || (r == j && c < k) then A[r][c] - L[i, c] * L[i, r] * d else A[r][c]
      {
        B := B[j := B[j][k := B[j][k] - L[i, k] * L[i, j] * d]];
        k := k + 1;
      }
      j := j + 1;
    }
    ghost var T := TakenOff(A, Snapshot(L)[i], n, i, d);
    forall r | 0 <= r < n
      ensures B[r] == T[r]
    {
      assert forall c :: 0 <= c < n ==> B[r][c] == T[r][c];
    }
  }

  /** LD stops at row p: the rows below p are factorised, with a unit
      diagonal and positive pivots, and the pivot of row p, what `Q[p][p]`
      lacks after them, is not positive. */
  ghost predicate PivotFails(Q: Matrix, L: Matrix, D: seq<real>, n: nat, p: nat)
    requires IsMatrix(Q, n, n) && IsMatrix(L, n, n) && |D| == n
  {
    p < n && D[p] <= 0.0 && Q[p][p] == D[p] + Gram(L, D, n, p, p, p + 1) &&
    (forall k :: p < k < n ==> D[k] > 0.0 && L[k][k] == 1.0) && Factored(Q, L, D, n, p)
  }

  /** `LD` (lambda.cpp): factorises Q from the last index down. At step i the
      pivot `D[i]` is the remaining diagonal entry; a pivot `<= 0` stops the
      factorisation with -1. Otherwise row i of L becomes the remaining row i
      divided by the pivot and its outer product is taken off the remaining
      upper-left block. Only the lower triangle of Q is read.

      The source scales row i by `1/sqrt(D[i])`, uses it in the update, then
      divides it by its diagonal `sqrt(D[i])`; over the reals this is the row
      divided by `D[i]` and an update by `L[i][k] * L[i][j] * D[i]`, which the
      model computes directly. */
  method LD(n: nat, Q: Matrix, L: array2<real>, D: array<real>) returns (info: int)
    requires IsMatrix(Q, n, n)
    requires L.Length0 == n && L.Length1 == n && D.Length == n
    modifies L, D
    ensures info == 0 || info == -1
    ensures info == 0 <==> forall k :: 0 <= k < n ==> D[k] > 0.0
    // L is unit lower triangular wherever the caller zeroed its upper part
    ensures info == 0 ==> forall r :: 0 <= r < n ==> L[r, r] == 1.0
    ensures forall r, c :: 0 <= r < c < n ==> L[r, c] == old(L[r, c])
    // success: Q = L' * diag(D) * L on (and, Q being symmetric, off) the lower triangle
    ensures info == 0 ==> Factored(Q, Snapshot(L), D[..], n, -1)
    // failure: the pivot at p is the true remaining diagonal of Q and is not positive,
    // the rows below p are factorised
    ensures info == -1 ==> exists p: nat :: PivotFails(Q, Snapshot(L), D[..], n, p)
  {
    var A := Q;  // the working copy
    info := 0;
    ghost var Lin, Din := Snapshot(L), D[..];
    forall r, c | 0 <= r < n && 0 <= c < n
      ensures Gram(Snapshot(L), D[..], n, r, c, n) == 0.0
    {
    }
    var i: int := n - 1;
    while i >= 0
      invariant -1 <= i < n
      invariant IsMatrix(A, n, n)
      invariant RowsSet(Snapshot(L), Lin, n, i) && PivotsSet(D[..], Din, i)
      invariant Factored(Q, Snapshot(L), D[..], n, i)
      invariant Remaining(Q, A, Snapshot(L), D[..], n, i)
    {
      ghost var L0, D0, A0 := Snapshot(L), D[..], A;
      D[i] := A[i][i];
      if D[i] <= 0.0 {
        info := -1;
        PivotKeepsFactorisation(Q, A0, L0, D0, D[..], n, i);
        assert PivotFails(Q, Snapshot(L), D[..], n, i);
        return;
      }
      SetRow(n, A, L, i, D[i]);
      A := TakeOffRow(n, A, L, i, D[i]);
      ghost var L1, D1 := Snapshot(L), D[..];
      StepKeepsFactorisation(Q, A0, L0, D0, A, L1, D1, n, i);
      StepSetsRow(L0, Lin, A0, D0, Din, L1, D1, n, i);
      i := i - 1;
    }
  }
}
