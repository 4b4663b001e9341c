/** The entry point `lambda` of lambda.cpp: LAMBDA reduction, MLAMBDA
    search and the fixed-failure-rate ratio test, chained as RTKLIB chains
    them. */
module Ambiguity {
  import opened Common
  import opened Factorization
  import opened Decorrelation
  import opened IntegerSearch
  import opened Validation

  /** The dot product of two vectors. */
  function Dot(u: seq<real>, v: seq<real>): real
    requires |u| == |v|
  {
    if |u| == 0 then 0.0 else Dot(u[..|u| - 1], v[..|v| - 1]) + u[|u| - 1] * v[|v| - 1]
  }

  /** `Z' * a`, the float ambiguities in the decorrelated space (line 428). */
  function TransposeTimes(Z: Matrix, a: seq<real>, n: nat): (z: seq<real>)
    requires IsMatrix(Z, n, n) && |a| == n
    ensures |z| == n
  {
    seq(n, i requires 0 <= i < n => Dot(Column(Z, n, i), a))
  }

  /** The success rate of integer bootstrapping: the product over the
      ambiguities of the success factor of each conditional variance. */
  ghost function SuccessProduct(D: seq<real>, factor: real -> real): real {
    if |D| == 0 then 1.0 else SuccessProduct(D[..|D| - 1], factor) * factor(D[|D| - 1])
  }

  /** A product of factors between 0 and 1 lies between 0 and 1, and never
      grows as factors are added. */
  lemma {:induction false} SuccessProductBounds(D: seq<real>, factor: real -> real)
    requires forall d :: 0.0 <= factor(d) <= 1.0
    ensures 0.0 <= SuccessProduct(D, factor) <= 1.0
    ensures 0 < |D| ==> SuccessProduct(D, factor) <= SuccessProduct(D[..|D| - 1], factor)
  {
    if 0 < |D| {
      var D' := D[..|D| - 1];
      SuccessProductBounds(D', factor);
      var last := D[|D| - 1];
      var x, y := SuccessProduct(D', factor), factor(last);
      assert 0.0 <= y <= 1.0;
      ScaleDown(x, y);
      assert SuccessProduct(D, factor) == x * y;
    }
  }

  lemma ScaleDown(x: real, y: real)
    requires 0.0 <= x && 0.0 <= y <= 1.0
    ensures 0.0 <= x * y <= x
  {
    assert x - x * y == x * (1.0 - y);
  }

  /** Lines 422-423: `srate`, the product of `2*normcdf(0.5/sqrt(D[i]))-1`
      over the ambiguities. The factor, which the source computes with an
      approximation of erf, is a parameter. */
  method SuccessRate(D: array<real>, factor: real -> real) returns (srate: real)
    requires forall d :: 0.0 <= factor(d) <= 1.0
    ensures srate == SuccessProduct(D[..], factor)
    ensures 0.0 <= srate <= 1.0
  {
    srate := 1.0;
    var i := 0;
    while i < D.Length
      invariant 0 <= i <= D.Length
      invariant srate == SuccessProduct(D[..i], factor)
    {
      assert D[..i + 1][..i] == D[..i];
      srate := srate * factor(D[i]);
      i := i + 1;
    }
    assert D[..i] == D[..];
    SuccessProductBounds(D[..], factor);
  }

  /** Lines 416-438, the part of `lambda` after a successful
      factorisation: reduction, success rate, critical value, search on
      `Z' * a` and the ratio test. A reduction that runs out of its swap
      budget, with a swap still pending, gives -2 with `reduced` false. The problem searched is built
      from the reduced L, D and Z; the critical value is read at failure
      rate `1 - srate`; the result and the kept vectors are those of the
      search. The tables hold critical values for 1 to 40 ambiguities only:
      with more, no critical value is read and the fix is not validated
      (`pass` false), where the source reads past the table row. */
  method Estimate(n: nat, m: nat, a: seq<real>, L: array2<real>, D: array<real>, Z: array2<real>,
                  E: array2<real>, s: array<real>, Pf: real, table1: Matrix, table10: Matrix,
                  factor: real -> real, solveInfo: int, budget: nat)
    returns (reduced: bool, info: int, pass: bool, ghost p: Problem, failRate: real,
             ghost cratio: real, ghost kept: seq<(real, seq<real>)>, ghost complete: bool)
    requires 0 < n && 0 < m && |a| == n
    requires L.Length0 == n && L.Length1 == n && Z.Length0 == n && Z.Length1 == n && D.Length == n
    requires E.Length0 == n && E.Length1 == m && s.Length == m
    requires L != Z && E != L && E != Z && D != s
    requires forall q :: 0 <= q < n ==> D[q] > 0.0
    requires UnitLower(Snapshot(L), n) && Integral(Snapshot(Z))
    requires IsTable(table1, Table1Keys) && IsTable(table10, Table10Keys)
    requires forall d :: 0.0 <= factor(d) <= 1.0
    modifies L, D, Z, E, s
    ensures p == Problem(n, Snapshot(L), D[..], TransposeTimes(Snapshot(Z), a, n))
    ensures p.Valid() && UnitLower(p.L, n) && Integral(Snapshot(Z))
    ensures reduced ==> forall q :: 0 <= q < n - 1 ==> NoSwapPending(p.L, p.D, n, q)
    ensures !reduced ==> info == -2 && unchanged(s)
    ensures !reduced ==> exists q :: 0 <= q < n - 1 && !NoSwapPending(p.L, p.D, n, q)
    ensures reduced ==> info == if complete then solveInfo else -1
    ensures reduced ==> failRate == 1.0 - SuccessProduct(D[..], factor)
    ensures reduced && n < Columns ==> CriticalValue(failRate, n, Pf, table1, table10, cratio)
    ensures reduced ==> Searched(p, m, old(s[..]), old(Snapshot(E)), s[..], Snapshot(E), kept, complete)
    ensures reduced ==> pass == (n < Columns && RatioTest(s[..], cratio))
  {
    pass, failRate, cratio, kept, complete := false, 0.0, 0.0, [], false;
    reduced := Reduction(n, L, D, Z, budget);
    p := Problem(n, Snapshot(L), D[..], TransposeTimes(Snapshot(Z), a, n));
    if !reduced {
      info := -2;
      return;
    }
    var srate := SuccessRate(D, factor);
    failRate := 1.0 - srate;
    var mu := 0.0;
    if n < Columns {
      ghost var row;
      mu, row := FfRatio(failRate, n, Pf, table1, table10);
      cratio := mu;
    }
    var z := TransposeTimes(Snapshot(Z), a, n);
    var problem := Problem(n, Snapshot(L), D[..], z);
    var status;
    status, kept := Search(problem, m, E, s);
    complete := status == 0;
    info := if status == 0 then solveInfo else status;
    pass := n < Columns && RatioTest(s[..], mu);
  }

  /** Lines 413 and 416: L starts as zeros and is factored with D by LD. On
      success L is unit lower triangular, D positive and Q = L' diag(D) L;
      on failure the first non-positive pivot is the true remaining diagonal
      of Q after the rows below it, which are factorised. */
  method Factor(n: nat, Q: Matrix) returns (info: int, L: array2<real>, D: array<real>)
    requires IsMatrix(Q, n, n)
    ensures fresh(L) && fresh(D) && L.Length0 == n && L.Length1 == n && D.Length == n
    ensures info == 0 || info == -1
    ensures info == 0 <==> forall k :: 0 <= k < n ==> D[k] > 0.0
    ensures info == 0 ==> UnitLower(Snapshot(L), n) && Factored(Q, Snapshot(L), D[..], n, -1)
    ensures info == -1 ==> exists p: nat :: PivotFails(Q, Snapshot(L), D[..], n, p)
  {
    L := new real[n, n]((r, c) => 0.0);
    D := new real[n];
    info := LD(n, Q, L, D);
  }

  /** `eye(n)`, the starting integer transformation Z. */
  method Identity(n: nat) returns (Z: array2<real>)
    ensures fresh(Z) && Z.Length0 == n && Z.Length1 == n
    ensures forall r, c :: 0 <= r < n && 0 <= c < n ==> Z[r, c] == if r == c then 1.0 else 0.0
    ensures Integral(Snapshot(Z)) && UnitLower(Snapshot(Z), n)
  {
    Z := new real[n, n]((r, c) => if r == c then 1.0 else 0.0);
  }

  /** Lines 396-443: integer least-squares estimation of the n float
      ambiguities a with covariance Q, keeping the m best integer vectors.

      With n or m not positive the result is -1 and nothing is touched.
      Otherwise Q is factorised as `L' * diag(D) * L`; if that fails the
      result is LD's -1 and `pass` keeps its value. On success L, D and the
      integer transformation Z are reduced, the critical value `cratio` is
      read from the tables at failure rate 1 - srate, the search runs on
      `Z' * a`, and the ratio test on the two smallest costs sets `pass`,
      whether or not the search completed (with more than 40 ambiguities
      no critical value is tabulated and `pass` is false). The result is then the search's
      -1, or the status of the back-transformation `Z' \ E` (`solveInfo`).
      The candidates E are those of the decorrelated problem `p`, whose
      float ambiguities are `Zr' * a` for the reduced integer matrix Zr. */
  method Lambda(n: int, m: int, a: seq<real>, Q: Matrix, s: array<real>, Pf: real, pass0: bool,
                table1: Matrix, table10: Matrix, factor: real -> real, solveInfo: int, budget: nat)
    returns (info: int, pass: bool, E: array2<real>, ghost factored: bool, ghost reduced: bool,
             ghost complete: bool, ghost p: Problem, ghost failRate: real, ghost cratio: real,
             ghost kept: seq<(real, seq<real>)>,
             ghost L0: Matrix, ghost D0: seq<real>, ghost Dr: seq<real>, ghost Zr: Matrix, ghost E0: Matrix)
    requires 0 < n ==> IsMatrix(Q, n, n) && |a| == n
    requires 0 < m ==> s.Length == m
    requires IsTable(table1, Table1Keys) && IsTable(table10, Table10Keys)
    requires forall d :: 0.0 <= factor(d) <= 1.0
    modifies s
    ensures (n <= 0 || m <= 0) ==> info == -1 && !factored && unchanged(s)
    ensures !factored ==> info == -1 && pass == pass0 && unchanged(s)
    ensures 0 < n && 0 < m ==> IsMatrix(L0, n, n) && |D0| == n
    ensures 0 < n && 0 < m ==> (factored <==> forall k :: 0 <= k < n ==> D0[k] > 0.0)
    ensures factored ==> UnitLower(L0, n) && Factored(Q, L0, D0, n, -1)
    ensures 0 < n && 0 < m && !factored ==> exists p: nat :: PivotFails(Q, L0, D0, n, p)
    ensures factored ==> 0 < n && 0 < m && p.Valid() && p.n == n && UnitLower(p.L, n)
    ensures factored ==> IsMatrix(Zr, n, n) && Integral(Zr) && p.D == Dr && p.zs == TransposeTimes(Zr, a, n)
    ensures factored && reduced ==> forall q :: 0 <= q < n - 1 ==> NoSwapPending(p.L, p.D, n, q)
    ensures factored && !reduced ==> info == -2 && unchanged(s)
    ensures factored && !reduced ==> exists q :: 0 <= q < n - 1 && !NoSwapPending(p.L, p.D, n, q)
    ensures factored && reduced ==> info == if complete then solveInfo else -1
    ensures factored && reduced ==> failRate == 1.0 - SuccessProduct(Dr, factor)
    ensures factored && reduced && n < Columns ==> CriticalValue(failRate, n, Pf, table1, table10, cratio)
    ensures factored && reduced ==>
      E.Length0 == n && E.Length1 == m && IsMatrix(E0, n, m) &&
      Searched(p, m, old(s[..]), E0, s[..], Snapshot(E), kept, complete)
    ensures factored && reduced ==> pass == (n < Columns && RatioTest(s[..], cratio))
  {
    info, pass, factored, reduced, complete := -1, pass0, false, false, false;
    p, failRate, cratio, kept := Problem(0, [], [], []), 0.0, 0.0, [];
    L0, D0, Dr, Zr, E0 := [], [], [], [], [];
    E := new real[0, 0];
    if n <= 0 || m <= 0 {
      return;
    }
    var L, D;
    info, L, D := Factor(n, Q);
    L0, D0 := Snapshot(L), D[..];
    if info != 0 {
      return;
    }
    factored := true;
    var Z := Identity(n);
    E := new real[n, m];
    E0 := Snapshot(E);
    reduced, info, pass, p, failRate, cratio, kept, complete :=
      Estimate(n, m, a, L, D, Z, E, s, Pf, table1, table10, factor, solveInfo, budget);
    Zr := Snapshot(Z);
    Dr := D[..];
  }
}
