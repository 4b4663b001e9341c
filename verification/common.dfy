/** Shared vocabulary of the LAMBDA model: dense matrices and the rounding,
    sign and swap macros of RTKLIB's common header. */
module Common {

  /** A dense matrix value, `M[r][c]` being row r, column c. The source keeps
      matrices in flat column-major buffers (element (r, c) at `r + c*n`); the
      model keeps them in two-dimensional arrays and reads them back as values
      through `Snapshot`. */
  type Matrix = seq<seq<real>>

  predicate IsMatrix(M: Matrix, rows: nat, cols: nat) {
    |M| == rows && forall r :: 0 <= r < rows ==> |M[r]| == cols
  }

  /** The value held by a two-dimensional array. */
  function Snapshot(A: array2<real>): (M: Matrix)
    reads A
    ensures IsMatrix(M, A.Length0, A.Length1)
    ensures forall r, c :: 0 <= r < A.Length0 && 0 <= c < A.Length1 ==> M[r][c] == A[r, c]
  {
    seq(A.Length0, r requires 0 <= r < A.Length0 reads A =>
      seq(A.Length1, c requires 0 <= c < A.Length1 reads A => A[r, c]))
  }

  /** Column c of an n-row matrix. */
  function Column(M: Matrix, n: nat, c: nat): (col: seq<real>)
    requires |M| == n && forall r :: 0 <= r < n ==> c < |M[r]|
    ensures |col| == n && forall r :: 0 <= r < n ==> col[r] == M[r][c]
  {
    seq(n, r requires 0 <= r < n => M[r][c])
  }

  predicate IsInt(x: real) {
    x == x.Floor as real
  }

  predicate IntegralVector(v: seq<real>) {
    forall r :: 0 <= r < |v| ==> IsInt(v[r])
  }

  predicate Integral(M: Matrix) {
    forall r, c :: 0 <= r < |M| && 0 <= c < |M[r]| ==> IsInt(M[r][c])
  }

  /** Unit lower triangular: ones on the diagonal, zeros above it. */
  predicate UnitLower(M: Matrix, n: nat)
    requires IsMatrix(M, n, n)
  {
    forall r, c :: 0 <= r < n && 0 <= c < n ==>
      (r == c ==> M[r][c] == 1.0) && (r < c ==> M[r][c] == 0.0)
  }

  /** `fabs`. */
  function Abs(x: real): real {
    if x < 0.0 then -x else x
  }

  /** `ROUND(x)`, taken as RTKLIB defines it: `floor(x + 0.5)`. The result is
      the nearest integer, halves going up. */
  function Round(x: real): (r: int)
    ensures x - 0.5 < r as real <= x + 0.5
  {
    (x + 0.5).Floor
  }

  /** `ROUND(x)` kept as a double, as the search keeps its trial integers. */
  function RoundReal(x: real): (r: real)
    ensures IsInt(r) && x - 0.5 < r <= x + 0.5
  {
    Round(x) as real
  }

  /** `SGN(x)`, taken as RTKLIB defines it: -1 for `x <= 0`, else 1. */
  function Sgn(x: real): (r: real)
    ensures r == 1.0 || r == -1.0
    ensures r == 1.0 <==> x > 0.0
  {
    if x <= 0.0 then -1.0 else 1.0
  }

  /** `s` with the entries at positions p and q exchanged (`SWAP`). */
  function Swapped<T>(s: seq<T>, p: nat, q: nat): (r: seq<T>)
    requires p < |s| && q < |s|
    ensures |r| == |s| && r[p] == s[q] && r[q] == s[p]
    ensures forall t :: 0 <= t < |s| && t != p && t != q ==> r[t] == s[t]
  {
    s[p := s[q]][q := s[p]]
  }

  /** Exchanging two entries keeps the multiset of entries. */
  lemma SwappedPermutes<T>(s: seq<T>, p: nat, q: nat)
    requires p < |s| && q < |s|
    ensures multiset(Swapped(s, p, q)) == multiset(s)
  {
    var t := s[p := s[q]];
    assert multiset(t) == multiset(s) - multiset{s[p]} + multiset{s[q]};
    assert multiset(t[q := s[p]]) == multiset(t) - multiset{t[q]} + multiset{s[p]};
  }
}
