/** The validation stage of lambda.cpp: the bubble sort `rsort`, the
    critical value of the fixed-failure-rate ratio test (`ffratio`), read
    from one of two tables by linear interpolation in the failure rate, and
    the ratio test itself. */
module Validation {
  import opened Common

  datatype Option<T> = None | Some(value: T)

  /** The failure-rate column (column 0) of `table1`, the table for a
      pre-defined failure rate of 0.001. */
  const Table1Keys: seq<real> := [
    0.0, 0.001, 0.002, 0.005, 0.01, 0.015, 0.02, 0.025, 0.03, 0.035, 0.04, 0.045,
    0.05, 0.055, 0.06, 0.065, 0.07, 0.075, 0.08, 0.085, 0.09, 0.095, 0.1, 0.12,
    0.15, 0.2, 0.25, 0.3, 0.35, 0.4, 0.45, 0.499, 0.5, 1.0]

  /** The failure-rate column (column 0) of `table10`, used for every other
      pre-defined failure rate. */
  const Table10Keys: seq<real> := [
    0.0, 0.01, 0.011, 0.016, 0.021, 0.026, 0.031, 0.036, 0.041, 0.046, 0.051,
    0.056, 0.061, 0.066, 0.071, 0.076, 0.081, 0.086, 0.091, 0.096, 0.12, 0.15,
    0.2, 0.25, 0.3, 0.35, 0.4, 0.45, 0.499, 0.5, 1.0]

  /** Both tables have 41 columns: the failure rate, then one critical value
      for each number of ambiguities 1 to 40. */
  const Columns: nat := 41

  predicate Increasing(keys: seq<real>) {
    forall i, j :: 0 <= i < j < |keys| ==> keys[i] < keys[j]
  }

  /** A table of `Columns` columns whose first column is `keys`; the other
      entries are arbitrary. */
  predicate IsTable(T: Matrix, keys: seq<real>) {
    IsMatrix(T, |keys|, Columns) && forall i :: 0 <= i < |keys| ==> T[i][0] == keys[i]
  }

  /** The keys the tables are indexed by run from 0 to 1 in increasing
      order. */
  predicate GoodKeys(keys: seq<real>) {
    1 < |keys| && keys[0] == 0.0 && keys[|keys| - 1] == 1.0 && Increasing(keys)
  }

  lemma {:induction false} AdjacentIncreasing(keys: seq<real>)
    requires forall i :: 0 <= i < |keys| - 1 ==> keys[i] < keys[i + 1]
    ensures Increasing(keys)
  {
    forall i, j | 0 <= i < j < |keys|
      ensures keys[i] < keys[j]
    {
      var k := i;
      while k < j - 1
        invariant i <= k < j && keys[i] <= keys[k]
      {
        k := k + 1;
      }
    }
  }

  lemma KeysGood()
    ensures GoodKeys(Table1Keys) && GoodKeys(Table10Keys)
  {
    AdjacentIncreasing(Table1Keys);
    AdjacentIncreasing(Table10Keys);
  }

  /** The key column of the table `ffratio` reads: `table1` exactly when the
      pre-defined failure rate is 0.001. */
  function KeysFor(Pf: real): (keys: seq<real>)
    ensures GoodKeys(keys)
    ensures |keys| == if Pf == 0.001 then 34 else 31
  {
    KeysGood();
    if Pf == 0.001 then Table1Keys else Table10Keys
  }

  // ---------------------------------------------------------------- rsort

  /** The (distance, row) pairs held by the first dim places of the two
      arrays `rsort` sorts in lockstep. */
  function Pairs(Pd: seq<real>, index: seq<int>, dim: nat): (ps: seq<(real, int)>)
    requires dim <= |Pd| && dim <= |index|
    ensures |ps| == dim && forall k :: 0 <= k < dim ==> ps[k] == (Pd[k], index[k])
  {
    seq(dim, k requires 0 <= k < dim => (Pd[k], index[k]))
  }

  predicate SortedUpTo(s: seq<real>, dim: nat)
    requires dim <= |s|
  {
    forall a, b :: 0 <= a < b < dim ==> s[a] <= s[b]
  }

  /** Every place from `b` on holds a value no smaller than any place
      before it: the part the passes of the bubble sort have settled. */
  predicate SettledFrom(s: seq<real>, dim: nat, b: int)
    requires dim <= |s|
  {
    forall a, c :: 0 <= a < c < dim && b <= c ==> s[a] <= s[c]
  }

  /** The exchange of lines 146-152: places j and j+1 of both arrays. */
  method SwapAdjacent(Pd: array<real>, index: array<int>, j: nat, dim: nat)
    requires j + 1 < dim <= Pd.Length && dim <= index.Length
    modifies Pd, index
    ensures Pd[..] == Swapped(old(Pd[..]), j, j + 1)
    ensures index[..] == Swapped(old(index[..]), j, j + 1)
    ensures multiset(Pairs(Pd[..], index[..], dim)) == multiset(Pairs(old(Pd[..]), old(index[..]), dim))
  {
    ghost var ps := Pairs(Pd[..], index[..], dim);
    var num, ind := Pd[j], index[j];
    Pd[j] := Pd[j + 1];
    Pd[j + 1] := num;
    index[j] := index[j + 1];
    index[j + 1] := ind;
    assert Pairs(Pd[..], index[..], dim) == Swapped(ps, j, j + 1);
    SwappedPermutes(ps, j, j + 1);
  }

  /** Place j holds the largest of places 0..j. */
  predicate PrefixMax(s: seq<real>, j: nat)
    requires j < |s|
  {
    forall a :: 0 <= a <= j ==> s[a] <= s[j]
  }

  lemma PrefixMaxStep(s: seq<real>, j: nat)
    requires j + 1 < |s| && PrefixMax(s, j) && s[j] <= s[j + 1]
    ensures PrefixMax(s, j + 1)
  {
  }

  /** An exchange below the settled part keeps it settled, and carries the
      largest value met so far one place on. */
  lemma ExchangeKeepsSettled(s0: seq<real>, s1: seq<real>, dim: nat, j: nat, b: int)
    requires dim <= |s0| && j + 1 < b <= dim
    requires s1 == Swapped(s0, j, j + 1) && s0[j + 1] < s0[j]
    requires SettledFrom(s0, dim, b) && PrefixMax(s0, j)
    ensures SettledFrom(s1, dim, b) && PrefixMax(s1, j + 1)
  {
    forall a, c | 0 <= a < c < dim && b <= c
      ensures s1[a] <= s1[c]
    {
      assert s1[c] == s0[c];
      if a == j {
        assert s1[a] == s0[j + 1];
      } else if a == j + 1 {
        assert s1[a] == s0[j];
      } else {
        assert s1[a] == s0[a];
      }
    }
  }

  /** With the largest of places 0..b-1 at place b-1, the settled part
      starts one place earlier. */
  lemma SettledGrows(s: seq<real>, dim: nat, b: nat)
    requires 0 < b <= dim <= |s|
    requires SettledFrom(s, dim, b) && PrefixMax(s, b - 1)
    ensures SettledFrom(s, dim, b - 1)
  {
  }

  /** One pass of the inner loop of lines 142-154 over places
      0..dim-1-i: the largest of them ends at place dim-1-i, so the settled
      part grows by one place. */
  method BubblePass(Pd: array<real>, index: array<int>, dim: nat, i: nat)
    requires i < dim <= Pd.Length && dim <= index.Length
    requires SettledFrom(Pd[..], dim, dim - i)
    modifies Pd, index
    ensures SettledFrom(Pd[..], dim, dim - i - 1)
    ensures multiset(Pairs(Pd[..], index[..], dim)) == multiset(Pairs(old(Pd[..]), old(index[..]), dim))
    ensures Pd[dim..] == old(Pd[dim..]) && index[dim..] == old(index[dim..])
  {
    ghost var pairs0 := Pairs(Pd[..], index[..], dim);
    var j := 0;
    while j + i < dim - 1
      invariant j + i <= dim - 1
      invariant PrefixMax(Pd[..], j)
      invariant SettledFrom(Pd[..], dim, dim - i)
      invariant multiset(Pairs(Pd[..], index[..], dim)) == multiset(pairs0)
      invariant Pd[dim..] == old(Pd[dim..]) && index[dim..] == old(index[dim..])
    {
      if Pd[j] > Pd[j + 1] {
        ghost var s0 := Pd[..];
        SwapAdjacent(Pd, index, j, dim);
        ExchangeKeepsSettled(s0, Pd[..], dim, j, dim - i);
      } else {
        PrefixMaxStep(Pd[..], j);
      }
      j := j + 1;
    }
    SettledGrows(Pd[..], dim, dim - i);
  }

  /** Lines 134-156: bubble sort of the first dim distances into ascending
      order, each row number moving with its distance. */
  method RSort(Pd: array<real>, index: array<int>, dim: nat)
    requires dim <= Pd.Length && dim <= index.Length
    modifies Pd, index
    ensures SortedUpTo(Pd[..], dim)
    ensures multiset(Pairs(Pd[..], index[..], dim)) == multiset(Pairs(old(Pd[..]), old(index[..]), dim))
    ensures Pd[dim..] == old(Pd[dim..]) && index[dim..] == old(index[dim..])
  {
    ghost var pairs0 := Pairs(Pd[..], index[..], dim);
    var i := 0;
    while i < dim
      invariant 0 <= i <= dim
      invariant SettledFrom(Pd[..], dim, dim - i)
      invariant multiset(Pairs(Pd[..], index[..], dim)) == multiset(pairs0)
      invariant Pd[dim..] == old(Pd[dim..]) && index[dim..] == old(index[dim..])
    {
      BubblePass(Pd, index, dim, i);
      i := i + 1;
    }
  }

  /** After the sort the first place holds a smallest distance, paired
      with the row it belongs to. */
  lemma SmallestPair(d0: seq<real>, ix0: seq<int>, d1: seq<real>, ix1: seq<int>, dim: nat)
    requires 0 < dim <= |d0| && dim <= |ix0| && dim <= |d1| && dim <= |ix1|
    requires forall q :: 0 <= q < dim ==> ix0[q] == q
    requires SortedUpTo(d1, dim)
    requires multiset(Pairs(d1, ix1, dim)) == multiset(Pairs(d0, ix0, dim))
    ensures 0 <= ix1[0] < dim && d1[0] == d0[ix1[0]]
    ensures forall q :: 0 <= q < dim ==> d1[0] <= d0[q]
  {
    var p0, p1 := Pairs(d0, ix0, dim), Pairs(d1, ix1, dim);
    assert p1[0] in multiset(p0);
    var q :| 0 <= q < dim && p0[q] == p1[0];
    forall q | 0 <= q < dim
      ensures d1[0] <= d0[q]
    {
      assert p0[q] in multiset(p1);
      var k :| 0 <= k < dim && p1[k] == p0[q];
    }
  }

  // -------------------------------------------------------------- ffratio

  /** The nearest key to x in a key column from 0 to 1, together with its
      neighbour on the side of x, brackets x. */
  lemma NearestBrackets(keys: seq<real>, x: real, i0: nat)
    requires GoodKeys(keys) && 0.0 <= x <= 1.0 && i0 < |keys|
    requires forall q :: 0 <= q < |keys| ==> Abs(keys[i0] - x) <= Abs(keys[q] - x)
    ensures keys[i0] < x ==> i0 + 1 < |keys| && x < keys[i0 + 1]
    ensures x < keys[i0] ==> 0 < i0 && keys[i0 - 1] < x
  {
    if keys[i0] < x {
      assert i0 != |keys| - 1;
      assert Abs(keys[i0] - x) <= Abs(keys[i0 + 1] - x);
    }
    if x < keys[i0] {
      assert i0 != 0;
      assert Abs(keys[i0] - x) <= Abs(keys[i0 - 1] - x);
    }
  }

  /** The value at x of the straight line through (x0, y0) and (x1, y1). */
  function Lerp(x0: real, y0: real, x1: real, y1: real, x: real): real
    requires x0 != x1
  {
    y0 + (x - x0) * (y1 - y0) / (x1 - x0)
  }

  predicate Between(v: real, a: real, b: real) {
    (a <= v <= b) || (b <= v <= a)
  }

  /** Interpolating strictly between two keys gives a value between the two
      tabulated values. */
  lemma LerpBetween(x0: real, y0: real, x1: real, y1: real, x: real)
    requires x0 < x < x1
    ensures Between(Lerp(x0, y0, x1, y1, x), y0, y1)
  {
    var w, h := x - x0, x1 - x0;
    var f := w / h;
    assert 0.0 < w < h;
    assert f * h == w;
    if 1.0 <= f {
      assert false;
    }
    assert 0.0 < f < 1.0;
    assert w * (y1 - y0) / h == f * (y1 - y0);
    if y0 <= y1 {
      assert 0.0 <= f * (y1 - y0) <= y1 - y0;
    } else {
      assert y1 - y0 <= f * (y1 - y0) <= 0.0;
    }
  }

  /** The formula of line 217, written from the lower of the two keys, is
      the same line written from the upper one. */
  lemma LineFromEitherEnd(p0: real, m0: real, p1: real, m1: real, x: real)
    requires p0 != p1
    ensures m0 + (x - p0) * (m0 - m1) / (p0 - p1) == Lerp(p0, m0, p1, m1, x)
  {
    assert (x - p0) * (m0 - m1) == -((x - p0) * (m1 - m0));
    assert (p0 - p1) == -(p1 - p0);
  }

  /** Lines 171-179 and 192-200: the key column and the distance of every
      key to x, sorted by `rsort` with the row numbers alongside; the first
      row number after the sort is a row whose key is nearest to x. */
  method NearestRow(T: Matrix, ghost keys: seq<real>, dim: nat, x: real) returns (Pt: array<real>, i0: nat)
    requires IsTable(T, keys) && dim == |keys| && 0 < dim
    ensures fresh(Pt) && Pt[..] == keys
    ensures i0 < dim && forall q :: 0 <= q < dim ==> Abs(keys[i0] - x) <= Abs(keys[q] - x)
  {
    var Pd, index;
    Pt, Pd, index := new real[dim], new real[dim], new int[dim];
    var i := 0;
    while i < dim
      invariant 0 <= i <= dim
      invariant forall q :: 0 <= q < i ==> Pt[q] == keys[q] && Pd[q] == Abs(keys[q] - x) && index[q] == q
    {
      Pt[i] := T[i][0];
      Pd[i] := Abs(Pt[i] - x);
      index[i] := i;
      i := i + 1;
    }
    ghost var d0, ix0 := Pd[..], index[..];
    RSort(Pd, index, dim);
    SmallestPair(d0, ix0, Pd[..], index[..], dim);
    i0 := index[0];
  }

  /** Lines 214-217: the straight line through (Pn[0], mun[0]) and
      (Pn[1], mun[1]) read at x, written from the smaller of the two keys;
      when the keys coincide, mun[0]. */
  method ReadLine(Pn: seq<real>, mun: seq<real>, x: real) returns (mu: real)
    requires |Pn| == 2 && |mun| == 2
    ensures Pn[0] == Pn[1] ==> mu == mun[0]
    ensures Pn[0] < Pn[1] ==> mu == Lerp(Pn[0], mun[0], Pn[1], mun[1], x)
    ensures Pn[1] < Pn[0] ==> mu == Lerp(Pn[1], mun[1], Pn[0], mun[0], x)
  {
    var j := if Pn[0] < Pn[1] then 0 else 1;
    if Pn[0] - Pn[1] == 0.0 {
      mu := mun[0];
    } else {
      mu := mun[j] + (x - Pn[j]) * (mun[0] - mun[1]) / (Pn[0] - Pn[1]);
      if j == 0 {
        LineFromEitherEnd(Pn[0], mun[0], Pn[1], mun[1], x);
      }
    }
  }

  /** mu is the critical value the tables give for n ambiguities at
      failure rate PfILS: with `row` the key of the table Pf selects that
      brackets PfILS from below, the entry there when PfILS is that key,
      and otherwise the straight line through the entries of the two keys
      bracketing PfILS. */
  ghost predicate CriticalValue(PfILS: real, n: nat, Pf: real, table1: Matrix, table10: Matrix, mu: real)
    requires n < Columns && IsTable(table1, Table1Keys) && IsTable(table10, Table10Keys)
  {
    var keys, T := KeysFor(Pf), if Pf == 0.001 then table1 else table10;
    exists row :: ReadAt(keys, T, n, PfILS, mu, row)
  }

  /** mu is read from table T at x with `row` the lower bracketing key: the
      entry of column n itself when x is that key, otherwise the straight
      line through the entries of `row` and the next key, evaluated at x. */
  ghost predicate ReadAt(keys: seq<real>, T: Matrix, n: nat, x: real, mu: real, row: nat)
    requires GoodKeys(keys) && IsTable(T, keys) && n < Columns
  {
    row < |keys| && keys[row] <= x && (row + 1 < |keys| ==> x < keys[row + 1]) &&
    (keys[row] == x ==> mu == T[row][n]) &&
    (keys[row] < x ==> row + 1 < |keys| && mu == Lerp(keys[row], T[row][n], keys[row + 1], T[row + 1][n], x))
  }

  /** Lines 177-219 on the selected table: the nearest key to x found with
      `rsort`, its neighbour on the side of x, and the straight line through
      their two entries of column n. */
  method ReadTable(T: Matrix, ghost keys: seq<real>, dim: nat, n: nat, x: real) returns (mu: real, ghost row: nat)
    requires GoodKeys(keys) && IsTable(T, keys) && dim == |keys| && 1 <= n < Columns && 0.0 <= x <= 1.0
    ensures ReadAt(keys, T, n, x, mu, row)
    ensures row + 1 < |keys| && keys[row] < x ==> Between(mu, T[row][n], T[row + 1][n])
  {
    var Pt, i0 := NearestRow(T, keys, dim, x);
    NearestBrackets(keys, x, i0);

    var diff := x - Pt[i0];
    var nt := if diff > 0.0 then 1 else if diff < 0.0 then -1 else 0;
    var Pn := [Pt[i0], Pt[i0 + nt]];
    var mun := [T[i0][n], T[i0 + nt][n]];
    mu := ReadLine(Pn, mun, x);
    row := if nt == -1 then i0 - 1 else i0;
    if nt != 0 {
      LerpBetween(keys[row], T[row][n], keys[row + 1], T[row + 1][n], x);
    }
  }

  /** Lines 163-220: the critical value for n ambiguities at failure rate
      PfILS. The table is `table1` when Pf is 0.001 and `table10`
      otherwise; every key's distance to PfILS is sorted with `rsort`, the
      nearest key and its neighbour on the side of PfILS bracket it, and
      the critical value is read off the straight line through their two
      table entries (the entry itself when PfILS is a key). The ghost `row`
      is the lower bracketing key. */
  method FfRatio(PfILS: real, n: nat, Pf: real, table1: Matrix, table10: Matrix)
    returns (mu: real, ghost row: nat)
    requires 0.0 <= PfILS <= 1.0 && 1 <= n < Columns
    requires IsTable(table1, Table1Keys) && IsTable(table10, Table10Keys)
    ensures ReadAt(KeysFor(Pf), if Pf == 0.001 then table1 else table10, n, PfILS, mu, row)
    ensures var keys, T := KeysFor(Pf), if Pf == 0.001 then table1 else table10;
      row + 1 < |keys| && keys[row] < PfILS ==> Between(mu, T[row][n], T[row + 1][n])
    ensures CriticalValue(PfILS, n, Pf, table1, table10, mu)
  {
    ghost var keys := KeysFor(Pf);
    var T: Matrix, dim: nat := table1, 34;
    if Pf != 0.001 {
      T, dim := table10, 31;
    }
    mu, row := ReadTable(T, keys, dim, n, PfILS);
  }

  /** Lines 186-187 and 210-211 as written: column n of a table row is read
      whatever the number n of ambiguities is. `None` stands for a read
      past the `Columns` entries of the row, which happens for n > 40. */
  function TableEntryAsWritten(T: Matrix, row: nat, n: nat): (r: Option<real>)
    requires row < |T|
    ensures r.None? <==> |T[row]| <= n
    ensures r.Some? ==> r.value == T[row][n]
  {
    if n < |T[row]| then Some(T[row][n]) else None
  }

  /** With 41 ambiguities the read of lines 186-187 leaves the row of
      either table. */
  lemma TableEntryAsWrittenReadsPastRow(T: Matrix, keys: seq<real>, row: nat)
    requires IsTable(T, keys) && row < |keys|
    ensures TableEntryAsWritten(T, row, 41) == None
  {
  }

  // ----------------------------------------------------------- ratio test

  /** Lines 436 and 438 on the two smallest costs: `s[0]/s[1] <= cratio` in IEEE
      arithmetic. A zero divisor gives an infinity of the sign of s0 or,
      for 0/0, NaN; only minus infinity passes. */
  predicate RatioPasses(s0: real, s1: real, cratio: real) {
    if s1 == 0.0 then s0 < 0.0 else s0 / s1 <= cratio
  }

  /** For costs in increasing order, the test passes exactly when the
      second-smallest cost is positive and the smallest is at most cratio
      times it. */
  lemma RatioPassesMeaning(s0: real, s1: real, cratio: real)
    requires 0.0 <= s0 <= s1
    ensures RatioPasses(s0, s1, cratio) <==> 0.0 < s1 && s0 <= cratio * s1
  {
    if 0.0 < s1 {
      assert s0 / s1 * s1 == s0;
      if s0 / s1 <= cratio {
        assert s0 / s1 * s1 <= cratio * s1;
      } else {
        assert cratio * s1 < s0 / s1 * s1;
      }
    }
  }

  /** Lines 436-438 as written: the test reads the second cost whatever
      the number m of costs is. `None` stands for the read of `s[1]` past a
      one-element buffer. */
  function RatioTestAsWritten(s: seq<real>, cratio: real): (r: Option<bool>)
    ensures r.None? <==> |s| < 2
    ensures r.Some? ==> (r.value <==> RatioPasses(s[0], s[1], cratio))
  {
    if |s| < 2 then None else Some(RatioPasses(s[0], s[1], cratio))
  }

  /** With a single candidate (m = 1) the test as written reads outside
      the cost buffer. */
  lemma RatioTestAsWrittenReadsPastBuffer(cratio: real)
    ensures RatioTestAsWritten([0.0], cratio) == None
  {
  }

  /** The ratio test with the single-candidate case handled: with fewer
      than two costs there is no second-best candidate, and the fixed
      solution is not validated. */
  function RatioTest(s: seq<real>, cratio: real): (pass: bool)
    ensures pass <==> 2 <= |s| && RatioPasses(s[0], s[1], cratio)
  {
    2 <= |s| && RatioPasses(s[0], s[1], cratio)
  }

  /** Wherever the test as written is defined, the corrected test agrees
      with it; with sorted non-negative costs it passes exactly when the
      best cost is at most cratio times the second-best. */
  lemma RatioTestCorrected(s: seq<real>, cratio: real)
    ensures RatioTestAsWritten(s, cratio).Some? ==> RatioTestAsWritten(s, cratio).value == RatioTest(s, cratio)
    ensures 2 <= |s| && 0.0 <= s[0] <= s[1] ==>
      (RatioTest(s, cratio) <==> 0.0 < s[1] && s[0] <= cratio * s[1])
    ensures |s| < 2 ==> !RatioTest(s, cratio)
  {
    if 2 <= |s| && 0.0 <= s[0] <= s[1] {
      RatioPassesMeaning(s[0], s[1], cratio);
    }
  }
}
