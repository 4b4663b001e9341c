/** The MLAMBDA integer search: a depth-first enumeration of integer vectors
    level by level, from the last variable down to the first, keeping the m
    vectors of least cost found so far. */
module IntegerSearch {
  import opened Common

  /** The fixed inputs of a search: the factors L (unit lower triangular)
      and D of the decorrelated covariance, and the float solution zs. */
  datatype Problem = Problem(n: nat, L: Matrix, D: seq<real>, zs: seq<real>)
  {
    predicate Valid() {
      IsMatrix(L, n, n) && |D| == n && |zs| == n && forall k :: 0 <= k < n ==> D[k] > 0.0
    }
  }

  /** The conditional centre of level k given the integers z[k+1..n-1]:
      `zs[k]` plus the pull of the levels above. */
  ghost function Centre(p: Problem, z: seq<real>, k: nat): real
    requires p.Valid() && |z| == p.n && k < p.n
    decreases p.n - k, 0
  {
    p.zs[k] + Pull(p, z, k, k + 1)
  }

  /** The sum over the levels l >= from of `(z[l] - Centre(l)) * L[l][i]`:
      what the levels from..n-1 add to the centre of level i. */
  ghost function Pull(p: Problem, z: seq<real>, i: nat, from: nat): real
    requires p.Valid() && |z| == p.n && i < p.n && from <= p.n
    decreases p.n - from, 1
  {
    if from == p.n then 0.0
    else Pull(p, z, i, from + 1) + (z[from] - Centre(p, z, from)) * p.L[from][i]
  }

  /** The cost of the levels k..n-1 of z: the sum of
      `(Centre(l) - z[l])^2 / D[l]`. */
  ghost function PartialCost(p: Problem, z: seq<real>, k: nat): real
    requires p.Valid() && |z| == p.n && k <= p.n
    decreases p.n - k
  {
    if k == p.n then 0.0
    else PartialCost(p, z, k + 1) + Weighted(Centre(p, z, k) - z[k], p.D[k])
  }

  /** The term `y*y/D[k]` a level adds to the distance (line 310). */
  function Weighted(y: real, d: real): real
    requires d > 0.0
  {
    y * y / d
  }

  /** The cost of a whole integer vector: `(zs - z)' * inv(Q) * (zs - z)`
      written with the factors L and D of Q. */
  ghost function Cost(p: Problem, z: seq<real>): real
    requires p.Valid() && |z| == p.n
  {
    PartialCost(p, z, 0)
  }

  /** z1 and z2 agree on the levels from..n-1. */
  ghost predicate AgreeFrom(z1: seq<real>, z2: seq<real>, from: int)
    requires |z1| == |z2|
  {
    forall l :: 0 <= l < |z1| && from <= l ==> z1[l] == z2[l]
  }

  /** The pull of the levels from..n-1 depends only on z[from..n-1]. */
  lemma {:induction false} PullFrame(p: Problem, z1: seq<real>, z2: seq<real>, i: nat, from: nat)
    requires p.Valid() && |z1| == p.n && |z2| == p.n && i < p.n && from <= p.n
    requires AgreeFrom(z1, z2, from)
    ensures Pull(p, z1, i, from) == Pull(p, z2, i, from)
    decreases p.n - from
  {
    if from < p.n {
      PullFrame(p, z1, z2, i, from + 1);
      PullFrame(p, z1, z2, from, from + 1);
      assert Centre(p, z1, from) == Centre(p, z2, from);
      assert z1[from] - Centre(p, z1, from) == z2[from] - Centre(p, z2, from);
    }
  }

  /** The centre of level k depends only on the integers above it. */
  lemma CentreFrame(p: Problem, z1: seq<real>, z2: seq<real>, k: nat)
    requires p.Valid() && |z1| == p.n && |z2| == p.n && k < p.n
    requires AgreeFrom(z1, z2, k + 1)
    ensures Centre(p, z1, k) == Centre(p, z2, k)
  {
    PullFrame(p, z1, z2, k, k + 1);
  }

  /** The cost of the levels k..n-1 depends only on z[k..n-1]. */
  lemma {:induction false} PartialCostFrame(p: Problem, z1: seq<real>, z2: seq<real>, k: nat)
    requires p.Valid() && |z1| == p.n && |z2| == p.n && k <= p.n
    requires AgreeFrom(z1, z2, k)
    ensures PartialCost(p, z1, k) == PartialCost(p, z2, k)
    decreases p.n - k
  {
    if k < p.n {
      PartialCostFrame(p, z1, z2, k + 1);
      CentreFrame(p, z1, z2, k);
    }
  }

  /** Every level adds a non-negative term, so the cost of the lower levels
      only adds to the cost of the upper ones. */
  lemma {:induction false} PartialCostMonotone(p: Problem, z: seq<real>, k: nat, j: nat)
    requires p.Valid() && |z| == p.n && k <= j <= p.n
    ensures PartialCost(p, z, k) >= PartialCost(p, z, j)
    decreases j - k
  {
    if k < j {
      PartialCostMonotone(p, z, k + 1, j);
      var d := Centre(p, z, k) - z[k];
      assert d * d >= 0.0;
      assert Weighted(d, p.D[k]) >= 0.0;
    }
  }

  /** Pruning is sound: every completion of the levels k..n-1 of z costs at
      least their partial cost, so a subtree whose partial cost reaches the
      bound holds no vector below the bound. */
  lemma CompletionCostsAtLeast(p: Problem, z: seq<real>, w: seq<real>, k: nat)
    requires p.Valid() && |z| == p.n && |w| == p.n && k <= p.n
    requires AgreeFrom(z, w, k)
    ensures Cost(p, w) >= PartialCost(p, z, k)
  {
    PartialCostMonotone(p, w, 0, k);
    PartialCostFrame(p, z, w, k);
  }

  /** The step of a level after t updates, its first step being sigma:
      sigma, -2 sigma, 3 sigma, -4 sigma, ... */
  function ZigStep(sigma: real, t: nat): real {
    if (t % 2 == 0) == (sigma > 0.0) then (t + 1) as real else -((t + 1) as real)
  }

  /** The offset of the level's integer from its rounded centre after t
      updates: 0, sigma, -sigma, 2 sigma, -2 sigma, ... */
  function ZigOffset(sigma: real, t: nat): real {
    if t == 0 then 0.0 else ZigOffset(sigma, t - 1) + ZigStep(sigma, t - 1)
  }

  /** The update `step = -step - SGN(step)` of lines 348 and 358 moves the
      zig-zag one place on: the step is never 0, flips its sign and grows by
      one. */
  lemma ZigStepNext(sigma: real, t: nat)
    requires sigma == 1.0 || sigma == -1.0
    ensures ZigStep(sigma, t) == (t + 1) as real || ZigStep(sigma, t) == -((t + 1) as real)
    ensures ZigStep(sigma, t) != 0.0
    ensures (ZigStep(sigma, t + 1) > 0.0) == (ZigStep(sigma, t) < 0.0)
    ensures ZigStep(sigma, t + 1) == -ZigStep(sigma, t) - Sgn(ZigStep(sigma, t))
  {
  }

  /** The offsets for a first step of +1: 0, 1, -1, 2, -2, ... */
  function Alternating(t: nat): int {
    if t % 2 == 1 then (t + 1) / 2 else -(t / 2)
  }

  /** The offsets alternate around the rounded centre, moving out by one on
      every second trial. */
  lemma {:induction false} ZigOffsetClosedForm(sigma: real, t: nat)
    requires sigma == 1.0 || sigma == -1.0
    ensures ZigOffset(sigma, t) == (if sigma > 0.0 then Alternating(t) else -Alternating(t)) as real
  {
    if t > 0 {
      ZigOffsetClosedForm(sigma, t - 1);
    }
  }

  /** No integer is tried twice at a level: distinct update counts give
      distinct offsets. */
  lemma ZigOffsetInjective(sigma: real, t1: nat, t2: nat)
    requires sigma == 1.0 || sigma == -1.0
    requires t1 != t2
    ensures ZigOffset(sigma, t1) != ZigOffset(sigma, t2)
  {
    ZigOffsetClosedForm(sigma, t1);
    ZigOffsetClosedForm(sigma, t2);
  }

  /** The offsets are integers. */
  lemma ZigOffsetIntegral(sigma: real, t: nat)
    requires sigma == 1.0 || sigma == -1.0
    ensures IsInt(ZigOffset(sigma, t))
  {
    ZigOffsetClosedForm(sigma, t);
  }

  /** The trial at which a level with centre c reaches the integer x: the
      zig-zag of lines 346-348 run backwards. */
  function TrialOf(c: real, x: real): nat {
    var w := x.Floor - Round(c);
    var a := if Sgn(c - RoundReal(c)) > 0.0 then w else -w;
    if a > 0 then 2 * a - 1 else -2 * a
  }

  /** Every integer is tried at a level: the zig-zag around the rounded
      centre reaches x at trial TrialOf(c, x). */
  lemma TrialOfReaches(c: real, x: real)
    requires IsInt(x)
    ensures RoundReal(c) + ZigOffset(Sgn(c - RoundReal(c)), TrialOf(c, x)) == x
  {
    var sigma := Sgn(c - RoundReal(c));
    var j := TrialOf(c, x);
    ZigOffsetClosedForm(sigma, j);
    var w := x.Floor - Round(c);
    var a := if sigma > 0.0 then w else -w;
    assert Alternating(j) == a;
    assert x == RoundReal(c) + w as real;
  }

  /** The integer of trial t is reached at trial t and at no other. */
  lemma TrialOfTrial(c: real, t: nat)
    ensures IsInt(RoundReal(c) + ZigOffset(Sgn(c - RoundReal(c)), t))
    ensures TrialOf(c, RoundReal(c) + ZigOffset(Sgn(c - RoundReal(c)), t)) == t
  {
    var sigma := Sgn(c - RoundReal(c));
    var x := RoundReal(c) + ZigOffset(sigma, t);
    ZigOffsetIntegral(sigma, t);
    SumIntegral(RoundReal(c), ZigOffset(sigma, t));
    TrialOfReaches(c, x);
    if TrialOf(c, x) != t {
      ZigOffsetInjective(sigma, TrialOf(c, x), t);
    }
  }

  /** The next offset after x is 1 - x when x <= 0, and -x otherwise. */
  lemma AlternatingNext(t: nat)
    ensures Alternating(t + 1) == if Alternating(t) <= 0 then 1 - Alternating(t) else -Alternating(t)
  {
    if t % 2 == 0 {
      assert (t + 1) % 2 == 1 && (t + 2) / 2 == t / 2 + 1;
    } else {
      assert (t + 1) % 2 == 0 && (t + 1) / 2 == (t + 1) / 2;
    }
  }

  /** From a in [0, 1/2], the offset after x is no nearer than x. */
  lemma NextOffsetFurther(a: real, x: real, y: real)
    requires 0.0 <= a <= 0.5
    requires if x <= 0.0 then y == 1.0 - x else y == -x
    ensures Abs(a - x) <= Abs(a - y)
  {
  }

  /** The offsets 0, 1, -1, 2, -2, ... move away from any a in [0, 1/2]:
      a later one is never nearer. */
  lemma {:induction false} AlternatingMovesOut(a: real, t1: nat, t2: nat)
    requires 0.0 <= a <= 0.5 && t1 <= t2
    ensures Abs(a - Alternating(t1) as real) <= Abs(a - Alternating(t2) as real)
    decreases t2 - t1
  {
    if t1 < t2 {
      AlternatingMovesOut(a, t1 + 1, t2);
      AlternatingNext(t1);
      NextOffsetFurther(a, Alternating(t1) as real, Alternating(t1 + 1) as real);
    }
  }

  /** The nearer of two numbers to 0 has the smaller square. */
  lemma SquareGrows(x: real, y: real)
    requires Abs(x) <= Abs(y)
    ensures x * x <= y * y
  {
    var ax, ay := Abs(x), Abs(y);
    assert x * x == ax * ax && y * y == ay * ay;
    assert ax * (ay - ax) >= 0.0;
    assert ay * (ay - ax) >= 0.0;
  }

  /** Dividing by a positive weight keeps the order. */
  lemma DivideKeepsOrder(x: real, y: real, d: real)
    requires x <= y && d > 0.0
    ensures x / d <= y / d
  {
    assert y / d - x / d == (y - x) / d;
  }

  /** A term of line 310 grows with the distance from the centre. */
  lemma WeightedGrows(y1: real, y2: real, d: real)
    requires Abs(y1) <= Abs(y2) && d > 0.0
    ensures Weighted(y1, d) <= Weighted(y2, d)
  {
    SquareGrows(y1, y2);
    DivideKeepsOrder(y1 * y1, y2 * y2, d);
  }

  /** The distance of trial t from the centre c, with a the distance of c
      from its rounding, on the side of the first step. */
  lemma TrialDistance(c: real, t: nat, x: real, a: real)
    requires x == RoundReal(c) + ZigOffset(Sgn(c - RoundReal(c)), t)
    requires a == if Sgn(c - RoundReal(c)) > 0.0 then c - RoundReal(c) else RoundReal(c) - c
    ensures 0.0 <= a <= 0.5
    ensures Abs(c - x) == Abs(a - Alternating(t) as real)
  {
    ZigOffsetClosedForm(Sgn(c - RoundReal(c)), t);
  }

  /** Later trials of a level lie no nearer its centre c, so they weigh no
      less in the cost of line 310: the zig-zag visits the integers in
      order of their distance from c. */
  lemma TrialsMoveOut(c: real, d: real, t1: nat, t2: nat, x1: real, x2: real)
    requires d > 0.0 && t1 <= t2
    requires x1 == RoundReal(c) + ZigOffset(Sgn(c - RoundReal(c)), t1)
    requires x2 == RoundReal(c) + ZigOffset(Sgn(c - RoundReal(c)), t2)
    ensures Weighted(c - x1, d) <= Weighted(c - x2, d)
  {
    var a := if Sgn(c - RoundReal(c)) > 0.0 then c - RoundReal(c) else RoundReal(c) - c;
    TrialDistance(c, t1, x1, a);
    TrialDistance(c, t2, x2, a);
    AlternatingMovesOut(a, t1, t2);
    WeightedGrows(c - x1, c - x2, d);
  }

  /** The search state of one active level l, as lines 315-321 and 346-358
      keep it: zb[l] is the centre of level l, dist[l] the cost of the levels
      above it, row l of S the pulls of those levels, and z[l] the t[l]-th
      trial of the zig-zag around the rounded centre, step[l] the next move. */
  ghost predicate LevelAt(p: Problem, z: seq<real>, zb: seq<real>, dist: seq<real>, S: Matrix,
                          step: seq<real>, t: seq<nat>, l: nat)
    requires p.Valid() && |z| == p.n && |zb| == p.n && |dist| == p.n && IsMatrix(S, p.n, p.n)
    requires |step| == p.n && |t| == p.n && l < p.n
  {
    var sigma := Sgn(zb[l] - RoundReal(zb[l]));
    zb[l] == Centre(p, z, l) &&
    dist[l] == PartialCost(p, z, l + 1) &&
    (forall i :: 0 <= i <= l ==> S[l][i] == Pull(p, z, i, l + 1)) &&
    step[l] == ZigStep(sigma, t[l]) &&
    z[l] == RoundReal(zb[l]) + ZigOffset(sigma, t[l])
  }

  /** The levels k..n-1 are all active and consistent. */
  ghost predicate Levels(p: Problem, z: seq<real>, zb: seq<real>, dist: seq<real>, S: Matrix,
                         step: seq<real>, t: seq<nat>, k: nat)
    requires p.Valid() && |z| == p.n && |zb| == p.n && |dist| == p.n && IsMatrix(S, p.n, p.n)
    requires |step| == p.n && |t| == p.n && k < p.n
  {
    forall l :: k <= l < p.n ==> LevelAt(p, z, zb, dist, S, step, t, l)
  }

  /** Changing the integers at or below level l leaves the centre, the
      upper cost and the pulls recorded for level l (from = l + 1) as they
      are. */
  lemma LevelFrame(p: Problem, z1: seq<real>, z2: seq<real>, l: nat, from: nat)
    requires p.Valid() && |z1| == p.n && |z2| == p.n && l < p.n && from == l + 1
    requires AgreeFrom(z1, z2, from)
    ensures Centre(p, z1, l) == Centre(p, z2, l)
    ensures PartialCost(p, z1, from) == PartialCost(p, z2, from)
    ensures forall i :: 0 <= i <= l ==> Pull(p, z1, i, from) == Pull(p, z2, i, from)
  {
    CentreFrame(p, z1, z2, l);
    PartialCostFrame(p, z1, z2, from);
    forall i | 0 <= i <= l
      ensures Pull(p, z1, i, from) == Pull(p, z2, i, from)
    {
      PullFrame(p, z1, z2, i, from);
    }
  }

  /** Moving to the next trial of level k (lines 346-348 and 357-358) keeps
      every level from k up consistent. */
  lemma NextTrial(p: Problem, z: seq<real>, zb: seq<real>, dist: seq<real>, S: Matrix,
                  step: seq<real>, t: seq<nat>, k: nat)
    requires p.Valid() && |z| == p.n && |zb| == p.n && |dist| == p.n && IsMatrix(S, p.n, p.n)
    requires |step| == p.n && |t| == p.n && k < p.n
    requires Levels(p, z, zb, dist, S, step, t, k)
    ensures Levels(p, z[k := z[k] + step[k]], zb, dist, S,
                   step[k := -step[k] - Sgn(step[k])], t[k := t[k] + 1], k)
  {
    var z' := z[k := z[k] + step[k]];
    var step' := step[k := -step[k] - Sgn(step[k])];
    var t' := t[k := t[k] + 1];
    forall l | k <= l < p.n
      ensures LevelAt(p, z', zb, dist, S, step', t', l)
    {
      assert LevelAt(p, z, zb, dist, S, step, t, l);
      LevelFrame(p, z, z', l, l + 1);
      if l == k {
        ZigStepNext(Sgn(zb[k] - RoundReal(zb[k])), t[k]);
      }
    }
  }

  /** One entry of row j of S after a descent from level u = j + 1
      (line 317): the stored pull of level u plus level u's own term. */
  lemma PullStep(p: Problem, z: seq<real>, i: nat, u: nat, d: real, x: real)
    requires p.Valid() && |z| == p.n && i < p.n && u < p.n
    requires d == z[u] - Centre(p, z, u) && x == Pull(p, z, i, u + 1)
    ensures Pull(p, z, i, u) == x + d * p.L[u][i]
  {
  }

  /** The centre of level j is `zs[j]` plus the pull of the levels above
      (line 318). */
  lemma CentreStep(p: Problem, z: seq<real>, j: nat, u: nat, x: real)
    requires p.Valid() && |z| == p.n && u == j + 1 && u < p.n
    requires x == Pull(p, z, j, u)
    ensures Centre(p, z, j) == p.zs[j] + x
  {
  }

  /** The cost of the levels u..n-1: the cost above u plus level u's term
      (line 310). */
  lemma CostStep(p: Problem, z: seq<real>, u: nat, y: real, x: real)
    requires p.Valid() && |z| == p.n && u < p.n
    requires y == Centre(p, z, u) - z[u] && x == PartialCost(p, z, u + 1)
    ensures PartialCost(p, z, u) == x + Weighted(y, p.D[u])
  {
  }

  /** Row j of S after a descent from level u = j + 1 (lines 316-317)
      holds the pulls of the levels u..n-1. */
  lemma DescendPulls(p: Problem, z: seq<real>, zb: seq<real>, S: Matrix, j: nat, u: nat, S': Matrix)
    requires p.Valid() && |z| == p.n && |zb| == p.n && IsMatrix(S, p.n, p.n)
    requires u == j + 1 && u < p.n
    requires zb[u] == Centre(p, z, u)
    requires forall i :: 0 <= i <= u ==> S[u][i] == Pull(p, z, i, u + 1)
    requires IsMatrix(S', p.n, p.n)
    requires forall i :: 0 <= i <= j ==> S'[j][i] == S[u][i] + (z[u] - zb[u]) * p.L[u][i]
    ensures forall i :: 0 <= i <= j ==> S'[j][i] == Pull(p, z, i, u)
  {
    forall i | 0 <= i <= j
      ensures S'[j][i] == Pull(p, z, i, u)
    {
      PullStep(p, z, i, u, z[u] - zb[u], S[u][i]);
    }
  }

  /** Descending from level j+1 to level j (lines 315-321) makes level j
      active at its rounded centre, keeping the levels above consistent. */
  lemma Descend(p: Problem, z: seq<real>, zb: seq<real>, dist: seq<real>, S: Matrix,
                step: seq<real>, t: seq<nat>, j: nat, S': Matrix)
    requires p.Valid() && |z| == p.n && |zb| == p.n && |dist| == p.n && IsMatrix(S, p.n, p.n)
    requires |step| == p.n && |t| == p.n && j + 1 < p.n
    requires Levels(p, z, zb, dist, S, step, t, j + 1)
    requires IsMatrix(S', p.n, p.n)
    requires forall i :: 0 <= i <= j ==> S'[j][i] == S[j + 1][i] + (z[j + 1] - zb[j + 1]) * p.L[j + 1][i]
    requires forall l :: j < l < p.n ==> S'[l] == S[l]
    ensures var c := p.zs[j] + S'[j][j];
            Levels(p, z[j := RoundReal(c)], zb[j := c],
                   dist[j := dist[j + 1] + Weighted(zb[j + 1] - z[j + 1], p.D[j + 1])],
                   S', step[j := Sgn(c - RoundReal(c))], t[j := 0], j)
  {
    var c := p.zs[j] + S'[j][j];
    var z', zb' := z[j := RoundReal(c)], zb[j := c];
    var dist' := dist[j := dist[j + 1] + Weighted(zb[j + 1] - z[j + 1], p.D[j + 1])];
    var step', t' := step[j := Sgn(c - RoundReal(c))], t[j := 0];
    assert LevelAt(p, z, zb, dist, S, step, t, j + 1);
    DescendPulls(p, z, zb, S, j, j + 1, S');
    CentreStep(p, z, j, j + 1, S'[j][j]);
    CostStep(p, z, j + 1, zb[j + 1] - z[j + 1], dist[j + 1]);
    LevelFrame(p, z, z', j, j + 1);
    assert LevelAt(p, z', zb', dist', S', step', t', j);
    forall l | j < l < p.n
      ensures LevelAt(p, z', zb', dist', S', step', t', l)
    {
      assert LevelAt(p, z, zb, dist, S, step, t, l);
      LevelFrame(p, z, z', l, l + 1);
    }
  }

  lemma SumIntegral(a: real, b: real)
    requires IsInt(a) && IsInt(b)
    ensures IsInt(a + b)
  {
    assert a + b == (a.Floor + b.Floor) as real;
  }

  /** Every active level holds an integer. */
  lemma LevelsIntegral(p: Problem, z: seq<real>, zb: seq<real>, dist: seq<real>, S: Matrix,
                       step: seq<real>, t: seq<nat>, k: nat)
    requires p.Valid() && |z| == p.n && |zb| == p.n && |dist| == p.n && IsMatrix(S, p.n, p.n)
    requires |step| == p.n && |t| == p.n && k < p.n
    requires Levels(p, z, zb, dist, S, step, t, k)
    ensures forall l :: k <= l < p.n ==> IsInt(z[l])
  {
    forall l | k <= l < p.n
      ensures IsInt(z[l])
    {
      assert LevelAt(p, z, zb, dist, S, step, t, l);
      var sigma := Sgn(zb[l] - RoundReal(zb[l]));
      ZigOffsetIntegral(sigma, t[l]);
      SumIntegral(RoundReal(zb[l]), ZigOffset(sigma, t[l]));
    }
  }

  /** What an active level k records: its centre and the cost of the levels
      above it. */
  lemma ActiveLevel(p: Problem, z: seq<real>, zb: seq<real>, dist: seq<real>, S: Matrix,
                    step: seq<real>, t: seq<nat>, k: nat)
    requires p.Valid() && |z| == p.n && |zb| == p.n && |dist| == p.n && IsMatrix(S, p.n, p.n)
    requires |step| == p.n && |t| == p.n && k < p.n
    requires Levels(p, z, zb, dist, S, step, t, k)
    ensures zb[k] == Centre(p, z, k) && dist[k] == PartialCost(p, z, k + 1)
  {
    assert LevelAt(p, z, zb, dist, S, step, t, k);
  }

  /** The new distance of line 310 at level k is the cost of the levels
      k..n-1 of the trial vector; at level 0 it is the cost of the whole
      vector. */
  lemma LevelCost(p: Problem, z: seq<real>, zb: seq<real>, dist: seq<real>, S: Matrix,
                  step: seq<real>, t: seq<nat>, k: nat)
    requires p.Valid() && |z| == p.n && |zb| == p.n && |dist| == p.n && IsMatrix(S, p.n, p.n)
    requires |step| == p.n && |t| == p.n && k < p.n
    requires Levels(p, z, zb, dist, S, step, t, k)
    ensures dist[k] + Weighted(zb[k] - z[k], p.D[k]) == PartialCost(p, z, k)
  {
    ActiveLevel(p, z, zb, dist, S, step, t, k);
    CostStep(p, z, k, zb[k] - z[k], dist[k]);
  }

  /** A vector holding the current trial of level k or a later one, and
      agreeing with z above k, costs over the levels k..n-1 at least what z
      costs there: the zig-zag only moves away from the centre. */
  lemma LaterTrialsCostMore(p: Problem, z: seq<real>, k: nat, tk: nat, v: seq<real>)
    requires p.Valid() && |z| == p.n && k < p.n
    requires z[k] == RoundReal(Centre(p, z, k)) + ZigOffset(Sgn(Centre(p, z, k) - RoundReal(Centre(p, z, k))), tk)
    requires |v| == p.n && AgreeFrom(v, z, k + 1) && IsInt(v[k])
    requires tk <= TrialOf(Centre(p, v, k), v[k])
    ensures PartialCost(p, z, k) <= PartialCost(p, v, k)
  {
    var c := Centre(p, z, k);
    CentreFrame(p, v, z, k);
    PartialCostFrame(p, v, z, k + 1);
    TrialOfReaches(c, v[k]);
    TrialsMoveOut(c, p.D[k], tk, TrialOf(c, v[k]), z[k], v[k]);
    CostStep(p, z, k, c - z[k], PartialCost(p, z, k + 1));
    CostStep(p, v, k, c - v[k], PartialCost(p, z, k + 1));
  }

  /** At an active level k, a vector agreeing with z above k is at the
      current trial exactly when it holds z[k] there. */
  lemma CurrentTrial(p: Problem, z: seq<real>, zb: seq<real>, dist: seq<real>, S: Matrix,
                     step: seq<real>, t: seq<nat>, k: nat, v: seq<real>)
    requires p.Valid() && |z| == p.n && |zb| == p.n && |dist| == p.n && IsMatrix(S, p.n, p.n)
    requires |step| == p.n && |t| == p.n && k < p.n
    requires LevelAt(p, z, zb, dist, S, step, t, k)
    requires |v| == p.n && AgreeFrom(v, z, k + 1) && IsInt(v[k])
    ensures TrialOf(Centre(p, v, k), v[k]) == t[k] <==> v[k] == z[k]
  {
    CentreFrame(p, v, z, k);
    var c := Centre(p, z, k);
    TrialOfTrial(c, t[k]);
    TrialOfReaches(c, v[k]);
  }

  /** The integer vectors the search is done with while the levels k..n-1
      hold z at the trials t: at some level l >= k, v agrees with z above l
      and holds an integer the zig-zag of level l has already left. */
  ghost predicate Passed(p: Problem, z: seq<real>, t: seq<nat>, k: nat, v: seq<real>)
    requires p.Valid() && |z| == p.n && |t| == p.n && |v| == p.n
  {
    exists l :: k <= l < p.n && PassedAt(p, z, t, v, l)
  }

  /** Level l is where v was passed: v agrees with z above l and holds an
      integer the zig-zag of level l has already left. */
  ghost predicate PassedAt(p: Problem, z: seq<real>, t: seq<nat>, v: seq<real>, l: nat)
    requires p.Valid() && |z| == p.n && |t| == p.n && |v| == p.n && l < p.n
  {
    AgreeFrom(v, z, l + 1) && IsInt(v[l]) && TrialOf(Centre(p, v, l), v[l]) < t[l]
  }

  /** The trial vector itself is not among the vectors passed. */
  lemma CurrentNotPassed(p: Problem, z: seq<real>, zb: seq<real>, dist: seq<real>, S: Matrix,
                         step: seq<real>, t: seq<nat>, k: nat)
    requires p.Valid() && |z| == p.n && |zb| == p.n && |dist| == p.n && IsMatrix(S, p.n, p.n)
    requires |step| == p.n && |t| == p.n && k < p.n
    requires Levels(p, z, zb, dist, S, step, t, k)
    ensures !Passed(p, z, t, k, z)
  {
    forall l | k <= l < p.n && IsInt(z[l])
      ensures TrialOf(Centre(p, z, l), z[l]) == t[l]
    {
      assert LevelAt(p, z, zb, dist, S, step, t, l);
      CurrentTrial(p, z, zb, dist, S, step, t, l, z);
    }
  }

  /** Changing z below `from` keeps what agrees with z from there on. */
  lemma AgreeAbove(v: seq<real>, z: seq<real>, j: nat, x: real, from: nat)
    requires |v| == |z| && j < |z| && j < from
    ensures AgreeFrom(v, z[j := x], from) <==> AgreeFrom(v, z, from)
  {
  }

  /** Moving level k to its next trial, x, adds the vectors through its
      current trial to the ones passed, and nothing else. */
  lemma PassedNextTrial(p: Problem, z: seq<real>, zb: seq<real>, dist: seq<real>, S: Matrix,
                        step: seq<real>, t: seq<nat>, k: nat, x: real, v: seq<real>)
    requires p.Valid() && |z| == p.n && |zb| == p.n && |dist| == p.n && IsMatrix(S, p.n, p.n)
    requires |step| == p.n && |t| == p.n && k < p.n
    requires LevelAt(p, z, zb, dist, S, step, t, k)
    requires |v| == p.n
    ensures Passed(p, z[k := x], t[k := t[k] + 1], k, v) <==>
            Passed(p, z, t, k, v) || (AgreeFrom(v, z, k) && IsInt(v[k]))
  {
    var z', t' := z[k := x], t[k := t[k] + 1];
    if Passed(p, z', t', k, v) {
      var l :| k <= l < p.n && PassedAt(p, z', t', v, l);
      AgreeAbove(v, z, k, x, l + 1);
      if l == k && TrialOf(Centre(p, v, k), v[k]) == t[k] {
        CurrentTrial(p, z, zb, dist, S, step, t, k, v);
      } else {
        assert PassedAt(p, z, t, v, l);
      }
    }
    if Passed(p, z, t, k, v) {
      var l :| k <= l < p.n && PassedAt(p, z, t, v, l);
      AgreeAbove(v, z, k, x, l + 1);
      assert PassedAt(p, z', t', v, l);
    }
    if AgreeFrom(v, z, k) && IsInt(v[k]) {
      CurrentTrial(p, z, zb, dist, S, step, t, k, v);
      AgreeAbove(v, z, k, x, k + 1);
      assert PassedAt(p, z', t', v, k);
    }
  }

  /** Descending to level j at its first trial passes nothing new. */
  lemma PassedDescend(p: Problem, z: seq<real>, t: seq<nat>, j: nat, x: real, v: seq<real>)
    requires p.Valid() && |z| == p.n && |t| == p.n && j + 1 < p.n && |v| == p.n
    ensures Passed(p, z[j := x], t[j := 0], j, v) <==> Passed(p, z, t, j + 1, v)
  {
    var z', t' := z[j := x], t[j := 0];
    if Passed(p, z', t', j, v) {
      var l :| j <= l < p.n && PassedAt(p, z', t', v, l);
      assert t'[j] == 0;
      AgreeAbove(v, z, j, x, l + 1);
      assert PassedAt(p, z, t, v, l);
    }
    if Passed(p, z, t, j + 1, v) {
      var l :| j + 1 <= l < p.n && PassedAt(p, z, t, v, l);
      AgreeAbove(v, z, j, x, l + 1);
      assert PassedAt(p, z', t', v, l);
    }
  }

  /** A vector agreeing with z above level k, where the levels k..n-1 of z
      have reached the bound, is passed or costs at least the bound. */
  lemma PassedOrBeyond(p: Problem, z: seq<real>, zb: seq<real>, dist: seq<real>, S: Matrix,
                       step: seq<real>, t: seq<nat>, k: nat, bound: real, v: seq<real>)
    requires p.Valid() && |z| == p.n && |zb| == p.n && |dist| == p.n && IsMatrix(S, p.n, p.n)
    requires |step| == p.n && |t| == p.n && k < p.n
    requires LevelAt(p, z, zb, dist, S, step, t, k) && bound <= PartialCost(p, z, k)
    requires |v| == p.n && IntegralVector(v) && AgreeFrom(v, z, k + 1)
    ensures Passed(p, z, t, k, v) || bound <= Cost(p, v)
  {
    if t[k] <= TrialOf(Centre(p, v, k), v[k]) {
      LaterTrialsCostMore(p, z, k, t[k], v);
      PartialCostMonotone(p, v, 0, k);
    } else {
      assert PassedAt(p, z, t, v, k);
    }
  }

  /** LOOPMAX: the most iterations the search loop makes. */
  const LoopMax: nat := 10000

  /** The initial bound of the search, 1E99: no candidate kept yet. */
  const NoBound: real := 1.0e99

  /** v is an integer vector of cost `cost`. */
  ghost predicate Found(p: Problem, v: seq<real>, cost: real)
    requires p.Valid()
  {
    |v| == p.n && IntegralVector(v) && cost == Cost(p, v)
  }

  /** The candidate store of lines 325-345: nn vectors kept in the first nn
      columns of Z with their costs in s, imax the place of the largest, and
      maxdist the pruning bound (1E99 until the store has been full at a
      leaf, then the largest kept cost). */
  ghost predicate Kept(p: Problem, Z: Matrix, s: seq<real>, nn: nat, imax: nat, maxdist: real)
    requires p.Valid() && IsMatrix(Z, p.n, |s|)
  {
    nn <= |s| &&
    (0 < nn ==> imax < nn && forall c :: 0 <= c < nn ==> s[c] <= s[imax]) &&
    (nn < |s| ==> maxdist == NoBound) &&
    (maxdist == NoBound || (nn == |s| && imax < |s| && maxdist == s[imax])) &&
    (forall c :: 0 <= c < nn ==> Found(p, Column(Z, p.n, c), s[c]) && s[c] <= maxdist)
  }

  /** v is one of the first nn columns of Z. */
  ghost predicate InStore(n: nat, Z: Matrix, m: nat, nn: nat, v: seq<real>)
    requires IsMatrix(Z, n, m) && nn <= m
  {
    exists c :: 0 <= c < nn && Column(Z, n, c) == v
  }

  /** Every integer vector passed is kept or costs at least the bound. */
  ghost predicate Handled(p: Problem, Z: Matrix, m: nat, nn: nat, bound: real, z: seq<real>, t: seq<nat>, k: nat)
    requires p.Valid() && IsMatrix(Z, p.n, m) && nn <= m && |z| == p.n && |t| == p.n
  {
    forall v {:trigger Passed(p, z, t, k, v)} :: |v| == p.n && IntegralVector(v) && Passed(p, z, t, k, v) ==>
      InStore(p.n, Z, m, nn, v) || bound <= Cost(p, v)
  }

  /** Every kept vector has been passed. */
  ghost predicate StoredPassed(p: Problem, Z: Matrix, m: nat, nn: nat, z: seq<real>, t: seq<nat>, k: nat)
    requires p.Valid() && IsMatrix(Z, p.n, m) && nn <= m && |z| == p.n && |t| == p.n
  {
    forall c :: 0 <= c < nn ==> Passed(p, z, t, k, Column(Z, p.n, c))
  }

  /** The first nn columns of Z are distinct vectors. */
  ghost predicate Distinct(Z: Matrix, n: nat, m: nat, nn: nat)
    requires IsMatrix(Z, n, m) && nn <= m
  {
    forall c1, c2 :: 0 <= c1 < c2 < nn ==> Column(Z, n, c1) != Column(Z, n, c2)
  }

  /** What the search loop keeps about the vectors behind it. */
  ghost predicate Covered(p: Problem, Z: Matrix, m: nat, nn: nat, bound: real, z: seq<real>, t: seq<nat>, k: nat)
    requires p.Valid() && IsMatrix(Z, p.n, m) && nn <= m && |z| == p.n && |t| == p.n
  {
    Handled(p, Z, m, nn, bound, z, t, k) && StoredPassed(p, Z, m, nn, z, t, k) && Distinct(Z, p.n, m, nn)
  }

  /** The search is over: every integer vector is kept or costs at least the
      bound. */
  ghost predicate Complete(p: Problem, Z: Matrix, m: nat, nn: nat, bound: real)
    requires p.Valid() && IsMatrix(Z, p.n, m) && nn <= m
  {
    forall v {:trigger Cost(p, v)} :: |v| == p.n && IntegralVector(v) ==> InStore(p.n, Z, m, nn, v) || bound <= Cost(p, v)
  }

  /** Before the loop nothing has been passed. */
  lemma CoveredStart(p: Problem, Z: Matrix, m: nat, bound: real, z: seq<real>, t: seq<nat>)
    requires p.Valid() && 0 < p.n && IsMatrix(Z, p.n, m) && |z| == p.n && |t| == p.n && t[p.n - 1] == 0
    ensures Covered(p, Z, m, 0, bound, z, t, p.n - 1)
  {
    var top := p.n - 1;
    forall v {:trigger Passed(p, z, t, top, v)} | |v| == p.n
      ensures !Passed(p, z, t, top, v)
    {
    }
  }

  /** Descending to level j keeps what the loop knows. */
  lemma CoveredDescend(p: Problem, Z: Matrix, m: nat, nn: nat, bound: real, z: seq<real>, t: seq<nat>,
                       j: nat, x: real)
    requires p.Valid() && IsMatrix(Z, p.n, m) && nn <= m && |z| == p.n && |t| == p.n && j + 1 < p.n
    requires Covered(p, Z, m, nn, bound, z, t, j + 1)
    ensures Covered(p, Z, m, nn, bound, z[j := x], t[j := 0], j)
  {
    var z', t', u := z[j := x], t[j := 0], j + 1;
    forall v {:trigger Passed(p, z', t', j, v)} {:trigger Passed(p, z, t, u, v)} | |v| == p.n
      ensures Passed(p, z', t', j, v) <==> Passed(p, z, t, u, v)
    {
      PassedDescend(p, z, t, j, x, v);
    }
  }

  /** What the loop knows carries over to a new position that passes every
      vector the old one passed, and past the old ones only vectors of cost
      at least the bound. */
  lemma CoveredMoves(p: Problem, Z: Matrix, m: nat, nn: nat, bound: real, z: seq<real>, t: seq<nat>, k: nat,
                     z': seq<real>, t': seq<nat>, k': nat)
    requires p.Valid() && IsMatrix(Z, p.n, m) && nn <= m && |z| == p.n && |t| == p.n
    requires |z'| == p.n && |t'| == p.n
    requires Covered(p, Z, m, nn, bound, z, t, k)
    requires forall v {:trigger Passed(p, z, t, k, v)} :: |v| == p.n && Passed(p, z, t, k, v) ==> Passed(p, z', t', k', v)
    requires forall v {:trigger Passed(p, z', t', k', v)} :: |v| == p.n && IntegralVector(v) && Passed(p, z', t', k', v) ==>
      Passed(p, z, t, k, v) || bound <= Cost(p, v)
    ensures Covered(p, Z, m, nn, bound, z', t', k')
  {
  }

  /** One vector v on a climb from level k to the next trial x of level
      k+1: what was passed stays passed, and what is newly passed costs at
      least the bound. */
  lemma ClimbPasses(p: Problem, z: seq<real>, zb: seq<real>, dist: seq<real>, S: Matrix,
                    step: seq<real>, t: seq<nat>, k: nat, x: real, bound: real, v: seq<real>)
    requires p.Valid() && |z| == p.n && |zb| == p.n && |dist| == p.n && IsMatrix(S, p.n, p.n)
    requires |step| == p.n && |t| == p.n && k + 1 < p.n && |v| == p.n
    requires LevelAt(p, z, zb, dist, S, step, t, k) && LevelAt(p, z, zb, dist, S, step, t, k + 1)
    requires IsInt(z[k + 1]) && bound <= PartialCost(p, z, k)
    ensures Passed(p, z, t, k, v) ==> Passed(p, z[k + 1 := x], t[k + 1 := t[k + 1] + 1], k + 1, v)
    ensures IntegralVector(v) && Passed(p, z[k + 1 := x], t[k + 1 := t[k + 1] + 1], k + 1, v) ==>
            Passed(p, z, t, k, v) || bound <= Cost(p, v)
  {
    PassedNextTrial(p, z, zb, dist, S, step, t, k + 1, x, v);
    if Passed(p, z, t, k, v) {
      var l :| k <= l < p.n && PassedAt(p, z, t, v, l);
      if l == k {
        assert v[k + 1] == z[k + 1];
      } else {
        assert PassedAt(p, z, t, v, l);
      }
    }
    if Passed(p, z, t, k + 1, v) {
      var l :| k + 1 <= l < p.n && PassedAt(p, z, t, v, l);
      assert PassedAt(p, z, t, v, l);
    } else if IntegralVector(v) && AgreeFrom(v, z, k + 1) {
      PassedOrBeyond(p, z, zb, dist, S, step, t, k, bound, v);
    }
  }

  /** Climbing from level k, whose subtree has reached the bound, to the next
      trial x of level k+1 keeps what the loop knows. */
  lemma CoveredClimb(p: Problem, z: seq<real>, zb: seq<real>, dist: seq<real>, S: Matrix,
                     step: seq<real>, t: seq<nat>, k: nat, x: real,
                     Z: Matrix, m: nat, nn: nat, bound: real)
    requires p.Valid() && |z| == p.n && |zb| == p.n && |dist| == p.n && IsMatrix(S, p.n, p.n)
    requires |step| == p.n && |t| == p.n && k + 1 < p.n
    requires Levels(p, z, zb, dist, S, step, t, k) && bound <= PartialCost(p, z, k)
    requires IsMatrix(Z, p.n, m) && nn <= m && Covered(p, Z, m, nn, bound, z, t, k)
    ensures Covered(p, Z, m, nn, bound, z[k + 1 := x], t[k + 1 := t[k + 1] + 1], k + 1)
  {
    var z', t', u := z[k + 1 := x], t[k + 1 := t[k + 1] + 1], k + 1;
    assert LevelAt(p, z, zb, dist, S, step, t, k);
    assert LevelAt(p, z, zb, dist, S, step, t, k + 1);
    LevelsIntegral(p, z, zb, dist, S, step, t, k);
    forall v {:trigger Passed(p, z, t, k, v)} {:trigger Passed(p, z', t', u, v)} | |v| == p.n
      ensures Passed(p, z, t, k, v) ==> Passed(p, z', t', u, v)
      ensures IntegralVector(v) && Passed(p, z', t', u, v) ==> Passed(p, z, t, k, v) || bound <= Cost(p, v)
    {
      ClimbPasses(p, z, zb, dist, S, step, t, k, x, bound, v);
    }
    CoveredMoves(p, Z, m, nn, bound, z, t, k, z', t', u);
  }

  /** At the last level a subtree that has reached the bound ends the
      search: everything is then kept or costs at least the bound. */
  lemma CoveredStop(p: Problem, z: seq<real>, zb: seq<real>, dist: seq<real>, S: Matrix,
                    step: seq<real>, t: seq<nat>, k: nat, Z: Matrix, m: nat, nn: nat, bound: real)
    requires p.Valid() && |z| == p.n && |zb| == p.n && |dist| == p.n && IsMatrix(S, p.n, p.n)
    requires |step| == p.n && |t| == p.n && k + 1 == p.n
    requires Levels(p, z, zb, dist, S, step, t, k) && bound <= PartialCost(p, z, k)
    requires IsMatrix(Z, p.n, m) && nn <= m && Covered(p, Z, m, nn, bound, z, t, k)
    ensures Complete(p, Z, m, nn, bound)
  {
    assert LevelAt(p, z, zb, dist, S, step, t, k);
    forall v {:trigger Cost(p, v)} | |v| == p.n && IntegralVector(v)
      ensures InStore(p.n, Z, m, nn, v) || bound <= Cost(p, v)
    {
      PassedOrBeyond(p, z, zb, dist, S, step, t, k, bound, v);
    }
  }

  /** The columns of Z1 are z or columns of Z0. */
  ghost predicate Drawn(n: nat, Z1: Matrix, Z0: Matrix, m: nat, nn1: nat, nn0: nat, z: seq<real>)
    requires IsMatrix(Z1, n, m) && IsMatrix(Z0, n, m) && nn1 <= m && nn0 <= m
  {
    forall c :: 0 <= c < nn1 ==> Column(Z1, n, c) == z || InStore(n, Z0, m, nn0, Column(Z1, n, c))
  }

  /** Every column of Z0 is still in Z1 or costs at least the bound. */
  ghost predicate Retained(p: Problem, Z0: Matrix, Z1: Matrix, m: nat, nn0: nat, nn1: nat, bound: real)
    requires p.Valid() && IsMatrix(Z1, p.n, m) && IsMatrix(Z0, p.n, m) && nn1 <= m && nn0 <= m
  {
    forall c :: 0 <= c < nn0 ==>
      InStore(p.n, Z1, m, nn1, Column(Z0, p.n, c)) || bound <= Cost(p, Column(Z0, p.n, c))
  }

  /** A leaf z recorded in the store, the store going from (Z0, nn0) under
      bound0 to (Z1, nn1) under bound1, and level 0 moved to its next trial
      x: what the loop knows is kept. */
  lemma CoveredLeaf(p: Problem, z: seq<real>, zb: seq<real>, dist: seq<real>, S: Matrix,
                    step: seq<real>, t: seq<nat>, z': seq<real>, t': seq<nat>, m: nat,
                    Z0: Matrix, nn0: nat, bound0: real, Z1: Matrix, nn1: nat, bound1: real)
    requires p.Valid() && 0 < p.n && |z| == p.n && |zb| == p.n && |dist| == p.n && IsMatrix(S, p.n, p.n)
    requires |step| == p.n && |t| == p.n && Levels(p, z, zb, dist, S, step, t, 0)
    requires IsMatrix(Z0, p.n, m) && IsMatrix(Z1, p.n, m) && nn0 <= m && nn1 <= m
    requires Covered(p, Z0, m, nn0, bound0, z, t, 0) && bound1 <= bound0
    requires Drawn(p.n, Z1, Z0, m, nn1, nn0, z) && Retained(p, Z0, Z1, m, nn0, nn1, bound1)
    requires InStore(p.n, Z1, m, nn1, z) || bound1 <= Cost(p, z)
    requires Distinct(Z1, p.n, m, nn1)
    requires |z'| == p.n && z' == z[0 := z'[0]] && t' == t[0 := t[0] + 1]
    ensures Covered(p, Z1, m, nn1, bound1, z', t', 0)
  {
    var x := z'[0];
    assert LevelAt(p, z, zb, dist, S, step, t, 0);
    forall v {:trigger Passed(p, z', t', 0, v)} | |v| == p.n && IntegralVector(v) && Passed(p, z', t', 0, v)
      ensures InStore(p.n, Z1, m, nn1, v) || bound1 <= Cost(p, v)
    {
      PassedNextTrial(p, z, zb, dist, S, step, t, 0, x, v);
      if Passed(p, z, t, 0, v) {
        if InStore(p.n, Z0, m, nn0, v) {
          var c :| 0 <= c < nn0 && Column(Z0, p.n, c) == v;
        }
      } else {
        assert v == z;
      }
    }
    forall c | 0 <= c < nn1
      ensures Passed(p, z', t', 0, Column(Z1, p.n, c))
    {
      var w := Column(Z1, p.n, c);
      PassedNextTrial(p, z, zb, dist, S, step, t, 0, x, w);
      if w != z {
        var c0 :| 0 <= c0 < nn0 && Column(Z0, p.n, c0) == w;
      } else {
        LevelsIntegral(p, z, zb, dist, S, step, t, 0);
      }
    }
  }

  /** z stored in the free column nn. */
  lemma StoredInFreeColumn(p: Problem, z: seq<real>, t: seq<nat>, m: nat, Z0: Matrix, Z1: Matrix, nn: nat,
                           bound: real)
    requires p.Valid() && |z| == p.n && |t| == p.n && IsMatrix(Z0, p.n, m) && IsMatrix(Z1, p.n, m) && nn < m
    requires StoredPassed(p, Z0, m, nn, z, t, 0) && Distinct(Z0, p.n, m, nn) && !Passed(p, z, t, 0, z)
    requires Column(Z1, p.n, nn) == z
    requires forall c :: 0 <= c < m && c != nn ==> Column(Z1, p.n, c) == Column(Z0, p.n, c)
    ensures Drawn(p.n, Z1, Z0, m, nn + 1, nn, z) && InStore(p.n, Z1, m, nn + 1, z)
    ensures Retained(p, Z0, Z1, m, nn, nn + 1, bound)
    ensures Distinct(Z1, p.n, m, nn + 1)
  {
    forall c | 0 <= c < nn
      ensures InStore(p.n, Z1, m, nn + 1, Column(Z0, p.n, c)) && InStore(p.n, Z0, m, nn, Column(Z1, p.n, c))
    {
      assert Column(Z1, p.n, c) == Column(Z0, p.n, c);
    }
    FreeColumnDistinct(p, z, t, m, Z0, Z1, nn);
  }

  /** A vector not yet passed differs from every kept one. */
  lemma FreeColumnDistinct(p: Problem, z: seq<real>, t: seq<nat>, m: nat, Z0: Matrix, Z1: Matrix, nn: nat)
    requires p.Valid() && |z| == p.n && |t| == p.n && IsMatrix(Z0, p.n, m) && IsMatrix(Z1, p.n, m) && nn < m
    requires StoredPassed(p, Z0, m, nn, z, t, 0) && Distinct(Z0, p.n, m, nn) && !Passed(p, z, t, 0, z)
    requires Column(Z1, p.n, nn) == z
    requires forall c :: 0 <= c < m && c != nn ==> Column(Z1, p.n, c) == Column(Z0, p.n, c)
    ensures Distinct(Z1, p.n, m, nn + 1)
  {
    forall c1, c2 | 0 <= c1 < c2 < nn + 1
      ensures Column(Z1, p.n, c1) != Column(Z1, p.n, c2)
    {
      var w1 := Column(Z0, p.n, c1);
      assert Column(Z1, p.n, c1) == w1;
      if c2 < nn {
        assert Column(Z1, p.n, c2) == Column(Z0, p.n, c2);
      } else {
        assert Passed(p, z, t, 0, w1);
      }
    }
  }

  /** z stored in column i of a full store, in place of a vector costing at
      least the bound. */
  lemma StoredReplacing(p: Problem, z: seq<real>, t: seq<nat>, m: nat, Z0: Matrix, Z1: Matrix, i: nat,
                        bound: real)
    requires p.Valid() && |z| == p.n && |t| == p.n && IsMatrix(Z0, p.n, m) && IsMatrix(Z1, p.n, m) && i < m
    requires StoredPassed(p, Z0, m, m, z, t, 0) && Distinct(Z0, p.n, m, m) && !Passed(p, z, t, 0, z)
    requires Column(Z1, p.n, i) == z && bound <= Cost(p, Column(Z0, p.n, i))
    requires forall c :: 0 <= c < m && c != i ==> Column(Z1, p.n, c) == Column(Z0, p.n, c)
    ensures Drawn(p.n, Z1, Z0, m, m, m, z) && InStore(p.n, Z1, m, m, z)
    ensures Retained(p, Z0, Z1, m, m, m, bound)
    ensures Distinct(Z1, p.n, m, m)
  {
    forall c | 0 <= c < m && c != i
      ensures InStore(p.n, Z1, m, m, Column(Z0, p.n, c)) && InStore(p.n, Z0, m, m, Column(Z1, p.n, c))
    {
      assert Column(Z1, p.n, c) == Column(Z0, p.n, c);
    }
    forall c1, c2 | 0 <= c1 < c2 < m
      ensures Column(Z1, p.n, c1) != Column(Z1, p.n, c2)
    {
      if c1 != i {
        assert Column(Z1, p.n, c1) == Column(Z0, p.n, c1);
      }
      if c2 != i {
        assert Column(Z1, p.n, c2) == Column(Z0, p.n, c2);
      }
    }
  }

  /** The store left as it was. */
  lemma StoreKept(p: Problem, z: seq<real>, m: nat, Z: Matrix, nn: nat, bound: real)
    requires p.Valid() && |z| == p.n && IsMatrix(Z, p.n, m) && nn <= m
    ensures Drawn(p.n, Z, Z, m, nn, nn, z) && Retained(p, Z, Z, m, nn, nn, bound)
  {
    forall c | 0 <= c < nn
      ensures InStore(p.n, Z, m, nn, Column(Z, p.n, c))
    {
    }
  }

  /** The search state held in the arrays is consistent from level k up. */
  ghost predicate State(p: Problem, S: array2<real>, z: array<real>, zb: array<real>, dist: array<real>,
                        step: array<real>, t: seq<nat>, k: nat)
    requires p.Valid()
    reads S, z, zb, dist, step
  {
    S.Length0 == p.n && S.Length1 == p.n && z.Length == p.n && zb.Length == p.n &&
    dist.Length == p.n && step.Length == p.n && |t| == p.n && k < p.n &&
    Levels(p, z[..], zb[..], dist[..], Snapshot(S), step[..], t, k)
  }

  /** Lines 316-317: row k of S from row k+1 and the correction of level
      k+1. */
  method FillPullRow(n: nat, S: array2<real>, L: Matrix, z: array<real>, zb: array<real>, k: nat)
    requires IsMatrix(L, n, n) && S.Length0 == n && S.Length1 == n && z.Length == n && zb.Length == n
    requires k + 1 < n
    modifies S
    ensures forall i :: 0 <= i <= k ==> S[k, i] == old(S[k + 1, i]) + (z[k + 1] - zb[k + 1]) * L[k + 1][i]
    ensures forall r, c :: 0 <= r < n && 0 <= c < n && (r != k || k < c) ==> S[r, c] == old(S[r, c])
  {
    var i := 0;
    while i <= k
      invariant 0 <= i <= k + 1
      invariant forall q :: 0 <= q < i ==> S[k, q] == old(S[k + 1, q]) + (z[k + 1] - zb[k + 1]) * L[k + 1][q]
      invariant forall r, c :: 0 <= r < n && 0 <= c < n && (r != k || i <= c) ==> S[r, c] == old(S[r, c])
    {
      S[k, i] := S[k + 1, i] + (z[k + 1] - zb[k + 1]) * L[k + 1][i];
      i := i + 1;
    }
  }

  /** Lines 315-321: step down from level k+1 to level k, which starts at
      its first trial, the rounded centre. */
  method DescendStep(p: Problem, S: array2<real>, z: array<real>, zb: array<real>, dist: array<real>,
                     step: array<real>, ghost t: seq<nat>, k: nat, newdist: real,
                     ghost Z: Matrix, ghost m: nat, ghost nn: nat, ghost bound: real)
    returns (y: real, ghost t': seq<nat>)
    requires p.Valid() && k + 1 < p.n
    requires z != zb && z != dist && z != step && zb != dist && zb != step && dist != step
    requires State(p, S, z, zb, dist, step, t, k + 1)
    requires newdist == dist[k + 1] + Weighted(zb[k + 1] - z[k + 1], p.D[k + 1])
    requires IsMatrix(Z, p.n, m) && nn <= m && Covered(p, Z, m, nn, bound, z[..], t, k + 1)
    modifies S, z, zb, dist, step
    ensures State(p, S, z, zb, dist, step, t', k) && y == zb[k] - z[k]
    ensures t' == t[k := 0]
    ensures zb[..] == old(zb[..])[k := Centre(p, z[..], k)]
    ensures z[..] == old(z[..])[k := RoundReal(zb[k])]
    ensures dist[..] == old(dist[..])[k := newdist] && step[..] == old(step[..])[k := Sgn(y)]
    ensures forall i :: 0 <= i <= k ==> S[k, i] == Pull(p, z[..], i, k + 1)
    ensures forall r, c :: 0 <= r < p.n && 0 <= c < p.n && (r != k || k < c) ==> S[r, c] == old(S[r, c])
    ensures Covered(p, Z, m, nn, bound, z[..], t', k)
  {
    ghost var z0, zb0, dist0, S0, step0 := z[..], zb[..], dist[..], Snapshot(S), step[..];
    dist[k] := newdist;
    FillPullRow(p.n, S, p.L, z, zb, k);
    zb[k] := p.zs[k] + S[k, k];
    z[k] := RoundReal(zb[k]);
    y := zb[k] - z[k];
    step[k] := Sgn(y);
    t' := t[k := 0];
    ghost var S1 := Snapshot(S);
    forall i | 0 <= i <= k
      ensures S1[k][i] == S0[k + 1][i] + (z0[k + 1] - zb0[k + 1]) * p.L[k + 1][i]
    {
    }
    forall l, i | k < l < p.n && 0 <= i < p.n
      ensures S1[l][i] == S0[l][i]
    {
    }
    Descend(p, z0, zb0, dist0, S0, step0, t, k, S1);
    assert z[..] == z0[k := RoundReal(p.zs[k] + S1[k][k])];
    assert zb[..] == zb0[k := p.zs[k] + S1[k][k]];
    assert LevelAt(p, z[..], zb[..], dist[..], S1, step[..], t', k);
    CoveredDescend(p, Z, m, nn, bound, z0, t, k, z[k]);
  }

  /** Lines 346-348 and 357-358: move level k to its next trial integer. */
  method NextTrialStep(p: Problem, S: array2<real>, z: array<real>, zb: array<real>, dist: array<real>,
                       step: array<real>, ghost t: seq<nat>, k: nat)
    returns (y: real, ghost t': seq<nat>)
    requires p.Valid()
    requires z != zb && z != dist && z != step && zb != step && dist != step
    requires State(p, S, z, zb, dist, step, t, k)
    modifies z, step
    ensures State(p, S, z, zb, dist, step, t', k) && y == zb[k] - z[k]
    ensures t' == t[k := t[k] + 1]
    ensures z[..] == old(z[..])[k := old(z[k]) + old(step[k])]
    ensures step[..] == old(step[..])[k := -old(step[k]) - Sgn(old(step[k]))]
  {
    ghost var z0, step0 := z[..], step[..];
    NextTrial(p, z0, zb[..], dist[..], Snapshot(S), step0, t, k);
    z[k] := z[k] + step[k];
    y := zb[k] - z[k];
    step[k] := -step[k] - Sgn(step[k]);
    t' := t[k := t[k] + 1];
    assert z[..] == z0[k := z0[k] + step0[k]];
    assert step[..] == step0[k := -step0[k] - Sgn(step0[k])];
  }

  /** Lines 329-330 and 337-338: copy the trial vector into column col of
      zn. */
  method StoreCandidate(n: nat, zn: array2<real>, col: nat, z: array<real>)
    requires zn.Length0 == n && col < zn.Length1 && z.Length == n
    modifies zn
    ensures Column(Snapshot(zn), n, col) == z[..]
    ensures forall c :: 0 <= c < zn.Length1 && c != col ==>
      Column(Snapshot(zn), n, c) == Column(old(Snapshot(zn)), n, c)
  {
    ghost var Z0 := Snapshot(zn);
    var i := 0;
    while i < n
      invariant 0 <= i <= n
      invariant forall r, c :: 0 <= r < n && 0 <= c < zn.Length1 ==>
        zn[r, c] == if c == col && r < i then z[r] else Z0[r][c]
    {
      zn[i, col] := z[i];
      i := i + 1;
    }
    assert Column(Snapshot(zn), n, col) == z[..];
    forall c | 0 <= c < zn.Length1 && c != col
      ensures Column(Snapshot(zn), n, c) == Column(Z0, n, c)
    {
      assert forall r :: 0 <= r < n ==> Column(Snapshot(zn), n, c)[r] == Column(Z0, n, c)[r];
    }
  }

  /** Lines 340-342: the first place of a largest cost. */
  method ArgMax(s: array<real>) returns (imax: nat)
    requires 0 < s.Length
    ensures imax < s.Length
    ensures forall i :: 0 <= i < s.Length ==> s[i] <= s[imax]
    ensures forall i :: 0 <= i < imax ==> s[i] < s[imax]
  {
    imax := 0;
    var i := 0;
    while i < s.Length
      invariant 0 <= i <= s.Length && imax < s.Length && (imax < i || imax == 0)
      invariant forall q :: 0 <= q < i ==> s[q] <= s[imax]
      invariant forall q :: 0 <= q < imax ==> s[q] < s[imax]
    {
      if s[imax] < s[i] {
        imax := i;
      }
      i := i + 1;
    }
  }

  /** Lines 325-331: while the store has a free column the leaf goes
      there, becoming the largest when it costs more than the largest. */
  method KeepInFreeColumn(p: Problem, zn: array2<real>, s: array<real>, z: array<real>,
                          nn: nat, imax: nat, maxdist: real, newdist: real)
    returns (imax': nat)
    requires p.Valid() && zn.Length0 == p.n && zn.Length1 == s.Length && z.Length == p.n
    requires nn < s.Length && z != s
    requires Kept(p, Snapshot(zn), s[..], nn, imax, maxdist)
    requires newdist < maxdist && Found(p, z[..], newdist)
    modifies zn, s
    ensures Kept(p, Snapshot(zn), s[..], nn + 1, imax', maxdist)
    ensures s[..] == old(s[..])[nn := newdist]
    ensures Column(Snapshot(zn), p.n, nn) == z[..]
    ensures forall c :: 0 <= c < s.Length && c != nn ==>
      Column(Snapshot(zn), p.n, c) == Column(old(Snapshot(zn)), p.n, c)
    ensures imax' == if nn == 0 || newdist > old(s[imax]) then nn else imax
  {
    ghost var Z0 := Snapshot(zn);
    imax' := if nn == 0 || newdist > s[imax] then nn else imax;
    StoreCandidate(p.n, zn, nn, z);
    s[nn] := newdist;
    assert forall c :: 0 <= c < nn ==> Column(Snapshot(zn), p.n, c) == Column(Z0, p.n, c);
  }

  /** Lines 333-344: with the store full, a leaf cheaper than the largest
      kept vector replaces it and the largest is found again; either way the
      bound becomes the largest kept cost. */
  method ReplaceLargest(p: Problem, zn: array2<real>, s: array<real>, z: array<real>,
                        imax: nat, maxdist: real, newdist: real)
    returns (imax': nat, maxdist': real)
    requires p.Valid() && zn.Length0 == p.n && zn.Length1 == s.Length && z.Length == p.n
    requires 0 < s.Length && z != s
    requires Kept(p, Snapshot(zn), s[..], s.Length, imax, maxdist)
    requires newdist < maxdist && Found(p, z[..], newdist)
    modifies zn, s
    ensures Kept(p, Snapshot(zn), s[..], s.Length, imax', maxdist')
    ensures maxdist' == s[imax'] && maxdist' <= old(s[imax])
    ensures newdist < old(s[imax]) ==>
      s[..] == old(s[..])[imax := newdist] && Column(Snapshot(zn), p.n, imax) == z[..] &&
      (forall c :: 0 <= c < s.Length && c != imax ==>
         Column(Snapshot(zn), p.n, c) == Column(old(Snapshot(zn)), p.n, c)) &&
      (forall i :: 0 <= i < s.Length ==> s[i] <= s[imax']) &&
      (forall i :: 0 <= i < imax' ==> s[i] < s[imax'])
    ensures old(s[imax]) <= newdist ==>
      s[..] == old(s[..]) && Snapshot(zn) == old(Snapshot(zn)) && imax' == imax
  {
    var m := s.Length;
    ghost var Z0, s0 := Snapshot(zn), s[..];
    if newdist < s[imax] {
      StoreCandidate(p.n, zn, imax, z);
      s[imax] := newdist;
      imax' := ArgMax(s);
      assert forall c :: 0 <= c < m && c != imax ==> Column(Snapshot(zn), p.n, c) == Column(Z0, p.n, c);
      assert forall c :: 0 <= c < m ==> s[c] <= s0[imax];
    } else {
      imax' := imax;
    }
    maxdist' := s[imax'];
  }

  /** The entries at places from.. are those of (s0, Z0). */
  ghost predicate Untouched(s0: seq<real>, Z0: Matrix, s: seq<real>, Z: Matrix, n: nat, from: nat)
    requires |s0| == |s| && IsMatrix(Z0, n, |s|) && IsMatrix(Z, n, |s|)
  {
    forall c :: from <= c < |s| ==> s[c] == s0[c] && Column(Z, n, c) == Column(Z0, n, c)
  }

  /** Lines 324-345: the leaf z, of cost newdist below the bound, goes to a
      free column; with the store full it replaces the largest kept vector
      when it costs less, and the bound becomes the largest kept cost. */
  method RecordLeaf(p: Problem, zn: array2<real>, s: array<real>, z: array<real>, ghost t: seq<nat>,
                    nn: nat, imax: nat, maxdist: real, newdist: real)
    returns (nn': nat, imax': nat, maxdist': real)
    requires p.Valid() && zn.Length0 == p.n && zn.Length1 == s.Length && z.Length == p.n
    requires 0 < s.Length && z != s && |t| == p.n
    requires Kept(p, Snapshot(zn), s[..], nn, imax, maxdist)
    requires StoredPassed(p, Snapshot(zn), s.Length, nn, z[..], t, 0) && Distinct(Snapshot(zn), p.n, s.Length, nn)
    requires !Passed(p, z[..], t, 0, z[..])
    requires newdist < maxdist && Found(p, z[..], newdist)
    modifies zn, s
    ensures Kept(p, Snapshot(zn), s[..], nn', imax', maxdist')
    ensures nn' == if nn < s.Length then nn + 1 else nn
    ensures maxdist' <= maxdist && Distinct(Snapshot(zn), p.n, s.Length, nn')
    ensures nn < s.Length || newdist < old(s[imax]) ==> InStore(p.n, Snapshot(zn), s.Length, nn', z[..])
    ensures !(nn < s.Length || newdist < old(s[imax])) ==>
      s[..] == old(s[..]) && Snapshot(zn) == old(Snapshot(zn)) && maxdist' <= newdist
    ensures Drawn(p.n, Snapshot(zn), old(Snapshot(zn)), s.Length, nn', nn, z[..])
    ensures Retained(p, old(Snapshot(zn)), Snapshot(zn), s.Length, nn, nn', maxdist')
    ensures Untouched(old(s[..]), old(Snapshot(zn)), s[..], Snapshot(zn), p.n, nn')
  {
    ghost var Z0, s0 := Snapshot(zn), s[..];
    if nn < s.Length {
      imax' := KeepInFreeColumn(p, zn, s, z, nn, imax, maxdist, newdist);
      nn', maxdist' := nn + 1, maxdist;
      StoredInFreeColumn(p, z[..], t, s.Length, Z0, Snapshot(zn), nn, maxdist');
    } else {
      nn' := nn;
      imax', maxdist' := ReplaceLargest(p, zn, s, z, imax, maxdist, newdist);
      if newdist < s0[imax] {
        assert Found(p, Column(Z0, p.n, imax), s0[imax]);
        StoredReplacing(p, z[..], t, s.Length, Z0, Snapshot(zn), imax, maxdist');
      } else {
        StoreKept(p, z[..], s.Length, Z0, nn, maxdist');
      }
    }
  }

  /** The kept costs paired with their vectors, the columns of Z. */
  ghost function Entries(s: seq<real>, Z: Matrix, n: nat): (e: seq<(real, seq<real>)>)
    requires IsMatrix(Z, n, |s|)
    ensures |e| == |s| && forall c :: 0 <= c < |s| ==> e[c] == (s[c], Column(Z, n, c))
  {
    seq(|s|, c requires 0 <= c < |s| => (s[c], Column(Z, n, c)))
  }

  predicate Sorted(s: seq<real>) {
    forall i, j :: 0 <= i < j < |s| ==> s[i] <= s[j]
  }

  /** Exchanging two costs and the same two columns exchanges two entries. */
  lemma EntriesSwapped(s0: seq<real>, Z0: Matrix, s1: seq<real>, Z1: Matrix, n: nat, i: nat, j: nat)
    requires IsMatrix(Z0, n, |s0|) && IsMatrix(Z1, n, |s0|) && i < |s0| && j < |s0|
    requires s1 == Swapped(s0, i, j)
    requires forall r, c :: 0 <= r < n && 0 <= c < |s0| ==>
      Z1[r][c] == if c == i then Z0[r][j] else if c == j then Z0[r][i] else Z0[r][c]
    ensures Entries(s1, Z1, n) == Swapped(Entries(s0, Z0, n), i, j)
    ensures multiset(Entries(s1, Z1, n)) == multiset(Entries(s0, Z0, n))
  {
    var E0, E1 := Entries(s0, Z0, n), Entries(s1, Z1, n);
    forall c | 0 <= c < |s0|
      ensures E1[c] == Swapped(E0, i, j)[c]
    {
      var d := if c == i then j else if c == j then i else c;
      assert Column(Z1, n, c) == Column(Z0, n, d);
    }
    SwappedPermutes(E0, i, j);
  }

  /** Lines 368-369: exchange two kept costs together with their vectors. */
  method SwapCandidates(n: nat, zn: array2<real>, s: array<real>, i: nat, j: nat)
    requires zn.Length0 == n && zn.Length1 == s.Length && i < s.Length && j < s.Length
    modifies zn, s
    ensures s[..] == Swapped(old(s[..]), i, j)
    ensures forall r, c :: 0 <= r < n && 0 <= c < s.Length ==>
      zn[r, c] == if c == i then old(zn[r, j]) else if c == j then old(zn[r, i]) else old(zn[r, c])
    ensures multiset(Entries(s[..], Snapshot(zn), n)) == multiset(old(Entries(s[..], Snapshot(zn), n)))
  {
    ghost var Z0, s0 := Snapshot(zn), s[..];
    s[i], s[j] := s[j], s[i];
    var k := 0;
    while k < n
      modifies zn
      invariant 0 <= k <= n
      invariant forall r, c :: 0 <= r < n && 0 <= c < zn.Length1 ==>
        zn[r, c] == if r < k && c == i then Z0[r][j] else if r < k && c == j then Z0[r][i] else Z0[r][c]
    {
      zn[k, i], zn[k, j] := zn[k, j], zn[k, i];
      k := k + 1;
    }
    assert s[..] == Swapped(s0, i, j);
    EntriesSwapped(s0, Z0, s[..], Snapshot(zn), n, i, j);
  }
  /** Places 0..i-1 hold the i smallest costs in ascending order. */
  predicate SortedBelow(s: seq<real>, i: nat) {
    forall a, b :: 0 <= a < b < |s| && a < i ==> s[a] <= s[b]
  }

  /** Place i holds the smallest of places i..j-1. */
  predicate SmallestUpTo(s: seq<real>, i: nat, j: nat) {
    forall b :: i < b < j && b < |s| ==> i < |s| && s[i] <= s[b]
  }

  /** Place i, no larger than place j, holds the smallest of i..j. */
  lemma SmallestExtends(s: seq<real>, i: nat, j: nat)
    requires i < j < |s| && SmallestUpTo(s, i, j) && s[i] < s[j]
    ensures SmallestUpTo(s, i, j + 1)
  {
  }

  /** The exchange of places i and j < |s| when s[j] <= s[i] keeps the
      sorted prefix and the smallest at place i. */
  lemma ExchangeKeepsOrder(s0: seq<real>, s1: seq<real>, i: nat, j: nat)
    requires i < j < |s0| && s1 == Swapped(s0, i, j) && s0[j] <= s0[i]
    requires SortedBelow(s0, i) && SmallestUpTo(s0, i, j)
    ensures SortedBelow(s1, i) && SmallestUpTo(s1, i, j + 1)
  {
    forall a, b | 0 <= a < b < |s1| && a < i
      ensures s1[a] <= s1[b]
    {
      assert s1[a] == s0[a];
      if b == i {
        assert s1[b] == s0[j];
      } else if b == j {
        assert s1[b] == s0[i];
      } else {
        assert s1[b] == s0[b];
      }
    }
  }

  /** The inner loop of lines 364-370: bring the smallest of places
      i..m-1 to place i, exchanging vectors along with costs. */
  method SelectSmallest(n: nat, zn: array2<real>, s: array<real>, i: nat)
    requires zn.Length0 == n && zn.Length1 == s.Length && i + 1 < s.Length
    requires SortedBelow(s[..], i)
    modifies zn, s
    ensures SortedBelow(s[..], i + 1)
    ensures multiset(Entries(s[..], Snapshot(zn), n)) == multiset(old(Entries(s[..], Snapshot(zn), n)))
  {
    var m := s.Length;
    ghost var E0 := Entries(s[..], Snapshot(zn), n);
    var j := i + 1;
    while j < m
      invariant i + 1 <= j <= m
      invariant SortedBelow(s[..], i) && SmallestUpTo(s[..], i, j)
      invariant multiset(Entries(s[..], Snapshot(zn), n)) == multiset(E0)
    {
      if !(s[i] < s[j]) {
        ghost var s0 := s[..];
        SwapCandidates(n, zn, s, i, j);
        ExchangeKeepsOrder(s0, s[..], i, j);
      } else {
        SmallestExtends(s[..], i, j);
      }
      j := j + 1;
    }
  }

  /** Lines 362-371: sort the kept costs into ascending order, each vector
      moving with its cost. */
  method SortCandidates(n: nat, zn: array2<real>, s: array<real>)
    requires zn.Length0 == n && zn.Length1 == s.Length
    modifies zn, s
    ensures Sorted(s[..])
    ensures multiset(Entries(s[..], Snapshot(zn), n)) == multiset(old(Entries(s[..], Snapshot(zn), n)))
  {
    var m := s.Length;
    ghost var E0 := Entries(s[..], Snapshot(zn), n);
    var i := 0;
    while i + 1 < m
      invariant 0 <= i <= m
      invariant SortedBelow(s[..], i)
      invariant multiset(Entries(s[..], Snapshot(zn), n)) == multiset(E0)
    {
      SelectSmallest(n, zn, s, i);
      i := i + 1;
    }
    assert SortedBelow(s[..], m);
  }

  /** Sorting keeps every kept vector with its own cost. */
  lemma EntriesKept(p: Problem, s0: seq<real>, Z0: Matrix, s1: seq<real>, Z1: Matrix, bound: real)
    requires p.Valid() && IsMatrix(Z0, p.n, |s0|) && IsMatrix(Z1, p.n, |s1|)
    requires multiset(Entries(s1, Z1, p.n)) == multiset(Entries(s0, Z0, p.n))
    requires forall c :: 0 <= c < |s0| ==> Found(p, Column(Z0, p.n, c), s0[c]) && s0[c] <= bound
    ensures forall c :: 0 <= c < |s1| ==> Found(p, Column(Z1, p.n, c), s1[c]) && s1[c] <= bound
  {
    var E0, E1 := Entries(s0, Z0, p.n), Entries(s1, Z1, p.n);
    forall c | 0 <= c < |s1|
      ensures Found(p, Column(Z1, p.n, c), s1[c]) && s1[c] <= bound
    {
      assert E1[c] in multiset(E1);
      assert E1[c] in E0;
      var c0 :| 0 <= c0 < |s0| && E0[c0] == E1[c];
    }
  }

  /** The search before its loop (lines 305-307): only the last level,
      top = n - 1, is active, at its rounded centre. */
  lemma Start(p: Problem, z: seq<real>, zb: seq<real>, dist: seq<real>, S: Matrix,
              step: seq<real>, t: seq<nat>, top: nat)
    requires p.Valid() && |z| == p.n && |zb| == p.n && |dist| == p.n && IsMatrix(S, p.n, p.n)
    requires |step| == p.n && |t| == p.n && top + 1 == p.n
    requires zb[top] == p.zs[top] && z[top] == RoundReal(zb[top])
    requires dist[top] == 0.0 && t[top] == 0
    requires step[top] == Sgn(zb[top] - z[top])
    requires forall i :: 0 <= i < p.n ==> S[top][i] == 0.0
    ensures Levels(p, z, zb, dist, S, step, t, top)
  {
    assert Centre(p, z, top) == p.zs[top] + Pull(p, z, top, p.n);
    assert ZigStep(Sgn(zb[top] - RoundReal(zb[top])), 0) == step[top];
    assert LevelAt(p, z, zb, dist, S, step, t, top);
  }

  /** Line 310: the new distance, the cost of the levels k..n-1 of the
      trial vector. */
  method NewDistance(p: Problem, S: array2<real>, z: array<real>, zb: array<real>, dist: array<real>,
                     step: array<real>, ghost t: seq<nat>, k: nat, y: real)
    returns (newdist: real)
    requires p.Valid() && State(p, S, z, zb, dist, step, t, k) && y == zb[k] - z[k]
    ensures newdist == PartialCost(p, z[..], k)
    ensures newdist == dist[k] + Weighted(zb[k] - z[k], p.D[k])
  {
    newdist := dist[k] + y * y / p.D[k];
    LevelCost(p, z[..], zb[..], dist[..], Snapshot(S), step[..], t, k);
  }

  /** Lines 324-348: a leaf below the bound is recorded, and level 0 moves
      to its next trial. */
  method AtLeaf(p: Problem, zn: array2<real>, s: array<real>, S: array2<real>, z: array<real>,
                zb: array<real>, dist: array<real>, step: array<real>, ghost t: seq<nat>,
                nn: nat, imax: nat, maxdist: real, newdist: real)
    returns (y: real, ghost t': seq<nat>, nn': nat, imax': nat, maxdist': real)
    requires p.Valid() && zn.Length0 == p.n && zn.Length1 == s.Length && 0 < s.Length
    requires z != zb && z != dist && z != step && zb != dist && zb != step && dist != step
    requires s != z && s != zb && s != dist && s != step && zn != S
    requires State(p, S, z, zb, dist, step, t, 0)
    requires Kept(p, Snapshot(zn), s[..], nn, imax, maxdist)
    requires Covered(p, Snapshot(zn), s.Length, nn, maxdist, z[..], t, 0)
    requires newdist < maxdist && newdist == PartialCost(p, z[..], 0)
    modifies zn, s, z, step
    ensures State(p, S, z, zb, dist, step, t', 0) && y == zb[0] - z[0]
    ensures t' == t[0 := t[0] + 1] && z[0] == old(z[0]) + old(step[0])
    ensures forall i :: 0 < i < z.Length ==> z[i] == old(z[i])
    ensures Kept(p, Snapshot(zn), s[..], nn', imax', maxdist')
    ensures nn' == if nn < s.Length then nn + 1 else nn
    ensures maxdist' <= maxdist
    ensures nn < s.Length || newdist < old(s[imax]) ==> InStore(p.n, Snapshot(zn), s.Length, nn', old(z[..]))
    ensures Covered(p, Snapshot(zn), s.Length, nn', maxdist', z[..], t', 0)
    ensures Untouched(old(s[..]), old(Snapshot(zn)), s[..], Snapshot(zn), p.n, nn')
  {
    ghost var z0, zb0, dist0, S0, step0 := z[..], zb[..], dist[..], Snapshot(S), step[..];
    ghost var Z0 := Snapshot(zn);
    LevelsIntegral(p, z0, zb0, dist0, S0, step0, t, 0);
    CurrentNotPassed(p, z0, zb0, dist0, S0, step0, t, 0);
    nn', imax', maxdist' := RecordLeaf(p, zn, s, z, t, nn, imax, maxdist, newdist);
    ghost var Z1 := Snapshot(zn);
    assert z[..] == z0 && step[..] == step0;
    y, t' := NextTrialStep(p, S, z, zb, dist, step, t, 0);
    assert Snapshot(zn) == Z1;
    CoveredLeaf(p, z0, zb0, dist0, S0, step0, t, z[..], t', s.Length, Z0, nn, maxdist, Z1, nn', maxdist');
  }

  /** Lines 351-360: the partial cost has reached the bound, so the rest of
      level k is pruned; the search stops at the last level and otherwise
      climbs to level k+1 and moves it to its next trial. */
  method Climb(p: Problem, S: array2<real>, z: array<real>, zb: array<real>, dist: array<real>,
               step: array<real>, ghost t: seq<nat>, k: nat, maxdist: real, newdist: real,
               ghost Z: Matrix, ghost m: nat, ghost nn: nat)
    returns (stop: bool, k': nat, y: real, ghost t': seq<nat>)
    requires p.Valid()
    requires z != zb && z != dist && z != step && zb != dist && zb != step && dist != step
    requires State(p, S, z, zb, dist, step, t, k)
    requires maxdist <= newdist && newdist == PartialCost(p, z[..], k)
    requires IsMatrix(Z, p.n, m) && nn <= m && Covered(p, Z, m, nn, maxdist, z[..], t, k)
    modifies z, step
    ensures stop <==> k == p.n - 1
    ensures stop ==> unchanged(z, step) && Complete(p, Z, m, nn, maxdist)
    ensures !stop ==> k' == k + 1 && t' == t[k' := t[k'] + 1] &&
                      z[..] == old(z[..])[k' := old(z[k']) + old(step[k'])]
    ensures !stop ==> State(p, S, z, zb, dist, step, t', k') && y == zb[k'] - z[k']
    ensures !stop ==> Covered(p, Z, m, nn, maxdist, z[..], t', k')
  {
    if k == p.n - 1 {
      CoveredStop(p, z[..], zb[..], dist[..], Snapshot(S), step[..], t, k, Z, m, nn, maxdist);
      return true, k, 0.0, t;
    }
    ghost var z0, step0 := z[..], step[..];
    stop, k' := false, k + 1;
    y, t' := NextTrialStep(p, S, z, zb, dist, step, t, k');
    CoveredClimb(p, z0, zb[..], dist[..], Snapshot(S), step0, t, k, z[k'], Z, m, nn, maxdist);
  }

  /** One iteration of the loop of lines 308-361: with nd the cost of the
      levels k..n-1 of the trial vector, descend when it is below the bound
      and k > 0, record the leaf when it is below the bound and k = 0, and
      otherwise climb, or stop at the last level. */
  method Iterate(p: Problem, zn: array2<real>, s: array<real>, S: array2<real>, z: array<real>,
                 zb: array<real>, dist: array<real>, step: array<real>, ghost t: seq<nat>,
                 k: nat, y: real, nn: nat, imax: nat, maxdist: real)
    returns (stop: bool, k': nat, y': real, ghost t': seq<nat>, nn': nat, imax': nat, maxdist': real)
    requires p.Valid() && zn.Length0 == p.n && zn.Length1 == s.Length && 0 < s.Length
    requires z != zb && z != dist && z != step && zb != dist && zb != step && dist != step
    requires s != z && s != zb && s != dist && s != step && zn != S
    requires State(p, S, z, zb, dist, step, t, k) && y == zb[k] - z[k]
    requires Kept(p, Snapshot(zn), s[..], nn, imax, maxdist)
    requires Covered(p, Snapshot(zn), s.Length, nn, maxdist, z[..], t, k)
    modifies zn, s, S, z, zb, dist, step
    ensures Kept(p, Snapshot(zn), s[..], nn', imax', maxdist')
    ensures nn <= nn' && Untouched(old(s[..]), old(Snapshot(zn)), s[..], Snapshot(zn), p.n, nn')
    ensures var nd := PartialCost(p, old(z[..]), k);
      (nd < maxdist && 0 < k ==> !stop && k' == k - 1 && t' == t[k' := 0]) &&
      (nd < maxdist && k == 0 ==> !stop && k' == 0 && t' == t[0 := t[0] + 1] &&
                                  nn' == (if nn < s.Length then nn + 1 else nn) &&
                                  (nn < s.Length || nd < old(s[imax]) ==>
                                     InStore(p.n, Snapshot(zn), s.Length, nn', old(z[..])))) &&
      (maxdist <= nd ==> (stop <==> k == p.n - 1) && nn' == nn && maxdist' == maxdist &&
                         (!stop ==> k' == k + 1 && t' == t[k' := t[k'] + 1]))
    ensures stop ==> Complete(p, Snapshot(zn), s.Length, nn', maxdist') && Distinct(Snapshot(zn), p.n, s.Length, nn')
    ensures !stop ==> State(p, S, z, zb, dist, step, t', k') && y' == zb[k'] - z[k']
    ensures !stop ==> Covered(p, Snapshot(zn), s.Length, nn', maxdist', z[..], t', k')
  {
    var newdist := NewDistance(p, S, z, zb, dist, step, t, k, y);
    nn', imax', maxdist' := nn, imax, maxdist;
    ghost var Z, s0 := Snapshot(zn), s[..];
    if newdist < maxdist {
      stop := false;
      if k != 0 {
        k' := k - 1;
        y', t' := DescendStep(p, S, z, zb, dist, step, t, k', newdist, Z, s.Length, nn, maxdist);
        assert Snapshot(zn) == Z && s[..] == s0;
      } else {
        k' := 0;
        y', t', nn', imax', maxdist' := AtLeaf(p, zn, s, S, z, zb, dist, step, t, nn, imax, maxdist, newdist);
      }
    } else {
      stop, k', y', t' := Climb(p, S, z, zb, dist, step, t, k, maxdist, newdist, Z, s.Length, nn);
      assert Snapshot(zn) == Z && s[..] == s0;
    }
  }

  /** Lines 303-307: the work arrays, with only the last level active at
      its rounded centre and every trial counter at zero. */
  method Begin(p: Problem)
    returns (S: array2<real>, z: array<real>, zb: array<real>, dist: array<real>, step: array<real>,
             ghost t: seq<nat>, k: nat, y: real)
    requires p.Valid() && 0 < p.n
    ensures fresh(S) && fresh(z) && fresh(zb) && fresh(dist) && fresh(step)
    ensures z != zb && z != dist && z != step && zb != dist && zb != step && dist != step
    ensures State(p, S, z, zb, dist, step, t, k) && y == zb[k] - z[k]
    ensures k == p.n - 1 && t == seq(p.n, _ => 0)
    ensures zb[k] == p.zs[k] && z[k] == RoundReal(p.zs[k]) && dist[k] == 0.0 && step[k] == Sgn(y)
    ensures forall r, c :: 0 <= r < p.n && 0 <= c < p.n ==> S[r, c] == 0.0
  {
    var n := p.n;
    S := new real[n, n]((r, c) => 0.0);
    dist := new real[n];
    zb := new real[n];
    z := new real[n];
    step := new real[n];
    t := seq(n, _ => 0);
    k := n - 1;
    dist[k] := 0.0;
    zb[k] := p.zs[k];
    z[k] := RoundReal(zb[k]);
    y := zb[k] - z[k];
    step[k] := Sgn(y);
    Start(p, z[..], zb[..], dist[..], Snapshot(S), step[..], t, k);
  }

  /** The kept entries are integer vectors with their own costs, no vector
      twice. */
  ghost predicate Candidates(p: Problem, kept: seq<(real, seq<real>)>)
    requires p.Valid()
  {
    (forall e :: e in kept ==> Found(p, e.1, e.0)) &&
    (forall i, j :: 0 <= i < j < |kept| ==> kept[i].1 != kept[j].1)
  }

  /** Every integer vector is kept with its cost or costs at least the
      bound. */
  ghost predicate Best(p: Problem, kept: seq<(real, seq<real>)>, bound: real)
    requires p.Valid()
  {
    forall v {:trigger Cost(p, v)} :: |v| == p.n && IntegralVector(v) ==> (Cost(p, v), v) in kept || bound <= Cost(p, v)
  }

  /** What a search on p with m places leaves behind, (s0, Z0) being the
      costs and columns before it: the costs sorted, the kept entries
      candidates, the entries those kept followed by the rest of the entries
      before the search, every column a candidate once m are kept, and, when
      the search completed, no integer vector missing from the kept ones
      costs less than the largest kept cost of a full store. */
  ghost predicate Searched(p: Problem, m: nat, s0: seq<real>, Z0: Matrix, s: seq<real>, Z: Matrix,
                           kept: seq<(real, seq<real>)>, complete: bool)
    requires p.Valid() && 0 < m && |s0| == m && |s| == m && IsMatrix(Z0, p.n, m) && IsMatrix(Z, p.n, m)
  {
    Sorted(s) && |kept| <= m && Candidates(p, kept) &&
    multiset(Entries(s, Z, p.n)) == multiset(kept) + multiset(Entries(s0, Z0, p.n)[|kept|..]) &&
    (|kept| == m ==> forall c :: 0 <= c < m ==> Found(p, Column(Z, p.n, c), s[c])) &&
    (complete ==> Best(p, kept, if |kept| < m then NoBound else s[m - 1]))
  }

  /** The first nn entries of a store are candidates. */
  lemma KeptCandidates(p: Problem, Z: Matrix, s: seq<real>, nn: nat, imax: nat, maxdist: real)
    requires p.Valid() && IsMatrix(Z, p.n, |s|)
    requires Kept(p, Z, s, nn, imax, maxdist) && Distinct(Z, p.n, |s|, nn)
    ensures Candidates(p, Entries(s, Z, p.n)[..nn])
  {
    var kept := Entries(s, Z, p.n)[..nn];
    forall e | e in kept
      ensures Found(p, e.1, e.0)
    {
      var c :| 0 <= c < nn && kept[c] == e;
    }
  }

  /** A complete search has kept the best: every integer vector is among
      the first nn entries or costs at least any bound below maxdist. */
  lemma CompleteIsBest(p: Problem, Z: Matrix, s: seq<real>, nn: nat, imax: nat, maxdist: real, bound: real)
    requires p.Valid() && IsMatrix(Z, p.n, |s|)
    requires Kept(p, Z, s, nn, imax, maxdist) && Complete(p, Z, |s|, nn, maxdist) && bound <= maxdist
    ensures Best(p, Entries(s, Z, p.n)[..nn], bound)
  {
    var kept := Entries(s, Z, p.n)[..nn];
    forall v {:trigger Cost(p, v)} | |v| == p.n && IntegralVector(v)
      ensures (Cost(p, v), v) in kept || bound <= Cost(p, v)
    {
      if InStore(p.n, Z, |s|, nn, v) {
        var c :| 0 <= c < nn && Column(Z, p.n, c) == v;
        assert kept[c] == (Cost(p, v), v);
      }
    }
  }

  /** What sorting a kept store gives: the kept entries with the rest, and
      when the search was complete, the best ones below the last cost. */
  lemma {:induction false} SortedStore(p: Problem, s0: seq<real>, Z0: Matrix, s1: seq<real>, Z1: Matrix,
                                       nn: nat, imax: nat, maxdist: real)
    requires p.Valid() && 0 < |s0| && |s1| == |s0| && IsMatrix(Z0, p.n, |s0|) && IsMatrix(Z1, p.n, |s0|)
    requires Kept(p, Z0, s0, nn, imax, maxdist) && Distinct(Z0, p.n, |s0|, nn)
    requires multiset(Entries(s1, Z1, p.n)) == multiset(Entries(s0, Z0, p.n))
    ensures Candidates(p, Entries(s0, Z0, p.n)[..nn])
    ensures multiset(Entries(s1, Z1, p.n)) ==
            multiset(Entries(s0, Z0, p.n)[..nn]) + multiset(Entries(s0, Z0, p.n)[nn..])
    ensures nn == |s0| ==> forall c :: 0 <= c < |s1| ==> Found(p, Column(Z1, p.n, c), s1[c])
    ensures Complete(p, Z0, |s0|, nn, maxdist) ==>
            Best(p, Entries(s0, Z0, p.n)[..nn], if nn < |s0| then NoBound else s1[|s0| - 1])
  {
    var E0 := Entries(s0, Z0, p.n);
    KeptCandidates(p, Z0, s0, nn, imax, maxdist);
    assert E0 == E0[..nn] + E0[nn..];
    if nn == |s0| {
      EntriesKept(p, s0, Z0, s1, Z1, maxdist);
    }
    if Complete(p, Z0, |s0|, nn, maxdist) {
      CompleteIsBest(p, Z0, s0, nn, imax, maxdist, if nn < |s0| then NoBound else s1[|s0| - 1]);
    }
  }

  /** Lines 362-371: the kept entries, the first nn, sorted by cost with the
      rest. When the search was complete every integer vector is kept or
      costs at least the largest of m kept costs (1E99 with fewer kept). */
  method Finish(p: Problem, zn: array2<real>, s: array<real>, nn: nat, imax: nat, maxdist: real)
    returns (ghost kept: seq<(real, seq<real>)>)
    requires p.Valid() && zn.Length0 == p.n && zn.Length1 == s.Length && 0 < s.Length
    requires Kept(p, Snapshot(zn), s[..], nn, imax, maxdist) && Distinct(Snapshot(zn), p.n, s.Length, nn)
    modifies zn, s
    ensures Sorted(s[..])
    ensures kept == old(Entries(s[..], Snapshot(zn), p.n))[..nn] && Candidates(p, kept)
    ensures multiset(Entries(s[..], Snapshot(zn), p.n)) ==
            multiset(kept) + multiset(old(Entries(s[..], Snapshot(zn), p.n))[nn..])
    ensures nn == s.Length ==> forall c :: 0 <= c < s.Length ==> Found(p, Column(Snapshot(zn), p.n, c), s[c])
    ensures Complete(p, old(Snapshot(zn)), s.Length, nn, maxdist) ==>
            Best(p, kept, if nn < s.Length then NoBound else s[s.Length - 1])
  {
    ghost var s0, Z0 := s[..], Snapshot(zn);
    kept := Entries(s0, Z0, p.n)[..nn];
    SortCandidates(p.n, zn, s);
    ghost var s1, Z1 := s[..], Snapshot(zn);
    SortedStore(p, s0, Z0, s1, Z1, nn, imax, maxdist);
  }

  /** The unwritten places keep the entries they had. */
  lemma UntouchedEntries(s0: seq<real>, Z0: Matrix, s: seq<real>, Z: Matrix, n: nat, from: nat)
    requires |s0| == |s| && IsMatrix(Z0, n, |s|) && IsMatrix(Z, n, |s|) && from <= |s|
    requires Untouched(s0, Z0, s, Z, n, from)
    ensures Entries(s, Z, n)[from..] == Entries(s0, Z0, n)[from..]
  {
  }

  /** Lines 303-361: the search loop, from the start of line 303 until the
      last level reaches the bound or LOOPMAX iterations have run. Its count
      of iterations is `c`; when it stopped before LOOPMAX every integer
      vector is kept or costs at least the bound. The places from nn on
      keep their entries. */
  method Explore(p: Problem, m: nat, zn: array2<real>, s: array<real>)
    returns (c: nat, nn: nat, imax: nat, maxdist: real)
    requires p.Valid() && 0 < p.n && 0 < m
    requires zn.Length0 == p.n && zn.Length1 == m && s.Length == m
    modifies zn, s
    ensures c <= LoopMax
    ensures Kept(p, Snapshot(zn), s[..], nn, imax, maxdist) && Distinct(Snapshot(zn), p.n, m, nn)
    ensures Untouched(old(s[..]), old(Snapshot(zn)), s[..], Snapshot(zn), p.n, nn)
    ensures c < LoopMax ==> Complete(p, Snapshot(zn), m, nn, maxdist)
  {
    ghost var s0, Z0 := s[..], Snapshot(zn);
    var S, z, zb, dist, step, t, k, y := Begin(p);
    nn, imax, maxdist := 0, 0, NoBound;
    CoveredStart(p, Snapshot(zn), m, NoBound, z[..], t);
    c := 0;
    while c < LoopMax
      invariant 0 <= c <= LoopMax
      invariant State(p, S, z, zb, dist, step, t, k) && y == zb[k] - z[k]
      invariant Kept(p, Snapshot(zn), s[..], nn, imax, maxdist)
      invariant Untouched(s0, Z0, s[..], Snapshot(zn), p.n, nn)
      invariant Covered(p, Snapshot(zn), m, nn, maxdist, z[..], t, k)
    {
      var stop;
      stop, k, y, t, nn, imax, maxdist := Iterate(p, zn, s, S, z, zb, dist, step, t, k, y, nn, imax, maxdist);
      if stop {
        return;
      }
      c := c + 1;
    }
  }

  /** Lines 292-380: the MLAMBDA search for the m integer vectors of least
      cost. The loop of lines 308-361 descends while the partial cost stays
      below the bound, records each leaf below the bound, and on reaching
      the bound climbs a level and tries the next integer there; it stops
      when the last level reaches the bound (info 0) or after LOOPMAX
      iterations (info -1). The entries are then sorted by cost.

      `kept` is the list of vectors the search kept, with their costs: all
      distinct integer vectors of their own costs, which the sorted entries
      hold together with the entries of places never written. When the
      search ends normally every integer vector is kept or costs at least
      the largest of m kept costs, or at least 1E99 when fewer were kept. */
  method Search(p: Problem, m: nat, zn: array2<real>, s: array<real>)
    returns (info: int, ghost kept: seq<(real, seq<real>)>)
    requires p.Valid() && 0 < p.n && 0 < m
    requires zn.Length0 == p.n && zn.Length1 == m && s.Length == m
    modifies zn, s
    ensures info == 0 || info == -1
    ensures Sorted(s[..])
    ensures |kept| <= m && Candidates(p, kept)
    ensures multiset(Entries(s[..], Snapshot(zn), p.n)) ==
            multiset(kept) + multiset(old(Entries(s[..], Snapshot(zn), p.n))[|kept|..])
    ensures |kept| == m ==> forall c :: 0 <= c < m ==> Found(p, Column(Snapshot(zn), p.n, c), s[c])
    ensures info == 0 ==> Best(p, kept, if |kept| < m then NoBound else s[m - 1])
    ensures Searched(p, m, old(s[..]), old(Snapshot(zn)), s[..], Snapshot(zn), kept, info == 0)
  {
    ghost var s0, Z0 := s[..], Snapshot(zn);
    var c, nn, imax, maxdist := Explore(p, m, zn, s);
    UntouchedEntries(s0, Z0, s[..], Snapshot(zn), p.n, nn);
    kept := Finish(p, zn, s, nn, imax, maxdist);
    info := if c >= LoopMax then -1 else 0;
  }
}
