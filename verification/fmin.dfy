/** Nelder-Mead simplex minimisation, over the reals and for any objective. */
module NelderMead {
  import opened Basics

  type Point = seq<real>

  type Objective = Point -> real

  const RHO := 1.0
  const CHI := 2.0
  const PSI := 0.5
  const SIGMA := 0.5

  // ---------------------------------------------------------------- points

  /** a * x + b * y, component by component. */
  function Mix(a: real, x: Point, b: real, y: Point): (z: Point)
    requires |x| == |y|
    ensures |z| == |x| && forall i | 0 <= i < |z| :: z[i] == a * x[i] + b * y[i]
  {
    seq(|x|, i requires 0 <= i < |x| => a * x[i] + b * y[i])
  }

  function Sum(ps: seq<Point>, n: nat): (z: Point)
    requires forall p | p in ps :: |p| == n
    ensures |z| == n
  {
    if ps == [] then seq(n, _ => 0.0) else Mix(1.0, Sum(ps[..|ps| - 1], n), 1.0, ps[|ps| - 1])
  }

  function Abs(x: real): real {
    if x < 0.0 then -x else x
  }

  // ---------------------------------------------------------------- one move of the simplex

  /** N + 1 vertices in N dimensions. */
  ghost predicate Spans(sim: seq<Point>, n: nat) {
    |sim| == n + 1 && forall p | p in sim :: |p| == n
  }

  /** Vertices that a move can be made from, the last one the worst. */
  ghost predicate IsSimplex(sim: seq<Point>) {
    |sim| >= 2 && Spans(sim, |sim| - 1)
  }

  ghost predicate Sorted(f: Objective, sim: seq<Point>) {
    forall i, j | 0 <= i < j < |sim| :: f(sim[i]) <= f(sim[j])
  }

  /** The centre of all vertices but the worst. */
  function Centre(sim: seq<Point>): (c: Point)
    requires IsSimplex(sim)
    ensures |c| == |sim| - 1
  {
    var n := |sim| - 1;
    var total := Sum(sim[..n], n);
    Mix(1.0 / n as real, total, 0.0, total)
  }

  /** The point on the line from the worst vertex through the centre, t times as far beyond the centre. */
  function Beyond(sim: seq<Point>, t: real): (p: Point)
    requires IsSimplex(sim)
    ensures |p| == |sim| - 1
  {
    Mix(1.0 + t, Centre(sim), -t, sim[|sim| - 1])
  }

  function Shrunk(sim: seq<Point>): (r: seq<Point>)
    requires IsSimplex(sim)
    ensures |r| == |sim| && r[0] == sim[0]
  {
    seq(|sim|, j requires 0 <= j < |sim| =>
      if j == 0 then sim[0] else Mix(1.0, sim[0], SIGMA, Mix(1.0, sim[j], -1.0, sim[0])))
  }

  datatype Move = Replace(p: Point) | Shrink

  /** The points a move evaluates before it is chosen, and the move. */
  function Choose(f: Objective, sim: seq<Point>): (r: (seq<Point>, Move))
    requires IsSimplex(sim)
  {
    var xr := Beyond(sim, RHO);
    if f(xr) < f(sim[0]) then
      var xe := Beyond(sim, RHO * CHI);
      ([xr, xe], Replace(if f(xe) < f(xr) then xe else xr))
    else if f(xr) < f(sim[|sim| - 2]) then ([xr], Replace(xr))
    else if f(xr) < f(sim[|sim| - 1]) then
      var xc := Beyond(sim, PSI * RHO);
      ([xr, xc], if f(xc) <= f(xr) then Replace(xc) else Shrink)
    else
      var xcc := Beyond(sim, -PSI);
      ([xr, xcc], if f(xcc) < f(sim[|sim| - 1]) then Replace(xcc) else Shrink)
  }

  /** The vertices after the move, before they are sorted. */
  function Moved(f: Objective, sim: seq<Point>): (r: seq<Point>)
    requires IsSimplex(sim)
    ensures |r| == |sim|
  {
    match Choose(f, sim).1
    case Replace(p) => sim[|sim| - 1 := p]
    case Shrink => Shrunk(sim)
  }

  /** All the points the move evaluates, in order. */
  function Probes(f: Objective, sim: seq<Point>): seq<Point>
    requires IsSimplex(sim)
  {
    var (tried, move) := Choose(f, sim);
    if move.Shrink? then tried + Shrunk(sim)[1..] else tried
  }

  // ---------------------------------------------------------------- where the tried points lie

  /** The sum of a coordinate over the first n vertices. */
  ghost function Total(sim: seq<Point>, i: nat, n: nat): real
    requires n <= |sim| && forall p | p in sim :: i < |p|
  {
    if n == 0 then 0.0 else Total(sim, i, n - 1) + sim[n - 1][i]
  }

  lemma {:induction false} SumIsTotal(sim: seq<Point>, i: nat, k: nat, n: nat)
    requires k <= |sim| && i < n && forall p | p in sim :: |p| == n
    ensures Sum(sim[..k], n)[i] == Total(sim, i, k)
    decreases k
  {
    if k > 0 {
      assert sim[..k][..k - 1] == sim[..k - 1];
      SumIsTotal(sim, i, k - 1, n);
    }
  }

  lemma Mean(n: real, total: real, c: real)
    requires n > 0.0 && c == 1.0 / n * total + 0.0 * total
    ensures n * c == total
  {
  }

  /** One coordinate: p and t times the worst come to 1 + t times the mean of n numbers with this total. */
  ghost predicate Level(n: real, p: real, worst: real, total: real, t: real) {
    n * (p + t * worst) == (1.0 + t) * total
  }

  /** In every coordinate, p and t times the worst vertex come to 1 + t times the mean of the other vertices. */
  ghost predicate Placed(sim: seq<Point>, p: Point, t: real)
    requires IsSimplex(sim)
  {
    var n := |sim| - 1;
    |p| == n && forall i | 0 <= i < n :: Level(n as real, p[i], sim[n][i], Total(sim, i, n), t)
  }

  /** Every vertex but the first is halfway between where it was and the first. */
  ghost predicate Halved(sim: seq<Point>, r: seq<Point>)
    requires IsSimplex(sim)
  {
    && |r| == |sim| && r[0] == sim[0] && (forall p | p in r :: |p| == |sim| - 1)
    && forall i, j | 0 <= i < |sim| - 1 && 0 < j < |sim| :: 2.0 * r[j][i] == sim[0][i] + sim[j][i]
  }

  ghost predicate IsMean(n: real, mean: real, total: real) {
    n * mean == total
  }

  lemma CentreIsMean(sim: seq<Point>, i: nat)
    requires IsSimplex(sim) && i < |sim| - 1
    ensures var n := |sim| - 1; IsMean(n as real, Centre(sim)[i], Total(sim, i, n))
  {
    var n := |sim| - 1;
    SumIsTotal(sim, i, n, n);
    var total := Sum(sim[..n], n);
    hide Sum;
    Mean(n as real, total[i], Centre(sim)[i]);
  }

  ghost predicate OnLine(p: real, mean: real, worst: real, t: real) {
    p == (1.0 + t) * mean + -t * worst
  }

  lemma LineLevel(n: real, mean: real, total: real, worst: real, t: real, p: real)
    requires IsMean(n, mean, total) && OnLine(p, mean, worst, t)
    ensures Level(n, p, worst, total, t)
  {
    assert p + t * worst == (1.0 + t) * mean;
    assert n * ((1.0 + t) * mean) == (1.0 + t) * (n * mean);
  }

  lemma BeyondOnLine(sim: seq<Point>, t: real, i: nat)
    requires IsSimplex(sim) && i < |sim| - 1
    ensures var n := |sim| - 1; OnLine(Beyond(sim, t)[i], Centre(sim)[i], sim[n][i], t)
  {
    hide Centre;
  }

  lemma BeyondPlaced(sim: seq<Point>, t: real)
    requires IsSimplex(sim)
    ensures Placed(sim, Beyond(sim, t), t)
  {
    hide Beyond, Centre, Total, IsMean, OnLine, Level;
    var n := |sim| - 1;
    forall i | 0 <= i < n ensures Level(n as real, Beyond(sim, t)[i], sim[n][i], Total(sim, i, n), t) {
      CentreIsMean(sim, i);
      BeyondOnLine(sim, t, i);
      LineLevel(n as real, Centre(sim)[i], Total(sim, i, n), sim[n][i], t, Beyond(sim, t)[i]);
    }
  }

  /** The four points a move may try, from the vertices alone, and the vertices after it shrinks. */
  lemma Geometry(sim: seq<Point>)
    requires IsSimplex(sim)
    ensures Placed(sim, Beyond(sim, RHO), 1.0) && Placed(sim, Beyond(sim, RHO * CHI), 2.0)
    ensures Placed(sim, Beyond(sim, PSI * RHO), 0.5) && Placed(sim, Beyond(sim, -PSI), -0.5)
    ensures Halved(sim, Shrunk(sim))
  {
    hide Beyond, Placed;
    BeyondPlaced(sim, RHO);
    BeyondPlaced(sim, RHO * CHI);
    BeyondPlaced(sim, PSI * RHO);
    BeyondPlaced(sim, -PSI);
  }

  lemma OneLevel(n: real, p: real, q: real, worst: real, total: real, t: real)
    requires n > 0.0 && Level(n, p, worst, total, t) && Level(n, q, worst, total, t)
    ensures p == q
  {
    assert n * (p - q) == 0.0;
  }

  lemma OnePlace(sim: seq<Point>, p: Point, q: Point, t: real)
    requires IsSimplex(sim) && Placed(sim, p, t) && Placed(sim, q, t)
    ensures p == q
  {
    var n := |sim| - 1;
    hide Total, Level;
    forall i | 0 <= i < n ensures p[i] == q[i] {
      OneLevel(n as real, p[i], q[i], sim[n][i], Total(sim, i, n), t);
    }
  }

  lemma OneHalving(sim: seq<Point>, r: seq<Point>, s: seq<Point>)
    requires IsSimplex(sim) && Halved(sim, r) && Halved(sim, s)
    ensures r == s
  {
    forall j | 0 <= j < |sim| ensures r[j] == s[j] {
      assert r[j] in r && s[j] in s;
      if j > 0 {
        forall i | 0 <= i < |sim| - 1 ensures r[j][i] == s[j][i] {
          assert 2.0 * r[j][i] == sim[0][i] + sim[j][i] == 2.0 * s[j][i];
        }
      }
    }
  }

  /**
   * A whole move from the vertices alone: which points are tried, in order, and what becomes of the simplex,
   * for the reflected, expanded and contracted points and the halved simplex that the vertices determine.
   */
  lemma TheMove(f: Objective, sim: seq<Point>, xr: Point, xe: Point, xc: Point, xcc: Point, halves: seq<Point>)
    requires IsSimplex(sim)
    requires Placed(sim, xr, 1.0) && Placed(sim, xe, 2.0) && Placed(sim, xc, 0.5) && Placed(sim, xcc, -0.5)
    requires Halved(sim, halves)
    ensures var n := |sim| - 1;
            (Probes(f, sim), Moved(f, sim)) ==
            if f(xr) < f(sim[0]) then ([xr, xe], sim[n := if f(xe) < f(xr) then xe else xr])
            else if f(xr) < f(sim[n - 1]) then ([xr], sim[n := xr])
            else if f(xr) < f(sim[n]) then
              if f(xc) <= f(xr) then ([xr, xc], sim[n := xc]) else ([xr, xc] + halves[1..], halves)
            else if f(xcc) < f(sim[n]) then ([xr, xcc], sim[n := xcc])
            else ([xr, xcc] + halves[1..], halves)
  {
    Geometry(sim);
    hide Placed, Halved, Beyond, Shrunk;
    OnePlace(sim, xr, Beyond(sim, RHO), 1.0);
    OnePlace(sim, xe, Beyond(sim, RHO * CHI), 2.0);
    OnePlace(sim, xc, Beyond(sim, PSI * RHO), 0.5);
    OnePlace(sim, xcc, Beyond(sim, -PSI), -0.5);
    OneHalving(sim, halves, Shrunk(sim));
  }

  // ---------------------------------------------------------------- a move loses nothing

  /** An old vertex is no better than the best one, which stays. */
  lemma VertexNoBetter(f: Objective, sim: seq<Point>, p: Point)
    requires IsSimplex(sim) && Sorted(f, sim) && p in sim
    ensures Moved(f, sim)[0] == sim[0] && f(sim[0]) <= f(p)
  {
    hide Choose, Beyond;
    var i :| 0 <= i < |sim| && sim[i] == p;
    if i > 0 { assert f(sim[0]) <= f(sim[i]); }
  }

  /** A point tried before the move is no better than the best old vertex, or than the one that replaces the worst. */
  lemma TriedNoBetter(f: Objective, sim: seq<Point>, p: Point)
    requires IsSimplex(sim) && Sorted(f, sim) && p in Choose(f, sim).0
    ensures f(sim[0]) <= f(p) || (Choose(f, sim).1.Replace? && f(Choose(f, sim).1.p) <= f(p))
  {
    hide Beyond;
    assert f(sim[0]) <= f(sim[|sim| - 1]);
    assert |sim| > 2 ==> f(sim[0]) <= f(sim[|sim| - 2]);
  }

  /** The vertices after a replacement and after a shrink, by position. */
  lemma MovedAt(f: Objective, sim: seq<Point>, k: nat)
    requires IsSimplex(sim) && k < |sim|
    ensures Choose(f, sim).1.Replace? && k == |sim| - 1 ==> Moved(f, sim)[k] == Choose(f, sim).1.p
    ensures Choose(f, sim).1.Shrink? ==> Moved(f, sim)[k] == Shrunk(sim)[k]
  {
    hide Choose, Shrunk;
  }

  /** No evaluated point and no old vertex beats the best vertex after the move. */
  lemma MovedKeepsBest(f: Objective, sim: seq<Point>, p: Point)
    requires IsSimplex(sim) && Sorted(f, sim) && (p in sim || p in Probes(f, sim))
    ensures exists k :: 0 <= k < |sim| && f(Moved(f, sim)[k]) <= f(p)
  {
    hide Choose, Shrunk, Moved, Sorted;
    VertexNoBetter(f, sim, sim[0]);
    if p in sim {
      VertexNoBetter(f, sim, p);
    } else if p in Choose(f, sim).0 {
      TriedNoBetter(f, sim, p);
      MovedAt(f, sim, |sim| - 1);
    } else {
      var i :| 0 <= i < |sim| - 1 && Shrunk(sim)[1..][i] == p;
      MovedAt(f, sim, i + 1);
    }
  }

  // ---------------------------------------------------------------- sorting the vertices

  ghost predicate IsPermutation(ind: seq<nat>, n: nat) {
    && |ind| == n
    && (forall i | 0 <= i < n :: ind[i] < n)
    && (forall i, j | 0 <= i < j < n :: ind[i] != ind[j])
    && (forall k | 0 <= k < n :: k in ind)
  }

  function Take<T>(s: seq<T>, ind: seq<nat>): (r: seq<T>)
    requires forall i | 0 <= i < |ind| :: ind[i] < |s|
    ensures |r| == |ind|
  {
    seq(|ind|, i requires 0 <= i < |ind| => s[ind[i]])
  }

  ghost predicate InOrder(keys: seq<real>, ind: seq<nat>) {
    && (forall i | 0 <= i < |ind| :: ind[i] < |keys|)
    && forall i, j | 0 <= i < j < |ind| :: keys[ind[i]] <= keys[ind[j]]
  }

  function Inserted(ind: seq<nat>, at: nat): (r: seq<nat>)
    requires at <= |ind|
    ensures |r| == |ind| + 1
    ensures forall i | 0 <= i <= |ind| :: r[i] == if i < at then ind[i] else if i == at then |ind| else ind[i - 1]
  {
    ind[..at] + [|ind|] + ind[at..]
  }

  lemma InsertedPermutes(ind: seq<nat>, at: nat)
    requires IsPermutation(ind, |ind|) && at <= |ind|
    ensures IsPermutation(Inserted(ind, at), |ind| + 1)
  {
    var r := Inserted(ind, at);
    assert r[at] == |ind|;
    hide Inserted;
    forall k | 0 <= k < |ind| ensures k in r {
      assert k in ind;
      var i :| 0 <= i < |ind| && ind[i] == k;
      assert r[if i < at then i else i + 1] == k;
    }
  }

  lemma InsertedInOrder(keys: seq<real>, ind: seq<nat>, at: nat)
    requires |ind| < |keys| && InOrder(keys, ind) && at <= |ind|
    requires forall i | 0 <= i < at :: keys[ind[i]] <= keys[|ind|]
    requires forall i | at <= i < |ind| :: keys[|ind|] <= keys[ind[i]]
    ensures InOrder(keys, Inserted(ind, at))
  {
    var r := Inserted(ind, at);
    hide Inserted;
    forall i, j | 0 <= i < j < |r| ensures keys[r[i]] <= keys[r[j]] {
      assert i < at || i == at || (i > at && r[i] == ind[i - 1]);
    }
  }

  method ArgSort(keys: seq<real>) returns (ind: seq<nat>)
    ensures IsPermutation(ind, |keys|) && InOrder(keys, ind)
  {
    ind := [];
    for n := 0 to |keys|
      invariant IsPermutation(ind, n) && InOrder(keys, ind)
    {
      var at := 0;
      while at < n && keys[ind[at]] <= keys[n]
        invariant at <= n && forall i | 0 <= i < at :: keys[ind[i]] <= keys[n]
      {
        at := at + 1;
      }
      assert forall i | at < i < n :: keys[ind[at]] <= keys[ind[i]];
      InsertedPermutes(ind, at);
      InsertedInOrder(keys, ind, at);
      ind := Inserted(ind, at);
    }
  }

  ghost predicate Evaluated(f: Objective, sim: seq<Point>, fsim: seq<real>) {
    |fsim| == |sim| && forall i | 0 <= i < |sim| :: fsim[i] == f(sim[i])
  }

  /** The vertices are r in some order, sorted by value. */
  ghost predicate IsSorting(f: Objective, sim: seq<Point>, r: seq<Point>) {
    && Sorted(f, sim) && |sim| == |r|
    && exists ind :: IsPermutation(ind, |r|) && forall i | 0 <= i < |r| :: sim[i] == r[ind[i]]
  }

  ghost predicate SortedFrom(f: Objective, sim: seq<Point>, fsim: seq<real>, r: seq<Point>) {
    Evaluated(f, sim, fsim) && IsSorting(f, sim, r)
  }

  method SortVertices(f: Objective, r: seq<Point>, fr: seq<real>) returns (sim: seq<Point>, fsim: seq<real>)
    requires Evaluated(f, r, fr)
    ensures SortedFrom(f, sim, fsim, r)
  {
    var ind := ArgSort(fr);
    sim, fsim := Take(r, ind), Take(fr, ind);
    assert forall i | 0 <= i < |r| :: sim[i] == r[ind[i]];
  }

  predicate Converged(sim: seq<Point>, fsim: seq<real>, xtol: real, ftol: real)
    requires |fsim| == |sim| > 0 && Spans(sim, |sim| - 1)
  {
    && (forall i, k | 0 < i < |sim| && 0 <= k < |sim| - 1 :: Abs(sim[i][k] - sim[0][k]) <= xtol)
    && (forall i | 0 < i < |sim| :: Abs(fsim[0] - fsim[i]) <= ftol)
  }

  function Minimum(s: seq<real>): (m: real)
    requires s != []
    ensures m in s && forall i | 0 <= i < |s| :: m <= s[i]
  {
    if |s| == 1 then s[0]
    else
      var m := Minimum(s[..|s| - 1]);
      var last := s[|s| - 1];
      if last < m then last else m
  }

  /** The vertices have all been evaluated, and the first is as good as any point ever evaluated. */
  ghost predicate BestSoFar(f: Objective, sim: seq<Point>, history: seq<Point>) {
    && sim != [] && (forall p | p in sim :: p in history)
    && forall h | h in history :: f(sim[0]) <= f(h)
  }

  lemma FirstIsBest(f: Objective, sim: seq<Point>, r: seq<Point>, k: nat)
    requires IsSorting(f, sim, r) && k < |r|
    ensures f(sim[0]) <= f(r[k])
  {
    var ind :| IsPermutation(ind, |r|) && forall i | 0 <= i < |r| :: sim[i] == r[ind[i]];
    assert k in ind;
    var i :| 0 <= i < |ind| && ind[i] == k;
    assert sim[i] == r[k];
  }

  lemma SortedMembers(f: Objective, sim: seq<Point>, r: seq<Point>)
    requires IsSorting(f, sim, r)
    ensures |sim| == |r| && (forall p | p in sim :: p in r) && Sorted(f, sim)
  {
  }

  lemma MovedMembers(f: Objective, sim: seq<Point>)
    requires IsSimplex(sim)
    ensures forall p | p in Moved(f, sim) :: |p| == |sim| - 1 && (p in sim || p in Probes(f, sim))
  {
    hide Beyond;
    var n := |sim| - 1;
    var move := Choose(f, sim).1;
    forall p | p in Moved(f, sim) ensures |p| == n && (p in sim || p in Probes(f, sim)) {
      var i :| 0 <= i <= n && Moved(f, sim)[i] == p;
      if move.Shrink? && i > 0 {
        assert Shrunk(sim)[1..][i - 1] == p;
      }
    }
  }

  lemma MoveKeepsBestSoFar(f: Objective, sim0: seq<Point>, sim: seq<Point>, history: seq<Point>)
    requires IsSimplex(sim0) && Sorted(f, sim0) && BestSoFar(f, sim0, history)
    requires IsSorting(f, sim, Moved(f, sim0))
    ensures IsSimplex(sim) && |sim| == |sim0| && Sorted(f, sim) && BestSoFar(f, sim, history + Probes(f, sim0))
  {
    var r := Moved(f, sim0);
    SortedMembers(f, sim, r);
    MovedMembers(f, sim0);
    hide IsSorting, Moved, Probes, Sorted;
    forall h | h in history + Probes(f, sim0) ensures f(sim[0]) <= f(h) {
      var p := if h in Probes(f, sim0) then h else sim0[0];
      MovedKeepsBest(f, sim0, p);
      var k :| 0 <= k < |sim0| && f(r[k]) <= f(p);
      FirstIsBest(f, sim, r, k);
    }
  }

  lemma SortedIsBest(f: Objective, sim: seq<Point>, history: seq<Point>)
    requires IsSorting(f, sim, history) && history != []
    ensures BestSoFar(f, sim, history)
  {
    SortedMembers(f, sim, history);
    hide IsSorting;
    forall h | h in history ensures f(sim[0]) <= f(h) {
      var i :| 0 <= i < |history| && history[i] == h;
      FirstIsBest(f, sim, history, i);
    }
  }

  lemma BestIsMinimum(f: Objective, sim: seq<Point>, fsim: seq<real>)
    requires Evaluated(f, sim, fsim) && Sorted(f, sim) && sim != []
    ensures Minimum(fsim) == f(sim[0])
  {
    hide Minimum;
    var i :| 0 <= i < |fsim| && fsim[i] == Minimum(fsim);
    assert fsim[0] == f(sim[0]) <= f(sim[i]);
  }

  /** The start and, for each dimension, the start moved along that axis by 5%, or off zero. */
  function Start(x0: Point): (sim: seq<Point>)
    ensures |sim| == |x0| + 1 && sim[0] == x0 && forall p | p in sim :: |p| == |x0|
  {
    seq(|x0| + 1, k requires 0 <= k <= |x0| =>
      if k == 0 then x0 else x0[k - 1 := if x0[k - 1] != 0.0 then 1.05 * x0[k - 1] else 0.00025])
  }

  // ---------------------------------------------------------------- whole runs

  /** The simplexes of a run, turn by turn: the start, then one move after the other, each with its vertices sorted. */
  ghost predicate IsRun(f: Objective, x0: Point, sims: seq<seq<Point>>)
    decreases |sims|
  {
    if |sims| <= 1 then sims != [] && IsSorting(f, sims[0], Start(x0))
    else
      var prev := sims[|sims| - 2];
      IsRun(f, x0, sims[..|sims| - 1]) && IsSimplex(prev) && IsSorting(f, sims[|sims| - 1], Moved(f, prev))
  }

  /** The points a run evaluates, in order. */
  ghost function Evaluations(f: Objective, x0: Point, sims: seq<seq<Point>>): seq<Point>
    requires IsRun(f, x0, sims)
    decreases |sims|
  {
    if |sims| == 1 then Start(x0)
    else Evaluations(f, x0, sims[..|sims| - 1]) + Probes(f, sims[|sims| - 2])
  }

  lemma OneMoreMove(f: Objective, x0: Point, sims: seq<seq<Point>>, next: seq<Point>)
    requires IsRun(f, x0, sims) && IsSimplex(sims[|sims| - 1]) && IsSorting(f, next, Moved(f, sims[|sims| - 1]))
    ensures IsRun(f, x0, sims + [next])
    ensures Evaluations(f, x0, sims + [next]) == Evaluations(f, x0, sims) + Probes(f, sims[|sims| - 1])
  {
    hide Start, Moved, Probes, IsSorting, IsSimplex;
    assert (sims + [next])[..|sims|] == sims;
  }

  /**
   * At every turn of a run the simplex has N + 1 vertices, sorted by value, and its first vertex is as good
   * as every point ever evaluated.
   */
  lemma {:induction false} RunKeepsBest(f: Objective, x0: Point, sims: seq<seq<Point>>)
    requires IsRun(f, x0, sims)
    ensures var sim := sims[|sims| - 1];
            && Spans(sim, |x0|) && Sorted(f, sim)
            && BestSoFar(f, sim, Evaluations(f, x0, sims))
    decreases |sims|
  {
    hide Start, Moved, Probes, IsSorting, BestSoFar, Sorted;
    if |sims| == 1 {
      SortedMembers(f, sims[0], Start(x0));
      SortedIsBest(f, sims[0], Start(x0));
    } else {
      var before := sims[..|sims| - 1];
      RunKeepsBest(f, x0, before);
      MoveKeepsBestSoFar(f, sims[|sims| - 2], sims[|sims| - 1], Evaluations(f, x0, before));
    }
  }

  /** The best vertex is within the tolerances of all others, in every coordinate and in value. */
  ghost predicate Within(f: Objective, sim: seq<Point>, xtol: real, ftol: real) {
    && sim != [] && Spans(sim, |sim| - 1)
    && (forall i, k | 0 < i < |sim| && 0 <= k < |sim| - 1 :: -xtol <= sim[i][k] - sim[0][k] <= xtol)
    && (forall i | 0 < i < |sim| :: -ftol <= f(sim[0]) - f(sim[i]) <= ftol)
  }

  lemma ConvergedIsWithin(f: Objective, sim: seq<Point>, fsim: seq<real>, xtol: real, ftol: real)
    requires sim != [] && Spans(sim, |sim| - 1) && Evaluated(f, sim, fsim)
    ensures Converged(sim, fsim, xtol, ftol) <==> Within(f, sim, xtol, ftol)
  {
  }

  /** After this run another turn is due: no limit is reached, and the tolerances are not met. */
  ghost predicate IsDue(f: Objective, x0: Point, sims: seq<seq<Point>>,
                        xtol: real, ftol: real, maxiter: int, maxfun: int)
  {
    && IsRun(f, x0, sims) && |sims| < maxiter && |Evaluations(f, x0, sims)| < maxfun
    && !Within(f, sims[|sims| - 1], xtol, ftol)
  }

  /** With no dimensions at all the loop is never entered. */
  lemma LoopNeedsDimensions(x0: Point, maxiter: Option<int>, maxfun: Option<int>)
    requires x0 != [] || maxfun.None? || maxfun.value <= 1 || maxiter.None? || maxiter.value <= 1
    ensures |x0| > 0 || maxfun.GetOr(200 * |x0|) <= 1 || maxiter.GetOr(200 * |x0|) <= 1
  {
  }

  /** Every turn of the run was due when it was made. */
  ghost predicate AllDue(f: Objective, x0: Point, sims: seq<seq<Point>>,
                         xtol: real, ftol: real, maxiter: int, maxfun: int)
  {
    forall i | 0 < i < |sims| :: IsDue(f, x0, sims[..i], xtol, ftol, maxiter, maxfun)
  }

  lemma TurnIsDue(f: Objective, x0: Point, sims: seq<seq<Point>>, xtol: real, ftol: real, maxiter: int, maxfun: int)
    requires IsRun(f, x0, sims) && |sims| < maxiter && |Evaluations(f, x0, sims)| < maxfun
    requires !Within(f, sims[|sims| - 1], xtol, ftol)
    ensures IsDue(f, x0, sims, xtol, ftol, maxiter, maxfun)
  {
  }

  lemma NoneDueYet(f: Objective, x0: Point, sim: seq<Point>, xtol: real, ftol: real, maxiter: int, maxfun: int)
    ensures AllDue(f, x0, [sim], xtol, ftol, maxiter, maxfun)
  {
  }

  lemma OneMoreDue(f: Objective, x0: Point, sims: seq<seq<Point>>, next: seq<Point>,
                   xtol: real, ftol: real, maxiter: int, maxfun: int)
    requires AllDue(f, x0, sims, xtol, ftol, maxiter, maxfun) && IsDue(f, x0, sims, xtol, ftol, maxiter, maxfun)
    ensures AllDue(f, x0, sims + [next], xtol, ftol, maxiter, maxfun)
  {
    hide IsDue;
    var all := sims + [next];
    forall i | 0 < i < |all| ensures IsDue(f, x0, all[..i], xtol, ftol, maxiter, maxfun) {
      assert all[..i] == if i < |sims| then sims[..i] else sims;
    }
  }

  lemma IsSimplexOf(sim: seq<Point>, n: nat)
    requires Spans(sim, n) && n > 0
    ensures IsSimplex(sim)
  {
  }

  lemma RunStarts(f: Objective, x0: Point, sim: seq<Point>, fsim: seq<real>,
                  xtol: real, ftol: real, maxiter: int, maxfun: int)
    requires SortedFrom(f, sim, fsim, Start(x0))
    ensures IsRun(f, x0, [sim]) && Evaluations(f, x0, [sim]) == Start(x0) && |Start(x0)| == |x0| + 1
    ensures Spans(sim, |x0|) && |fsim| == |sim| == |x0| + 1 && Evaluated(f, sim, fsim)
    ensures AllDue(f, x0, [sim], xtol, ftol, maxiter, maxfun)
  {
    hide IsSorting, Start;
    RunKeepsBest(f, x0, [sim]);
    NoneDueYet(f, x0, sim, xtol, ftol, maxiter, maxfun);
  }

  lemma RunGoesOn(f: Objective, x0: Point, sims: seq<seq<Point>>, sim: seq<Point>, fsim: seq<real>,
                  xtol: real, ftol: real, maxiter: int, maxfun: int)
    requires AllDue(f, x0, sims, xtol, ftol, maxiter, maxfun) && IsDue(f, x0, sims, xtol, ftol, maxiter, maxfun)
    requires IsRun(f, x0, sims) && IsSimplex(sims[|sims| - 1])
    requires SortedFrom(f, sim, fsim, Moved(f, sims[|sims| - 1]))
    ensures IsRun(f, x0, sims + [sim]) && AllDue(f, x0, sims + [sim], xtol, ftol, maxiter, maxfun)
    ensures Evaluations(f, x0, sims + [sim]) == Evaluations(f, x0, sims) + Probes(f, sims[|sims| - 1])
    ensures Spans(sim, |x0|) && |fsim| == |sim| == |x0| + 1 && Evaluated(f, sim, fsim)
  {
    hide IsSorting, IsRun, IsDue, AllDue, Evaluations, Moved, Probes;
    OneMoreMove(f, x0, sims, sim);
    RunKeepsBest(f, x0, sims + [sim]);
    OneMoreDue(f, x0, sims, sim, xtol, ftol, maxiter, maxfun);
  }

  lemma RunEnds(f: Objective, x0: Point, sims: seq<seq<Point>>, fsim: seq<real>)
    requires IsRun(f, x0, sims) && Evaluated(f, sims[|sims| - 1], fsim)
    ensures var sim, all := sims[|sims| - 1], Evaluations(f, x0, sims);
            && |sim| == |x0| + 1 && fsim != [] && Minimum(fsim) == f(sim[0])
            && sim[0] in all && forall p | p in all :: f(sim[0]) <= f(p)
  {
    RunKeepsBest(f, x0, sims);
    hide IsRun, Evaluations, Sorted;
    BestIsMinimum(f, sims[|sims| - 1], fsim);
  }

  // ---------------------------------------------------------------- the minimiser

  /** The function to minimise. It logs the points it is called on. */
  class Evaluator {
    const f: Objective
    ghost var calls: seq<Point>

    constructor (f: Objective)
      ensures this.f == f && calls == []
    {
      this.f, calls := f, [];
    }

    method Eval(x: Point) returns (y: real)
      modifies this
      ensures y == f(x) && calls == old(calls) + [x]
    {
      y := f(x);
      calls := calls + [x];
    }
  }

  lemma EvaluatedAt(f: Objective, sim: seq<Point>, fsim: seq<real>, n: nat, x: Point)
    requires Evaluated(f, sim, fsim) && n < |sim|
    ensures |fsim| == |sim| && Evaluated(f, sim[n := x], fsim[n := f(x)])
  {
  }

  lemma ShrunkVertex(sim0: seq<Point>, j: nat)
    requires IsSimplex(sim0) && 0 < j < |sim0|
    ensures var target := Shrunk(sim0);
            var sim := target[..j] + sim0[j..];
            && |sim[0]| == |sim[j]|
            && Mix(1.0, sim[0], SIGMA, Mix(1.0, sim[j], -1.0, sim[0])) == target[j]
            && sim[j := target[j]] == target[..j + 1] + sim0[j + 1..]
  {
    var target := Shrunk(sim0);
    var sim := target[..j] + sim0[j..];
    assert sim[0] == sim0[0] && sim[j] == sim0[j];
  }

  lemma ShrunkParts(sim0: seq<Point>, log: seq<Point>)
    requires IsSimplex(sim0)
    ensures var target, n := Shrunk(sim0), |sim0|;
            && |target| == n > 0
            && log + target[1..1] == log && sim0 == target[..1] + sim0[1..]
            && target[1..n] == target[1..] && target[..n] + sim0[n..] == target
  {
  }

  lemma LogOneMore(log: seq<Point>, target: seq<Point>, j: nat)
    requires 0 < j < |target|
    ensures log + target[1..j] + [target[j]] == log + target[1..j + 1]
  {
    assert target[1..j] + [target[j]] == target[1..j + 1];
  }

  /** Pulls every vertex but the best halfway to the best and evaluates it again. */
  method ShrinkSimplex(func: Evaluator, sim0: seq<Point>, fsim0: seq<real>) returns (sim: seq<Point>, fsim: seq<real>)
    requires IsSimplex(sim0) && Evaluated(func.f, sim0, fsim0)
    modifies func
    ensures sim == Shrunk(sim0) && Evaluated(func.f, sim, fsim)
    ensures func.calls == old(func.calls) + Shrunk(sim0)[1..]
  {
    hide *;
    sim, fsim := sim0, fsim0;
    ghost var log, target := func.calls, Shrunk(sim0);
    ShrunkParts(sim0, log);
    for j := 1 to |sim0|
      invariant |sim| == |target| == |sim0| && sim == target[..j] + sim0[j..]
      invariant Evaluated(func.f, sim, fsim) && func.calls == log + target[1..j]
    {
      ShrunkVertex(sim0, j);
      var vertex := Mix(1.0, sim[0], SIGMA, Mix(1.0, sim[j], -1.0, sim[0]));
      var value := func.Eval(vertex);
      EvaluatedAt(func.f, sim, fsim, j, vertex);
      LogOneMore(log, target, j);
      sim, fsim := sim[j := vertex], fsim[j := value];
    }
  }

  /** The choices once the reflected point is no better than the best two vertices. */
  lemma Contraction(f: Objective, sim: seq<Point>)
    requires IsSimplex(sim) && f(Beyond(sim, RHO)) >= f(sim[0]) && f(Beyond(sim, RHO)) >= f(sim[|sim| - 2])
    ensures var n, fxr := |sim| - 1, f(Beyond(sim, RHO));
            var trial := Beyond(sim, if fxr < f(sim[n]) then PSI * RHO else -PSI);
            var shrinks := if fxr < f(sim[n]) then f(trial) > fxr else f(trial) >= f(sim[n]);
            && Moved(f, sim) == (if shrinks then Shrunk(sim) else sim[n := trial])
            && |Probes(f, sim)| == (if shrinks then 2 + n else 2)
            && Probes(f, sim)[1..] == (if shrinks then [trial] + Shrunk(sim)[1..] else [trial])
            && |Shrunk(sim)| == n + 1
  {
    hide Beyond, Shrunk;
    var n, xr := |sim| - 1, Beyond(sim, RHO);
    var trial := Beyond(sim, if f(xr) < f(sim[n]) then PSI * RHO else -PSI);
    assert Choose(f, sim).0 == [xr, trial];
    assert [xr, trial][1..] == [trial] && ([xr, trial] + Shrunk(sim)[1..])[1..] == [trial] + Shrunk(sim)[1..];
  }

  /** Contracts towards the better of the reflected and the worst vertex, or shrinks if that does not help. */
  method Contract(func: Evaluator, sim0: seq<Point>, fsim0: seq<real>, fxr: real)
    returns (sim: seq<Point>, fsim: seq<real>, calls: nat)
    requires IsSimplex(sim0) && Evaluated(func.f, sim0, fsim0) && fxr == func.f(Beyond(sim0, RHO))
    requires fxr >= fsim0[0] && fxr >= fsim0[|sim0| - 2]
    modifies func
    ensures sim == Moved(func.f, sim0) && Evaluated(func.f, sim, fsim)
    ensures calls + 1 == |Probes(func.f, sim0)| <= |sim0| + 1
    ensures func.calls == old(func.calls) + Probes(func.f, sim0)[1..]
  {
    Contraction(func.f, sim0);
    sim, fsim := sim0, fsim0;
    var n := |sim| - 1;
    assert fsim[n] == func.f(sim[n]);
    hide *;
    var doshrink := false;
    calls := 1;
    ghost var log, trial := func.calls, Beyond(sim, if fxr < fsim[n] then PSI * RHO else -PSI);
    if fxr < fsim[n] {
      var xc := Beyond(sim, PSI * RHO);
      var fxc := func.Eval(xc);
      if fxc <= fxr {
        EvaluatedAt(func.f, sim, fsim, n, xc);
        sim, fsim := sim[n := xc], fsim[n := fxc];
      } else {
        doshrink := true;
      }
    } else {
      var xcc := Beyond(sim, -PSI);
      var fxcc := func.Eval(xcc);
      if fxcc < fsim[n] {
        EvaluatedAt(func.f, sim, fsim, n, xcc);
        sim, fsim := sim[n := xcc], fsim[n := fxcc];
      } else {
        doshrink := true;
      }
    }
    if doshrink {
      sim, fsim := ShrinkSimplex(func, sim, fsim);
      calls := calls + n;
      AppendTwice(log, [trial], Shrunk(sim0)[1..]);
    }
  }

  /** The choices for a reflected point that is better than the second worst vertex, and its place for all others. */
  lemma Reflection(f: Objective, sim: seq<Point>)
    requires IsSimplex(sim)
    ensures var n, xr, xe := |sim| - 1, Beyond(sim, RHO), Beyond(sim, RHO * CHI);
            if f(xr) < f(sim[0]) then
              Probes(f, sim) == [xr, xe] && Moved(f, sim) == sim[n := if f(xe) < f(xr) then xe else xr]
            else if f(xr) < f(sim[n - 1]) then Probes(f, sim) == [xr] && Moved(f, sim) == sim[n := xr]
            else Probes(f, sim) != [] && Probes(f, sim) == [xr] + Probes(f, sim)[1..]
  {
    hide Beyond, Shrunk;
  }

  /** Reflects, expands, contracts or shrinks. The cached values stand for the objective, so it is exactly one move. */
  method MoveSimplex(func: Evaluator, sim0: seq<Point>, fsim0: seq<real>)
    returns (sim: seq<Point>, fsim: seq<real>, calls: nat)
    requires IsSimplex(sim0) && Evaluated(func.f, sim0, fsim0)
    modifies func
    ensures sim == Moved(func.f, sim0) && Evaluated(func.f, sim, fsim)
    ensures calls == |Probes(func.f, sim0)| <= |sim0| + 1
    ensures func.calls == old(func.calls) + Probes(func.f, sim0)
  {
    Reflection(func.f, sim0);
    sim, fsim := sim0, fsim0;
    var n := |sim| - 1;
    assert fsim[0] == func.f(sim[0]) && fsim[n - 1] == func.f(sim[n - 1]);
    hide *;
    ghost var log := func.calls;
    var xr := Beyond(sim, RHO);
    var fxr := func.Eval(xr);
    calls := 1;
    if fxr < fsim[0] {
      var xe := Beyond(sim, RHO * CHI);
      var fxe := func.Eval(xe);
      calls := calls + 1;
      AppendTwice(log, [xr], [xe]);
      assert [xr] + [xe] == [xr, xe];
      EvaluatedAt(func.f, sim, fsim, n, xe);
      EvaluatedAt(func.f, sim, fsim, n, xr);
      if fxe < fxr {
        sim, fsim := sim[n := xe], fsim[n := fxe];
      } else {
        sim, fsim := sim[n := xr], fsim[n := fxr];
      }
    } else if fxr < fsim[n - 1] {
      EvaluatedAt(func.f, sim, fsim, n, xr);
      sim, fsim := sim[n := xr], fsim[n := fxr];
    } else {
      var more;
      ghost var probes := Probes(func.f, sim0);
      sim, fsim, more := Contract(func, sim, fsim, fxr);
      calls := calls + more;
      AppendTwice(log, [xr], probes[1..]);
    }
  }

  /** One turn of the loop: a move, and the vertices in order again. */
  method Iterate(func: Evaluator, sim0: seq<Point>, fsim0: seq<real>)
    returns (sim: seq<Point>, fsim: seq<real>, calls: nat)
    requires IsSimplex(sim0) && Evaluated(func.f, sim0, fsim0)
    modifies func
    ensures SortedFrom(func.f, sim, fsim, Moved(func.f, sim0))
    ensures calls == |Probes(func.f, sim0)| <= |sim0| + 1
    ensures func.calls == old(func.calls) + Probes(func.f, sim0)
  {
    hide *;
    sim, fsim, calls := MoveSimplex(func, sim0, fsim0);
    sim, fsim := SortVertices(func.f, sim, fsim);
  }

  lemma EvaluatedAppend(f: Objective, sim: seq<Point>, fsim: seq<real>, x: Point)
    requires Evaluated(f, sim, fsim)
    ensures Evaluated(f, sim + [x], fsim + [f(x)])
  {
  }

  lemma StartVertex(x0: Point, k: nat)
    requires k < |x0|
    ensures (if x0[k] != 0.0 then x0[k := 1.05 * x0[k]] else x0[k := 0.00025]) == Start(x0)[k + 1]
    ensures Start(x0)[..k + 1] + [Start(x0)[k + 1]] == Start(x0)[..k + 2]
  {
  }

  method StartSimplex(func: Evaluator, x0: Point) returns (sim: seq<Point>, fsim: seq<real>)
    modifies func
    ensures SortedFrom(func.f, sim, fsim, Start(x0)) && func.calls == old(func.calls) + Start(x0)
  {
    var value := func.Eval(x0);
    sim, fsim := [x0], [value];
    ghost var log, target := old(func.calls), Start(x0);
    assert target[..1] == [x0] && target[..|x0| + 1] == target && Evaluated(func.f, sim, fsim);
    hide *;
    for k := 0 to |x0|
      invariant sim == target[..k + 1] && Evaluated(func.f, sim, fsim) && func.calls == log + sim
    {
      StartVertex(x0, k);
      var y := if x0[k] != 0.0 then x0[k := 1.05 * x0[k]] else x0[k := 0.00025];
      value := func.Eval(y);
      AppendTwice(log, sim, [y]);
      EvaluatedAppend(func.f, sim, fsim, y);
      sim, fsim := sim + [y], fsim + [value];
    }
    sim, fsim := SortVertices(func.f, sim, fsim);
  }

  /** The loop: it makes moves as long as no limit is reached and the tolerances are not met. */
  method MakeMoves(func: Evaluator, x0: Point, sim0: seq<Point>, fsim0: seq<real>, xtol: real, ftol: real,
                   maxiter: int, maxfun: int, ghost log: seq<Point>)
    returns (sim: seq<Point>, fsim: seq<real>, funcalls: nat, iterations: nat, ghost sims: seq<seq<Point>>)
    requires SortedFrom(func.f, sim0, fsim0, Start(x0)) && func.calls == log + Start(x0)
    requires |x0| > 0 || maxfun <= 1 || maxiter <= 1
    modifies func
    ensures IsRun(func.f, x0, sims) && iterations == |sims| && sims[|sims| - 1] == sim && Evaluated(func.f, sim, fsim)
    ensures func.calls == log + Evaluations(func.f, x0, sims) && funcalls == |Evaluations(func.f, x0, sims)|
    ensures AllDue(func.f, x0, sims, xtol, ftol, maxiter, maxfun)
    ensures funcalls >= maxfun || iterations >= maxiter || Within(func.f, sim, xtol, ftol)
    ensures funcalls == |x0| + 1 || funcalls < maxfun + |x0| + 2
  {
    hide *;
    ghost var f := func.f;
    var n := |x0|;
    sim, fsim, sims := sim0, fsim0, [sim0];
    RunStarts(f, x0, sim, fsim, xtol, ftol, maxiter, maxfun);
    iterations, funcalls := 1, n + 1;
    while funcalls < maxfun && iterations < maxiter
      invariant IsRun(f, x0, sims) && iterations == |sims| && sims[|sims| - 1] == sim
      invariant Spans(sim, n) && |fsim| == |sim| == n + 1 && Evaluated(f, sim, fsim)
      invariant func.calls == log + Evaluations(f, x0, sims) && funcalls == |Evaluations(f, x0, sims)|
      invariant AllDue(f, x0, sims, xtol, ftol, maxiter, maxfun)
      invariant n + 1 <= funcalls && iterations >= 1 && (funcalls == n + 1 || funcalls < maxfun + n + 2)
      decreases maxiter - iterations
    {
      ConvergedIsWithin(f, sim, fsim, xtol, ftol);
      if Converged(sim, fsim, xtol, ftol) { break; }
      ghost var prev := sim;
      IsSimplexOf(sim, n);
      TurnIsDue(f, x0, sims, xtol, ftol, maxiter, maxfun);
      var calls;
      sim, fsim, calls := Iterate(func, sim, fsim);
      RunGoesOn(f, x0, sims, sim, fsim, xtol, ftol, maxiter, maxfun);
      AppendTwice(log, Evaluations(f, x0, sims), Probes(f, prev));
      sims := sims + [sim];
      funcalls, iterations := funcalls + calls, iterations + 1;
    }
  }

  /**
   * Makes a run of moves, each one due, until none is due any more, and returns its best point. The calls of
   * the function are exactly the evaluations of that run, and funcalls is their number.
   */
  method Fmin(func: Evaluator, x0: Point, xtol: real, ftol: real, maxiter: Option<int>, maxfun: Option<int>)
    returns (x: Point, fval: real, warnflag: nat, funcalls: nat, iterations: nat, ghost sims: seq<seq<Point>>)
    requires x0 != [] || maxfun.None? || maxfun.value <= 1 || maxiter.None? || maxiter.value <= 1
    modifies func
    ensures IsRun(func.f, x0, sims) && iterations == |sims|
    ensures func.calls == old(func.calls) + Evaluations(func.f, x0, sims)
    ensures funcalls == |Evaluations(func.f, x0, sims)|
    ensures var sim := sims[|sims| - 1]; |sim| == |x0| + 1 && x == sim[0] && fval == func.f(x)
    ensures x in Evaluations(func.f, x0, sims) && forall p | p in Evaluations(func.f, x0, sims) :: fval <= func.f(p)
    ensures AllDue(func.f, x0, sims, xtol, ftol, maxiter.GetOr(200 * |x0|), maxfun.GetOr(200 * |x0|))
    ensures funcalls == |x0| + 1 || funcalls < maxfun.GetOr(200 * |x0|) + |x0| + 2
    ensures warnflag == 1 <==> funcalls >= maxfun.GetOr(200 * |x0|)
    ensures warnflag == 2 <==> funcalls < maxfun.GetOr(200 * |x0|) && iterations >= maxiter.GetOr(200 * |x0|)
    ensures warnflag == 0 ==> Within(func.f, sims[|sims| - 1], xtol, ftol)
  {
    LoopNeedsDimensions(x0, maxiter, maxfun);
    hide *;
    var sim, fsim;
    sim, fsim := StartSimplex(func, x0);
    var iterLimit, callLimit := maxiter.GetOr(200 * |x0|), maxfun.GetOr(200 * |x0|);
    sim, fsim, funcalls, iterations, sims :=
      MakeMoves(func, x0, sim, fsim, xtol, ftol, iterLimit, callLimit, old(func.calls));
    RunEnds(func.f, x0, sims, fsim);
    x, fval := sim[0], Minimum(fsim);
    warnflag := if funcalls >= callLimit then 1 else if iterations >= iterLimit then 2 else 0;
  }
}
