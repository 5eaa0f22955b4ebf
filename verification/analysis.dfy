/** Per-coordinate characterisation of traced features: custom sampled
    fields, breadth across a given edge mask, and cumulative length. */
module Analysis {
  import opened Base
  import opened Seqs
  import opened Geometry
  import opened Features

  /** A numpy image `img[row, col]`. */
  type Image = seq<seq<real>>

  /** The edge mask of the frame: `true` where the edge detector fired. */
  type EdgeMask = seq<seq<bool>>

  /** `g[r, c]` on a 2-d numpy array: each axis indexed with Python's
      semantics, `None` standing for IndexError. */
  function At<T>(g: seq<seq<T>>, r: int, c: int): Option<T>
  {
    match PyGet(g, r)
    case None => None
    case Some(row) => PyGet(row, c)
  }

  /** The pixel `(row, col) = (round(y), round(x))` a coordinate falls on. */
  function Pixel(p: Point): (int, int)
  {
    (RoundHalfEven(p.y), RoundHalfEven(p.x))
  }

  // ---------------------------------------------------------------------
  // Custom fields

  /** Every custom image has a pixel under `p`. */
  predicate Covers(layers: map<string, Image>, p: Point)
  {
    forall n :: n in layers ==> At(layers[n], Pixel(p).0, Pixel(p).1).Some?
  }

  /** The custom values sampled under `p`, one per custom name. */
  function Samples(layers: map<string, Image>, p: Point): map<string, real>
    requires Covers(layers, p)
  {
    map n | n in layers :: At(layers[n], Pixel(p).0, Pixel(p).1).value
  }

  /** Re-tag one coordinate dictionary: assign every custom name its sampled
      value, then drop every key that is neither `'coord'` nor a custom name.
      A pixel outside some image raises IndexError. */
  function Retag(c: Coord, layers: map<string, Image>): (r: Result<Coord>)
    ensures r.Ok? <==> Covers(layers, c.coord)
    ensures r.Ok? ==> r.value.coord == c.coord
    ensures r.Ok? ==> r.value.fields.Keys == layers.Keys
    ensures r.Ok? ==> forall n :: n in layers ==>
              Some(r.value.fields[n]) == At(layers[n], Pixel(c.coord).0, Pixel(c.coord).1)
  {
    if !Covers(layers, c.coord) then Fail(IndexError)
    else
      var updated := c.fields + Samples(layers, c.coord);
      Ok(Coord(c.coord, map k | k in updated && k in layers :: updated[k]))
  }

  /** Re-tag a feature's coordinates in order; the first uncovered pixel
      raises IndexError (the only exception the loop can raise). */
  function RetagAll(cs: seq<Coord>, layers: map<string, Image>): (r: Result<seq<Coord>>)
    ensures r.Ok? <==> forall j :: 0 <= j < |cs| ==> Covers(layers, cs[j].coord)
    ensures r.Fail? ==> r.error == IndexError
    ensures r.Ok? ==> |r.value| == |cs|
    ensures r.Ok? ==> forall j :: 0 <= j < |cs| ==> Retag(cs[j], layers) == Ok(r.value[j])
  {
    if forall j :: 0 <= j < |cs| ==> Covers(layers, cs[j].coord) then
      Ok(seq(|cs|, j requires 0 <= j < |cs| => Retag(cs[j], layers).value))
    else Fail(IndexError)
  }

  /** Every custom image covers every coordinate of `m`. */
  predicate CoversAll(layers: map<string, Image>, m: FeatureMap)
  {
    forall i, j :: 0 <= i < |m| && 0 <= j < |m[i].coords| ==> Covers(layers, m[i].coords[j].coord)
  }

  /** `analyze_cust`: every coordinate of every feature is re-tagged; the first
      pixel outside a custom image aborts the whole pass with IndexError. */
  function AnalyzeCust(m: FeatureMap, layers: map<string, Image>): (r: Result<FeatureMap>)
    ensures r.Ok? <==> CoversAll(layers, m)
    ensures r.Fail? ==> r.error == IndexError
    ensures r.Ok? ==> |r.value| == |m|
    ensures r.Ok? ==> forall i :: 0 <= i < |m| ==>
              && r.value[i].id == m[i].id
              && RetagAll(m[i].coords, layers) == Ok(r.value[i].coords)
  {
    if CoversAll(layers, m) then
      Ok(seq(|m|, i requires 0 <= i < |m| => Entry(m[i].id, RetagAll(m[i].coords, layers).value)))
    else Fail(IndexError)
  }

  /** After `analyze_cust` each coordinate dictionary holds exactly `'coord'`
      (unchanged) and the custom names, each bound to the custom image's value
      at `[round(y), round(x)]`. */
  lemma AnalyzeCustFields(m: FeatureMap, layers: map<string, Image>, i: int, j: int)
    requires AnalyzeCust(m, layers).Ok?
    requires 0 <= i < |m| && 0 <= j < |m[i].coords|
    ensures |AnalyzeCust(m, layers).value[i].coords| == |m[i].coords|
    ensures AnalyzeCust(m, layers).value[i].coords[j].coord == m[i].coords[j].coord
    ensures AnalyzeCust(m, layers).value[i].coords[j].fields.Keys == layers.Keys
    ensures forall n :: n in layers ==>
              Some(AnalyzeCust(m, layers).value[i].coords[j].fields[n])
              == At(layers[n], Pixel(m[i].coords[j].coord).0, Pixel(m[i].coords[j].coord).1)
  {
    assert Retag(m[i].coords[j], layers) == Ok(AnalyzeCust(m, layers).value[i].coords[j]);
  }

  /** `analyze_cust` changes no id and no coordinate. */
  lemma AnalyzeCustShape(m: FeatureMap, layers: map<string, Image>)
    requires AnalyzeCust(m, layers).Ok?
    ensures SameShape(m, AnalyzeCust(m, layers).value)
  {
    var out := AnalyzeCust(m, layers).value;
    forall i | 0 <= i < |m|
      ensures Points(m[i].coords) == Points(out[i].coords)
    {
      forall j | 0 <= j < |m[i].coords|
        ensures m[i].coords[j].coord == out[i].coords[j].coord
      {
        AnalyzeCustFields(m, layers, i, j);
      }
    }
  }

  /** Re-tagging an already re-tagged dictionary changes nothing. */
  lemma RetagIdempotent(c: Coord, layers: map<string, Image>)
    requires Retag(c, layers).Ok?
    ensures Retag(Retag(c, layers).value, layers) == Retag(c, layers)
  {
    var d := Retag(c, layers).value;
    var e := Retag(d, layers).value;
    assert e.fields == d.fields;
  }

  lemma RetagAllIdempotent(cs: seq<Coord>, layers: map<string, Image>)
    requires RetagAll(cs, layers).Ok?
    ensures RetagAll(RetagAll(cs, layers).value, layers) == RetagAll(cs, layers)
  {
    var out := RetagAll(cs, layers).value;
    forall j | 0 <= j < |cs|
      ensures Retag(out[j], layers) == Ok(out[j])
    {
      RetagIdempotent(cs[j], layers);
    }
    assert RetagAll(out, layers).Ok?;
    assert RetagAll(out, layers).value == out;
  }

  /** Re-running `analyze_cust` on its own output yields the same maps. */
  lemma AnalyzeCustIdempotent(m: FeatureMap, layers: map<string, Image>)
    requires AnalyzeCust(m, layers).Ok?
    ensures AnalyzeCust(AnalyzeCust(m, layers).value, layers) == AnalyzeCust(m, layers)
  {
    var out := AnalyzeCust(m, layers).value;
    forall i | 0 <= i < |m|
      ensures RetagAll(out[i].coords, layers) == Ok(out[i].coords)
    {
      RetagAllIdempotent(m[i].coords, layers);
    }
    assert CoversAll(layers, out);
    assert AnalyzeCust(out, layers).value == out;
  }

  // ---------------------------------------------------------------------
  // Breadth: direction of the perpendicular ray

  /** `(prev, next)`: the positions next to the first occurrence of `p`,
      clamped to the ends of the feature. */
  function Neighbours(ps: seq<Point>, p: Point): (nb: (nat, nat))
    requires p in ps
    ensures nb.0 < |ps| && nb.1 < |ps|
    ensures nb.0 <= FirstIndex(ps, p) <= nb.1
    ensures nb.0 == FirstIndex(ps, p) - 1 || (nb.0 == 0 && FirstIndex(ps, p) == 0)
    ensures nb.1 == FirstIndex(ps, p) + 1 || (nb.1 == |ps| - 1 && FirstIndex(ps, p) == |ps| - 1)
  {
    var j := FirstIndex(ps, p);
    (if j - 1 < 0 then 0 else j - 1, if j + 1 > |ps| - 1 then |ps| - 1 else j + 1)
  }

  /** `v = (dx, dy)` with `dx = next[1] - prev[1]` and `dy = next[0] - prev[0]`. */
  function Tangent(ps: seq<Point>, p: Point): (real, real)
    requires p in ps
  {
    var nb := Neighbours(ps, p);
    (ps[nb.1].y - ps[nb.0].y, ps[nb.1].x - ps[nb.0].x)
  }

  /** `dp = (-v[1], v[0])`, perpendicular to `v`. */
  function Perp(v: (real, real)): (dp: (real, real))
    ensures dp.0 * v.0 + dp.1 * v.1 == 0.0
    ensures dp.0 * dp.0 + dp.1 * dp.1 == v.0 * v.0 + v.1 * v.1
  {
    (-v.1, v.0)
  }

  function SqLen(a: real, b: real): real
  {
    a * a + b * b
  }

  /** The ray at `p` has a direction: `mag = sqrt(dp[0]**2 + dp[1]**2)` is
      not zero. */
  ghost predicate Turning(ps: seq<Point>, p: Point)
  {
    p in ps && 0.0 < SqLen(Perp(Tangent(ps, p)).0, Perp(Tangent(ps, p)).1)
  }

  /** A neighbour pair at the same position leaves no direction. */
  lemma TurningNeedsDistinctNeighbours(ps: seq<Point>, p: Point)
    requires Turning(ps, p)
    ensures ps[Neighbours(ps, p).0] != ps[Neighbours(ps, p).1]
  {
  }

  /** A step of the pixel walk: each component in {-1, 0, 1}, not both 0. */
  ghost predicate UnitStep(d: (int, int))
  {
    -1 <= d.0 <= 1 && -1 <= d.1 <= 1 && d != (0, 0)
  }

  /** The rounded component of a unit vector, computed without a root:
      `round(a / sqrt(a^2 + b^2))` is `sign(a)` exactly when `b^2 < 3 a^2`,
      and 0 otherwise (at `b^2 == 3 a^2` the quotient is one half, which
      rounds to the even 0). */
  function Snap(a: real, b: real): int
  {
    if b * b < a * a + a * a + a * a then (if 0.0 < a then 1 else -1) else 0
  }

  lemma MulPos(p: real, q: real)
    requires 0.0 < p && 0.0 < q
    ensures 0.0 < p * q
  {
  }

  lemma SqStrict(x: real, y: real)
    requires 0.0 <= x < y
    ensures x * x < y * y
  {
    MulPos(y - x, y + x);
    assert y * y - x * x == (y - x) * (y + x);
  }

  lemma RootPos(root: real -> real, s: real)
    requires IsSqrt(root) && 0.0 < s
    ensures 0.0 < root(s) && root(s) * root(s) == s
  {
    assert root(s) * root(s) == s;
  }

  lemma DivMul(a: real, m: real)
    requires m != 0.0
    ensures (a / m) * m == a
  {
  }

  lemma SumBound(a: real, b: real, s: real)
    requires s == a * a + b * b
    ensures a * a <= s && b * b <= s
  {
  }

  /** For `u = a / m` with `m * m == s`: `|u|` against one half is `4 a^2`
      against `s`, and `|u| <= 1` when `a^2 <= s`. */
  lemma HalfCompare(a: real, m: real, s: real, u: real)
    requires 0.0 < s && m * m == s && u * m == a
    ensures Abs(u) < 0.5 <==> a * a + a * a + a * a + a * a < s
    ensures Abs(u) == 0.5 <==> a * a + a * a + a * a + a * a == s
    ensures a * a <= s ==> Abs(u) <= 1.0
  {
    var w := Abs(u);
    assert a * a == (w * w) * s;
    var g := 4.0 * (w * w) - 1.0;
    assert a * a + a * a + a * a + a * a - s == g * s;
    if w < 0.5 {
      SqStrict(w, 0.5);
      MulPos(-g, s);
      assert (-g) * s == -(g * s);
    } else if w > 0.5 {
      SqStrict(0.5, w);
      MulPos(g, s);
    }
    if 1.0 < w {
      SqStrict(1.0, w);
      MulPos(w * w - 1.0, s);
      assert a * a - s == (w * w - 1.0) * s;
    }
  }

  lemma SignOf(u: real, m: real)
    requires 0.0 < m
    ensures 0.0 < u * m <==> 0.0 < u
  {
    if 0.0 < u {
      MulPos(u, m);
    } else if u < 0.0 {
      MulPos(-u, m);
      assert (-u) * m == -(u * m);
    }
  }

  /** Normalising by the root of `s = a^2 + b^2` and rounding half-to-even
      gives `Snap(a, b)`. */
  lemma RoundedUnit(root: real -> real, a: real, b: real, s: real)
    requires IsSqrt(root)
    requires 0.0 < s && s == a * a + b * b
    requires a * a <= s
    ensures RoundHalfEven(a / root(s)) == Snap(a, b)
  {
    RootPos(root, s);
    var m := root(s);
    DivMul(a, m);
    var u := a / m;
    HalfCompare(a, m, s, u);
    SignOf(u, m);
    if b * b < a * a + a * a + a * a {
      if 0.0 < a {
        RoundHalfEvenUnique(u, 1);
      } else {
        RoundHalfEvenUnique(u, -1);
      }
    } else {
      RoundHalfEvenUnique(u, 0);
    }
  }

  lemma SnapNonZero(a: real, b: real, s: real)
    requires 0.0 < s && s == a * a + b * b
    ensures Snap(a, b) != 0 || Snap(b, a) != 0
  {
  }

  /** `dp /= mag; dp = round(dp)` for `dp = (a, b)`. */
  function Direction(root: real -> real, a: real, b: real): (d: (int, int))
    requires IsSqrt(root) && 0.0 < SqLen(a, b)
    ensures d == (Snap(a, b), Snap(b, a))
    ensures UnitStep(d)
  {
    var s := SqLen(a, b);
    RootPos(root, s);
    SumBound(a, b, s);
    SumBound(b, a, s);
    RoundedUnit(root, a, b, s);
    RoundedUnit(root, b, a, s);
    SnapNonZero(a, b, s);
    (RoundHalfEven(a / root(s)), RoundHalfEven(b / root(s)))
  }

  /** The rounded unit perpendicular at `p`, as a `(row, col)` step. */
  function Step(root: real -> real, ps: seq<Point>, p: Point): (d: (int, int))
    requires IsSqrt(root) && Turning(ps, p)
    ensures UnitStep(d)
    ensures d == (Snap(Perp(Tangent(ps, p)).0, Perp(Tangent(ps, p)).1),
                  Snap(Perp(Tangent(ps, p)).1, Perp(Tangent(ps, p)).0))
  {
    var dp := Perp(Tangent(ps, p));
    Direction(root, dp.0, dp.1)
  }

  // ---------------------------------------------------------------------
  // Breadth: the walk across the edge mask

  /** `x + k * dx` for a step component `dx` in {-1, 0, 1}. */
  function Shift(x: int, k: int, dx: int): int
  {
    if dx == 1 then x + k else if dx == -1 then x - k else x
  }

  lemma ShiftStep(x: int, k: int, dx: int)
    requires -1 <= dx <= 1
    ensures Shift(x + dx, k - 1, dx) == Shift(x, k, dx)
  {
  }

  function Neg(d: (int, int)): (e: (int, int))
    ensures UnitStep(d) ==> UnitStep(e)
  {
    (-d.0, -d.1)
  }

  /** How a walk ends: on an edge cell, or on an index numpy rejects. */
  datatype Stop = AtEdge | OffGrid

  datatype Ray = Ray(count: nat, stop: Stop)

  /** The cell `k` steps from `(r, c)` along `d`. */
  function CellAt(edges: EdgeMask, r: int, c: int, d: (int, int), k: int): Option<bool>
  {
    At(edges, Shift(r, k, d.0), Shift(c, k, d.1))
  }

  /** `n` non-edge cells from `(r, c)` along `d`, then a cell that ends the
      walk as `stop` says. */
  ghost predicate RunOf(edges: EdgeMask, r: int, c: int, d: (int, int), n: nat, stop: Stop)
  {
    && (forall k :: 0 <= k < n ==> CellAt(edges, r, c, d, k) == Some(false))
    && (stop == AtEdge ==> CellAt(edges, r, c, d, n) == Some(true))
    && (stop == OffGrid ==> CellAt(edges, r, c, d, n) == None)
  }

  /** A walk has one outcome: the run length and the stop are determined. */
  lemma RunUnique(edges: EdgeMask, r: int, c: int, d: (int, int), n1: nat, s1: Stop, n2: nat, s2: Stop)
    requires RunOf(edges, r, c, d, n1, s1) && RunOf(edges, r, c, d, n2, s2)
    ensures n1 == n2 && s1 == s2
  {
    // The cell ending each run is not a free cell of the other run.
    assert CellAt(edges, r, c, d, n1) != Some(false);
    assert CellAt(edges, r, c, d, n2) != Some(false);
  }

  /** Steps left before the moving index leaves the range numpy accepts. */
  function Budget(edges: EdgeMask, r: int, c: int, d: (int, int)): int
  {
    if d.0 == 1 then |edges| - r
    else if d.0 == -1 then |edges| + r + 1
    else
      var w := match PyGet(edges, r) case Some(row) => |row| case None => 0;
      if d.1 == 1 then w - c else w + c + 1
  }

  /** A step from an in-range cell spends one unit of the budget. */
  lemma BudgetStep(edges: EdgeMask, r: int, c: int, d: (int, int))
    requires UnitStep(d) && At(edges, r, c).Some?
    ensures 0 <= Budget(edges, r + d.0, c + d.1, d) < Budget(edges, r, c, d)
  {
  }

  /** A free cell followed by a run is a run one longer. */
  lemma RunExtend(edges: EdgeMask, r: int, c: int, d: (int, int), n: nat, stop: Stop)
    requires UnitStep(d) && At(edges, r, c) == Some(false)
    requires RunOf(edges, r + d.0, c + d.1, d, n, stop)
    ensures RunOf(edges, r, c, d, n + 1, stop)
  {
    forall k | 0 < k <= n + 1
      ensures CellAt(edges, r, c, d, k) == CellAt(edges, r + d.0, c + d.1, d, k - 1)
    {
      ShiftStep(r, k, d.0);
      ShiftStep(c, k, d.1);
    }
  }

  /** `while edges[off[0], off[1]] == 0: count += 1; off += d`, ending on an
      edge cell or on IndexError. Negative indices wrap around as in numpy;
      every step moves one index toward the end of its range, so the walk
      terminates. */
  function Walk(edges: EdgeMask, r: int, c: int, d: (int, int)): (w: Ray)
    requires UnitStep(d)
    ensures RunOf(edges, r, c, d, w.count, w.stop)
    decreases Budget(edges, r, c, d)
  {
    match At(edges, r, c)
    case None => Ray(0, OffGrid)
    case Some(true) => Ray(0, AtEdge)
    case Some(false) =>
      BudgetStep(edges, r, c, d);
      var rest := Walk(edges, r + d.0, c + d.1, d);
      RunExtend(edges, r, c, d, rest.count, rest.stop);
      Ray(rest.count + 1, rest.stop)
  }

  /** `bp + bn`: the positive walk from the pixel under `p`, plus the negative
      walk when the positive one ended on an edge. An IndexError in the
      positive walk leaves the negative walk unrun. */
  function Breadth(edges: EdgeMask, p: Point, d: (int, int)): (b: nat)
    requires UnitStep(d)
  {
    var plus := Walk(edges, Pixel(p).0, Pixel(p).1, d);
    if plus.stop == OffGrid then plus.count
    else plus.count + Walk(edges, Pixel(p).0, Pixel(p).1, Neg(d)).count
  }

  /** The breadth in terms of the runs on either side of the pixel under `p`. */
  lemma BreadthRuns(edges: EdgeMask, p: Point, d: (int, int), np: nat, sp: Stop, nn: nat, sn: Stop)
    requires UnitStep(d)
    requires RunOf(edges, Pixel(p).0, Pixel(p).1, d, np, sp)
    requires RunOf(edges, Pixel(p).0, Pixel(p).1, Neg(d), nn, sn)
    ensures Breadth(edges, p, d) == if sp == OffGrid then np else np + nn
  {
    var r := Pixel(p).0;
    var c := Pixel(p).1;
    var plus := Walk(edges, r, c, d);
    var minus := Walk(edges, r, c, Neg(d));
    RunUnique(edges, r, c, d, np, sp, plus.count, plus.stop);
    RunUnique(edges, r, c, Neg(d), nn, sn, minus.count, minus.stop);
  }

  /** A coordinate lying on an edge pixel has breadth 0. */
  lemma BreadthOnEdge(edges: EdgeMask, p: Point, d: (int, int))
    requires UnitStep(d)
    requires At(edges, Pixel(p).0, Pixel(p).1) == Some(true)
    ensures Breadth(edges, p, d) == 0
  {
  }

  /** Breadths of one feature's coordinates. */
  function BreadthAll(root: real -> real, edges: EdgeMask, cs: seq<Coord>, ps: seq<Point>): (r: seq<Coord>)
    requires IsSqrt(root)
    requires forall j :: 0 <= j < |cs| ==> Turning(ps, cs[j].coord)
    ensures |r| == |cs|
    ensures forall j :: 0 <= j < |cs| ==>
              r[j] == Coord(cs[j].coord, cs[j].fields[
                "breadth" := Breadth(edges, cs[j].coord, Step(root, ps, cs[j].coord)) as real])
  {
    if |cs| == 0 then []
    else
      var init := cs[..|cs| - 1];
      var c := cs[|cs| - 1];
      var b := Breadth(edges, c.coord, Step(root, ps, c.coord));
      var rest := BreadthAll(root, edges, init, ps);
      BreadthSnoc(root, edges, cs, ps, rest);
      rest + [Coord(c.coord, c.fields["breadth" := b as real])]
  }

  /** The step of `BreadthAll`: the breadths of all but the last
      coordinate, followed by the last one's. */
  lemma BreadthSnoc(root: real -> real, edges: EdgeMask, cs: seq<Coord>, ps: seq<Point>, rest: seq<Coord>)
    requires IsSqrt(root) && |cs| > 0
    requires forall j :: 0 <= j < |cs| ==> Turning(ps, cs[j].coord)
    requires |rest| == |cs| - 1
    requires forall j :: 0 <= j < |rest| ==>
               rest[j] == Coord(cs[j].coord, cs[j].fields[
                 "breadth" := Breadth(edges, cs[j].coord, Step(root, ps, cs[j].coord)) as real])
    ensures var c := cs[|cs| - 1];
      var r := rest + [Coord(c.coord, c.fields["breadth" := Breadth(edges, c.coord, Step(root, ps, c.coord)) as real])];
      forall j :: 0 <= j < |cs| ==>
        r[j] == Coord(cs[j].coord, cs[j].fields[
          "breadth" := Breadth(edges, cs[j].coord, Step(root, ps, cs[j].coord)) as real])
  {
  }

  /** Every coordinate of every feature has a direction. */
  ghost predicate AllTurning(m: FeatureMap)
  {
    forall i, j :: 0 <= i < |m| && 0 <= j < |m[i].coords| ==>
      Turning(Points(m[i].coords), m[i].coords[j].coord)
  }

  /** `get_breadth`: each coordinate dictionary gets `'breadth'`. */
  function AddBreadth(root: real -> real, edges: EdgeMask, m: FeatureMap): (r: FeatureMap)
    requires IsSqrt(root) && AllTurning(m)
    ensures SameShape(m, r)
    ensures forall i :: 0 <= i < |m| ==>
              r[i].coords == BreadthAll(root, edges, m[i].coords, Points(m[i].coords))
  {
    var r := seq(|m|, i requires 0 <= i < |m| =>
               Entry(m[i].id, BreadthAll(root, edges, m[i].coords, Points(m[i].coords))));
    forall i | 0 <= i < |m|
      ensures Points(m[i].coords) == Points(r[i].coords)
    {
      SameCoords(m[i].coords, r[i].coords);
    }
    r
  }

  /** Coordinate lists that agree position by position have the same points. */
  lemma SameCoords(a: seq<Coord>, b: seq<Coord>)
    requires |a| == |b|
    requires forall j :: 0 <= j < |a| ==> a[j].coord == b[j].coord
    ensures Points(a) == Points(b)
  {
  }

  // ---------------------------------------------------------------------
  // Length

  /** Reference: the length of the polyline `ps[0], ..., ps[k]`. */
  function ArcLength(root: real -> real, ps: seq<Point>, k: nat): real
    requires k < |ps|
  {
    if k == 0 then 0.0 else ArcLength(root, ps, k - 1) + Euclid(root, ps[k - 1], ps[k])
  }

  /** The loop of `get_length` from position `i` on, with the running
      `length` and the previous coordinate. */
  function LengthsFrom(root: real -> real, ps: seq<Point>, i: nat, prev: Point, length: real): (ls: seq<real>)
    requires i <= |ps|
    ensures |ls| == |ps| - i
    decreases |ps| - i
  {
    if i == |ps| then []
    else if i == 0 then [length] + LengthsFrom(root, ps, 1, ps[0], length)
    else
      var next := length + Euclid(root, ps[i], prev);
      [next] + LengthsFrom(root, ps, i + 1, ps[i], next)
  }

  /** The `'length'` values `get_length` assigns to one feature, in order. */
  function Lengths(root: real -> real, ps: seq<Point>): (ls: seq<real>)
    ensures |ls| == |ps|
  {
    if |ps| == 0 then [] else LengthsFrom(root, ps, 0, ps[0], 0.0)
  }

  lemma {:induction false} LengthsFromArc(root: real -> real, ps: seq<Point>, i: nat)
    requires IsSqrt(root)
    requires 0 < i <= |ps|
    ensures forall k :: i <= k < |ps| ==>
              LengthsFrom(root, ps, i, ps[i - 1], ArcLength(root, ps, i - 1))[k - i]
              == ArcLength(root, ps, k)
    decreases |ps| - i
  {
    if i < |ps| {
      EuclidMetric(root, ps[i], ps[i - 1]);
      LengthsFromArc(root, ps, i + 1);
    }
  }

  /** Each coordinate's length is the arc length up to it: 0 for the first,
      the predecessor's plus the Euclidean step for every later one. */
  lemma LengthsAreArcLengths(root: real -> real, ps: seq<Point>)
    requires IsSqrt(root)
    ensures forall k :: 0 <= k < |ps| ==> Lengths(root, ps)[k] == ArcLength(root, ps, k)
  {
    if |ps| > 0 {
      LengthsFromArc(root, ps, 1);
    }
  }

  lemma {:induction false} ArcLengthMonotone(root: real -> real, ps: seq<Point>, i: nat, k: nat)
    requires IsSqrt(root)
    requires i <= k < |ps|
    ensures ArcLength(root, ps, i) <= ArcLength(root, ps, k)
    decreases k - i
  {
    if i < k {
      ArcLengthMonotone(root, ps, i, k - 1);
      EuclidMetric(root, ps[k - 1], ps[k]);
    }
  }

  /** Lengths start at 0 and never decrease along a feature. */
  lemma LengthsMonotone(root: real -> real, ps: seq<Point>, i: nat, k: nat)
    requires IsSqrt(root)
    requires i <= k < |ps|
    ensures Lengths(root, ps)[0] == 0.0
    ensures Lengths(root, ps)[i] <= Lengths(root, ps)[k]
  {
    LengthsAreArcLengths(root, ps);
    ArcLengthMonotone(root, ps, i, k);
  }

  function LengthAll(cs: seq<Coord>, ls: seq<real>): (r: seq<Coord>)
    requires |ls| == |cs|
    ensures |r| == |cs|
    ensures forall j :: 0 <= j < |cs| ==> r[j] == Coord(cs[j].coord, cs[j].fields["length" := ls[j]])
  {
    if |cs| == 0 then []
    else LengthAll(cs[..|cs| - 1], ls[..|cs| - 1]) + [Coord(cs[|cs| - 1].coord, cs[|cs| - 1].fields["length" := ls[|cs| - 1]])]
  }

  /** `get_length`: each coordinate dictionary gets `'length'`, restarting at
      0 for every feature. */
  function AddLength(root: real -> real, m: FeatureMap): (r: FeatureMap)
    ensures SameShape(m, r)
    ensures forall i :: 0 <= i < |m| ==>
              r[i].coords == LengthAll(m[i].coords, Lengths(root, Points(m[i].coords)))
  {
    var r := seq(|m|, i requires 0 <= i < |m| =>
               Entry(m[i].id, LengthAll(m[i].coords, Lengths(root, Points(m[i].coords)))));
    forall i | 0 <= i < |m|
      ensures Points(m[i].coords) == Points(r[i].coords)
    {
      SameCoords(m[i].coords, r[i].coords);
    }
    r
  }

  // ---------------------------------------------------------------------
  // The whole pass

  lemma TurningShape(m: FeatureMap, n: FeatureMap)
    requires SameShape(m, n) && AllTurning(m)
    ensures AllTurning(n)
  {
    forall i, j | 0 <= i < |n| && 0 <= j < |n[i].coords|
      ensures Turning(Points(n[i].coords), n[i].coords[j].coord)
    {
      assert n[i].coords[j].coord == Points(n[i].coords)[j];
      assert Points(m[i].coords)[j] == m[i].coords[j].coord;
    }
  }

  lemma ShapeTrans(a: FeatureMap, b: FeatureMap, c: FeatureMap)
    requires SameShape(a, b) && SameShape(b, c)
    ensures SameShape(a, c)
  {
  }

  /** `Analysis.run`: custom fields, then breadth, then length. Only the
      custom pass can fail; the ids and coordinates come through unchanged. */
  function Run(root: real -> real, edges: EdgeMask, layers: map<string, Image>, m: FeatureMap): (r: Result<FeatureMap>)
    requires IsSqrt(root) && AllTurning(m)
    ensures r.Ok? <==> CoversAll(layers, m)
    ensures r.Ok? ==> SameShape(m, r.value)
  {
    match AnalyzeCust(m, layers)
    case Fail(e) => Fail(e)
    case Ok(tagged) =>
      AnalyzeCustShape(m, layers);
      TurningShape(m, tagged);
      var broad := AddBreadth(root, edges, tagged);
      var out := AddLength(root, broad);
      ShapeTrans(m, tagged, broad);
      ShapeTrans(m, broad, out);
      Ok(out)
  }

  /** What `run` returns for each coordinate dictionary: the coordinate, the
      custom names with their sampled values, `'breadth'` and `'length'`,
      and nothing else; the length is the arc length up to the coordinate. */
  lemma RunFields(root: real -> real, edges: EdgeMask, layers: map<string, Image>, m: FeatureMap, i: int, j: int)
    requires IsSqrt(root) && AllTurning(m)
    requires Run(root, edges, layers, m).Ok?
    requires 0 <= i < |m| && 0 <= j < |m[i].coords|
    ensures |Run(root, edges, layers, m).value[i].coords| == |m[i].coords|
    ensures Run(root, edges, layers, m).value[i].coords[j].coord == m[i].coords[j].coord
    ensures Run(root, edges, layers, m).value[i].coords[j].fields.Keys == layers.Keys + {"breadth", "length"}
    ensures Run(root, edges, layers, m).value[i].coords[j].fields["breadth"]
              == Breadth(edges, m[i].coords[j].coord, Step(root, Points(m[i].coords), m[i].coords[j].coord)) as real
    ensures Run(root, edges, layers, m).value[i].coords[j].fields["length"] == ArcLength(root, Points(m[i].coords), j)
    ensures forall n :: n in layers && n != "breadth" && n != "length" ==>
              Some(Run(root, edges, layers, m).value[i].coords[j].fields[n])
              == At(layers[n], Pixel(m[i].coords[j].coord).0, Pixel(m[i].coords[j].coord).1)
  {
    var tagged := AnalyzeCust(m, layers).value;
    AnalyzeCustShape(m, layers);
    AnalyzeCustFields(m, layers, i, j);
    TurningShape(m, tagged);
    var broad := AddBreadth(root, edges, tagged);
    var out := AddLength(root, broad);
    assert Run(root, edges, layers, m) == Ok(out);
    var ps := Points(m[i].coords);
    assert Points(tagged[i].coords) == ps;
    assert Points(broad[i].coords) == ps;
    var t := tagged[i].coords[j];
    assert broad[i].coords[j] == Coord(t.coord, t.fields["breadth" := Breadth(edges, t.coord, Step(root, ps, t.coord)) as real]);
    LengthsAreArcLengths(root, ps);
    var b := Breadth(edges, t.coord, Step(root, ps, t.coord)) as real;
    var c := out[i].coords[j];
    assert c == Coord(t.coord, t.fields["breadth" := b]["length" := Lengths(root, ps)[j]]);
    CoordFields(t, layers, b, Lengths(root, ps)[j], c);
  }

  /** A re-tagged dictionary with `'breadth'` and then `'length'` assigned. */
  lemma CoordFields(t: Coord, layers: map<string, Image>, b: real, l: real, c: Coord)
    requires t.fields.Keys == layers.Keys
    requires c == Coord(t.coord, t.fields["breadth" := b]["length" := l])
    ensures c.fields.Keys == layers.Keys + {"breadth", "length"}
    ensures c.fields["breadth"] == b && c.fields["length"] == l
    ensures forall n :: n in layers && n != "breadth" && n != "length" ==> c.fields[n] == t.fields[n]
  {
  }
}
