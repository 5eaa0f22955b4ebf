/** Frame-to-frame matching of lifetime.py: the greedy nearest-coordinate
    matcher `match_frame_features`, the per-feature mode vote and the mutual
    (bidirectional) acceptance of a feature pair. */
module FrameMatch {
  import opened Base
  import opened Seqs
  import opened Geometry

  /** One row of a frame's tracing table (columns f_num, x, y, match_id,
      match_distance). */
  datatype Row = Row(fnum: int, pos: Point, matchId: Option<int>, matchDist: real)

  function Positions(rows: seq<Row>): (ps: seq<Point>)
    ensures |ps| == |rows|
    ensures forall i :: 0 <= i < |rows| ==> ps[i] == rows[i].pos
  {
    seq(|rows|, i requires 0 <= i < |rows| => rows[i].pos)
  }

  /** The box pre-filter: both coordinate differences strictly below `maxd`. */
  predicate InBox(c: Point, p: Point, maxd: real)
  {
    Abs(c.x - p.x) < maxd && Abs(c.y - p.y) < maxd
  }

  /** The box test around `p`, as a value. */
  function Near(p: Point, maxd: real): Point -> bool
  {
    c => InBox(c, p, maxd)
  }

  /** `icoords[np.where(...)]`: the pool entries that pass the box
      pre-filter around `p`, every copy of each, in pool order. */
  function Candidates(pool: seq<Point>, p: Point, maxd: real): (cands: seq<Point>)
    ensures forall i :: 0 <= i < |cands| ==> cands[i] in pool && InBox(cands[i], p, maxd)
    ensures forall i :: 0 <= i < |pool| && InBox(pool[i], p, maxd) ==> pool[i] in cands
    ensures |cands| == |Kept(pool, Near(p, maxd))|
    ensures forall t :: 0 <= t < |cands| ==> cands[t] == pool[Kept(pool, Near(p, maxd))[t]]
  {
    Filter(pool, Near(p, maxd))
  }

  /** `np.argmin` over the distances from `p` to the candidates: the first
      candidate whose distance is least. */
  function Closest(p: Point, cands: seq<Point>, dist: Dist): (k: nat)
    requires |cands| > 0
    ensures k < |cands|
    ensures forall j :: 0 <= j < |cands| ==> dist(p, cands[k]) <= dist(p, cands[j])
    ensures forall j :: 0 <= j < k ==> dist(p, cands[k]) < dist(p, cands[j])
  {
    var d := seq(|cands|, j requires 0 <= j < |cands| => dist(p, cands[j]));
    var k := ArgMin(d);
    assert forall j :: 0 <= j < |cands| ==> d[j] == dist(p, cands[j]);
    k
  }

  /** `dfb[(dfb.x == c.x) & (dfb.y == c.y)].iloc[0].f_num`. */
  function FnumAt(dfb: seq<Row>, c: Point): int
    requires c in Positions(dfb)
  {
    dfb[FirstIndex(Positions(dfb), c)].fnum
  }

  /** The matcher's loop state: the table being annotated and the remaining
      candidate coordinates of the other frame (`icoords`). */
  datatype Scan = Scan(rows: seq<Row>, pool: seq<Point>)

  /** Records match `m` on every row whose coordinate equals `p`. */
  function Assign(rows: seq<Row>, p: Point, m: Option<int>, d: real): (r: seq<Row>)
    ensures |r| == |rows|
    ensures forall i :: 0 <= i < |rows| && rows[i].pos == p ==>
      r[i] == rows[i].(matchId := m, matchDist := d)
    ensures forall i :: 0 <= i < |rows| && rows[i].pos != p ==> r[i] == rows[i]
  {
    seq(|rows|, i requires 0 <= i < |rows| =>
      if rows[i].pos == p then rows[i].(matchId := m, matchDist := d) else rows[i])
  }

  /** One iteration of the loop body (lifetime.py:102-129) for source point `p`. */
  function Visit(s: Scan, dfb: seq<Row>, p: Point, maxd: real, dist: Dist): (r: Scan)
    requires forall c :: c in s.pool ==> c in Positions(dfb)
    ensures Candidates(s.pool, p, maxd) == [] ==> r == s
    ensures Candidates(s.pool, p, maxd) != [] ==>
      var cands := Candidates(s.pool, p, maxd);
      var c := cands[Closest(p, cands, dist)];
      && r.pool == Remove(s.pool, p)
      && r.rows == Assign(s.rows, p, Some(FnumAt(dfb, c)), dist(p, c))
  {
    var cands := Candidates(s.pool, p, maxd);
    if |cands| == 0 then s
    else
      var c := cands[Closest(p, cands, dist)];
      Scan(Assign(s.rows, p, Some(FnumAt(dfb, c)), dist(p, c)), Remove(s.pool, p))
  }

  /** Row `i`'s match is a box-close coordinate of `dfb`, the first `dfb`
      feature there and its distance; an unmatched row keeps distance 0.0. */
  ghost predicate SoundRow(rows: seq<Row>, i: int, dfb: seq<Row>, maxd: real, dist: Dist)
    requires 0 <= i < |rows|
  {
    if rows[i].matchId.None? then rows[i].matchDist == 0.0
    else
      exists j :: 0 <= j < |dfb|
        && InBox(dfb[j].pos, rows[i].pos, maxd)
        && rows[i].matchId == Some(FnumAt(dfb, dfb[j].pos))
        && rows[i].matchDist == dist(rows[i].pos, dfb[j].pos)
  }

  ghost predicate Sound(rows: seq<Row>, dfb: seq<Row>, maxd: real, dist: Dist)
  {
    forall i :: 0 <= i < |rows| ==> SoundRow(rows, i, dfb, maxd, dist)
  }

  /** Rows at the same coordinate carry the same match. */
  ghost predicate Uniform(rows: seq<Row>)
  {
    forall i, j :: 0 <= i < |rows| && 0 <= j < |rows| && rows[i].pos == rows[j].pos ==>
      rows[i].matchId == rows[j].matchId && rows[i].matchDist == rows[j].matchDist
  }

  /** The first `k` rows are matched at least as closely as any box-close
      `dfb` coordinate that equals no source coordinate. */
  ghost predicate Persistent(rows: seq<Row>, dfa: seq<Row>, dfb: seq<Row>, k: nat, maxd: real, dist: Dist)
    requires k <= |dfa| == |rows|
  {
    forall i, j ::
      (0 <= i < k && 0 <= j < |dfb| && InBox(dfb[j].pos, dfa[i].pos, maxd)
       && dfb[j].pos !in Positions(dfa)) ==>
      rows[i].matchId.Some? && rows[i].matchDist <= dist(dfa[i].pos, dfb[j].pos)
  }

  ghost predicate SameShape(rows: seq<Row>, dfa: seq<Row>)
  {
    |rows| == |dfa| && forall i :: 0 <= i < |rows| ==> rows[i].fnum == dfa[i].fnum && rows[i].pos == dfa[i].pos
  }

  /** The pool holds only `dfb` coordinates, and never loses one that equals
      no source coordinate. */
  ghost predicate PoolOk(pool: seq<Point>, dfa: seq<Row>, dfb: seq<Row>)
  {
    && (forall c :: c in pool ==> c in Positions(dfb))
    && (forall j :: 0 <= j < |dfb| && dfb[j].pos !in Positions(dfa) ==> dfb[j].pos in pool)
  }

  lemma VisitPool(s: Scan, dfa: seq<Row>, dfb: seq<Row>, k: nat, maxd: real, dist: Dist)
    requires k < |dfa| && PoolOk(s.pool, dfa, dfb)
    ensures var r := Visit(s, dfb, dfa[k].pos, maxd, dist);
      PoolOk(r.pool, dfa, dfb) && |r.pool| <= |s.pool|
  {
    var p := dfa[k].pos;
    var r := Visit(s, dfb, p, maxd, dist);
    if Candidates(s.pool, p, maxd) != [] {
      assert r.pool == Remove(s.pool, p);
      forall j | 0 <= j < |dfb| && dfb[j].pos !in Positions(dfa)
        ensures dfb[j].pos in r.pool
      {
        assert dfb[j].pos != p by { assert p == Positions(dfa)[k]; }
        assert dfb[j].pos in multiset(s.pool);
        assert multiset(r.pool)[dfb[j].pos] == multiset(s.pool)[dfb[j].pos];
      }
      forall c | c in r.pool
        ensures c in Positions(dfb)
      {
        assert c in multiset(r.pool);
      }
    }
  }

  lemma VisitSound(s: Scan, dfb: seq<Row>, p: Point, maxd: real, dist: Dist)
    requires forall c :: c in s.pool ==> c in Positions(dfb)
    requires Sound(s.rows, dfb, maxd, dist)
    ensures Sound(Visit(s, dfb, p, maxd, dist).rows, dfb, maxd, dist)
  {
    var cands := Candidates(s.pool, p, maxd);
    var r := Visit(s, dfb, p, maxd, dist);
    if cands != [] {
      var c := cands[Closest(p, cands, dist)];
      var jc := FirstIndex(Positions(dfb), c);
      assert dfb[jc].pos == c && InBox(c, p, maxd);
      forall i | 0 <= i < |r.rows|
        ensures SoundRow(r.rows, i, dfb, maxd, dist)
      {
        if s.rows[i].pos == p {
          assert r.rows[i].matchId == Some(FnumAt(dfb, dfb[jc].pos));
        } else {
          assert SoundRow(s.rows, i, dfb, maxd, dist);
        }
      }
    }
  }

  lemma VisitPersistent(s: Scan, dfa: seq<Row>, dfb: seq<Row>, k: nat, maxd: real, dist: Dist)
    requires k < |dfa| && SameShape(s.rows, dfa) && PoolOk(s.pool, dfa, dfb)
    requires Persistent(s.rows, dfa, dfb, k, maxd, dist)
    ensures var r := Visit(s, dfb, dfa[k].pos, maxd, dist);
      SameShape(r.rows, dfa) && Persistent(r.rows, dfa, dfb, k + 1, maxd, dist)
  {
    var p := dfa[k].pos;
    var cands := Candidates(s.pool, p, maxd);
    if cands != [] {
      var c := cands[Closest(p, cands, dist)];
      forall q | q in s.pool && InBox(q, p, maxd)
        ensures dist(p, c) <= dist(p, q)
      {
        CloserThanPooled(s.pool, p, maxd, dist, q);
      }
      AssignPersistent(s.rows, dfa, dfb, k, maxd, dist, s.pool, FnumAt(dfb, c), dist(p, c));
    } else {
      forall i, j | 0 <= i < k + 1 && 0 <= j < |dfb| && InBox(dfb[j].pos, dfa[i].pos, maxd)
          && dfb[j].pos !in Positions(dfa)
        ensures s.rows[i].matchId.Some? && s.rows[i].matchDist <= dist(dfa[i].pos, dfb[j].pos)
      {
        if i == k {
          CloserThanPooled(s.pool, p, maxd, dist, dfb[j].pos);
          assert false;
        }
      }
    }
  }

  /** Matching every row at `dfa[k]`'s coordinate, at a distance no pooled
      box-close coordinate beats, extends `Persistent` by one row. */
  lemma AssignPersistent(rows: seq<Row>, dfa: seq<Row>, dfb: seq<Row>, k: nat, maxd: real, dist: Dist,
                         pool: seq<Point>, m: int, d: real)
    requires k < |dfa| && SameShape(rows, dfa) && PoolOk(pool, dfa, dfb)
    requires Persistent(rows, dfa, dfb, k, maxd, dist)
    requires forall q :: q in pool && InBox(q, dfa[k].pos, maxd) ==> d <= dist(dfa[k].pos, q)
    ensures var r := Assign(rows, dfa[k].pos, Some(m), d);
      SameShape(r, dfa) && Persistent(r, dfa, dfb, k + 1, maxd, dist)
  {
    var p := dfa[k].pos;
    var r := Assign(rows, p, Some(m), d);
    forall i, j | 0 <= i < k + 1 && 0 <= j < |dfb| && InBox(dfb[j].pos, dfa[i].pos, maxd)
        && dfb[j].pos !in Positions(dfa)
      ensures r[i].matchId.Some? && r[i].matchDist <= dist(dfa[i].pos, dfb[j].pos)
    {
      if rows[i].pos == p {
        assert dfb[j].pos in pool;
      } else {
        assert i < k by { assert rows[k].pos == p; }
      }
    }
  }

  /** A pooled coordinate in the box is no closer than the one `Visit` picks. */
  lemma CloserThanPooled(pool: seq<Point>, p: Point, maxd: real, dist: Dist, q: Point)
    requires q in pool && InBox(q, p, maxd)
    ensures var cands := Candidates(pool, p, maxd);
      cands != [] && dist(p, cands[Closest(p, cands, dist)]) <= dist(p, q)
  {
    var cands := Candidates(pool, p, maxd);
    var m :| 0 <= m < |pool| && pool[m] == q;
    assert q in cands;
    var n :| 0 <= n < |cands| && cands[n] == q;
  }

  lemma VisitKeeps(s: Scan, dfa: seq<Row>, dfb: seq<Row>, k: nat, maxd: real, dist: Dist)
    requires k < |dfa| && SameShape(s.rows, dfa) && PoolOk(s.pool, dfa, dfb)
    requires Sound(s.rows, dfb, maxd, dist) && Uniform(s.rows)
    requires Persistent(s.rows, dfa, dfb, k, maxd, dist)
    ensures var r := Visit(s, dfb, dfa[k].pos, maxd, dist);
      && SameShape(r.rows, dfa) && PoolOk(r.pool, dfa, dfb) && |r.pool| <= |s.pool|
      && Sound(r.rows, dfb, maxd, dist) && Uniform(r.rows)
      && Persistent(r.rows, dfa, dfb, k + 1, maxd, dist)
  {
    VisitPool(s, dfa, dfb, k, maxd, dist);
    VisitSound(s, dfb, dfa[k].pos, maxd, dist);
    VisitPersistent(s, dfa, dfb, k, maxd, dist);
  }

  function Loop(dfa: seq<Row>, dfb: seq<Row>, maxd: real, dist: Dist, s: Scan, k: nat): (r: Scan)
    requires k <= |dfa| && SameShape(s.rows, dfa) && PoolOk(s.pool, dfa, dfb)
    requires Sound(s.rows, dfb, maxd, dist) && Uniform(s.rows)
    requires Persistent(s.rows, dfa, dfb, k, maxd, dist)
    ensures SameShape(r.rows, dfa) && |r.pool| <= |s.pool|
    ensures Sound(r.rows, dfb, maxd, dist) && Uniform(r.rows)
    ensures Persistent(r.rows, dfa, dfb, |dfa|, maxd, dist)
    decreases |dfa| - k
  {
    if k == |dfa| then s
    else
      VisitKeeps(s, dfa, dfb, k, maxd, dist);
      Loop(dfa, dfb, maxd, dist, Visit(s, dfb, dfa[k].pos, maxd, dist), k + 1)
  }

  /** The table after lines 95-96: every row unmatched at distance 0.0. */
  function Reset(dfa: seq<Row>): (r: seq<Row>)
    ensures SameShape(r, dfa)
    ensures forall i :: 0 <= i < |r| ==> r[i].matchId.None? && r[i].matchDist == 0.0
  {
    seq(|dfa|, i requires 0 <= i < |dfa| => dfa[i].(matchId := None, matchDist := 0.0))
  }

  lemma StartOk(dfa: seq<Row>, dfb: seq<Row>, maxd: real, dist: Dist)
    ensures SameShape(Reset(dfa), dfa) && PoolOk(Positions(dfb), dfa, dfb)
    ensures Sound(Reset(dfa), dfb, maxd, dist) && Uniform(Reset(dfa))
    ensures Persistent(Reset(dfa), dfa, dfb, 0, maxd, dist)
  {
    var r := Reset(dfa);
    assert forall i :: 0 <= i < |r| ==> SoundRow(r, i, dfb, maxd, dist);
  }

  /** `match_frame_features(dfa, dfb, maxd)` (lifetime.py:76-132). */
  function MatchFrame(dfa: seq<Row>, dfb: seq<Row>, maxd: real, dist: Dist): (r: seq<Row>)
    ensures SameShape(r, dfa)
    ensures Sound(r, dfb, maxd, dist) && Uniform(r)
    ensures Persistent(r, dfa, dfb, |dfa|, maxd, dist)
  {
    StartOk(dfa, dfb, maxd, dist);
    Loop(dfa, dfb, maxd, dist, Scan(Reset(dfa), Positions(dfb)), 0).rows
  }

  /** What `match_frame_features` promises, spelled out row by row. */
  lemma MatchFrameSpec(dfa: seq<Row>, dfb: seq<Row>, maxd: real, dist: Dist)
    ensures var r := MatchFrame(dfa, dfb, maxd, dist);
      && |r| == |dfa|
      && (forall i :: 0 <= i < |r| ==> r[i].fnum == dfa[i].fnum && r[i].pos == dfa[i].pos)
      // no candidate: the reset values None / 0.0 survive
      && (forall i :: 0 <= i < |r| && r[i].matchId.None? ==> r[i].matchDist == 0.0)
      // a match is a box-close dfb coordinate, the first dfb row there, and its distance
      && (forall i :: 0 <= i < |r| && r[i].matchId.Some? ==>
            exists j :: 0 <= j < |dfb|
              && InBox(dfb[j].pos, dfa[i].pos, maxd)
              && r[i].matchId == Some(FnumAt(dfb, dfb[j].pos))
              && r[i].matchDist == dist(dfa[i].pos, dfb[j].pos))
      // rows with identical (x, y) receive the same match
      && (forall i, j :: 0 <= i < |r| && 0 <= j < |r| && dfa[i].pos == dfa[j].pos ==>
            r[i].matchId == r[j].matchId && r[i].matchDist == r[j].matchDist)
      // a box-close dfb coordinate equal to no dfa coordinate is never used up
      && (forall i, j ::
            (0 <= i < |r| && 0 <= j < |dfb| && InBox(dfb[j].pos, dfa[i].pos, maxd)
             && dfb[j].pos !in Positions(dfa)) ==>
            r[i].matchId.Some? && r[i].matchDist <= dist(dfa[i].pos, dfb[j].pos))
  {
    var r := MatchFrame(dfa, dfb, maxd, dist);
    forall i | 0 <= i < |r|
      ensures r[i].matchId.None? ==> r[i].matchDist == 0.0
      ensures r[i].matchId.Some? ==>
        exists j :: 0 <= j < |dfb|
          && InBox(dfb[j].pos, dfa[i].pos, maxd)
          && r[i].matchId == Some(FnumAt(dfb, dfb[j].pos))
          && r[i].matchDist == dist(dfa[i].pos, dfb[j].pos)
    {
      assert SoundRow(r, i, dfb, maxd, dist);
    }
  }

  /** The matcher is not one-to-one: the pool loses the coordinates equal to
      the SOURCE point, not the claimed one, so two features of frame A can
      both claim the single feature of frame B, whatever the distance. */
  lemma MatchFrameSharesTarget(dist: Dist)
    ensures var dfa := [Row(1, Point(0.0, 0.0), None, 0.0), Row(2, Point(1.0, 0.0), None, 0.0)];
      var dfb := [Row(7, Point(0.5, 0.0), None, 0.0)];
      var r := MatchFrame(dfa, dfb, 20.0, dist);
      r[0].matchId == Some(7) && r[1].matchId == Some(7)
  {
    var dfa := [Row(1, Point(0.0, 0.0), None, 0.0), Row(2, Point(1.0, 0.0), None, 0.0)];
    var dfb := [Row(7, Point(0.5, 0.0), None, 0.0)];
    assert Positions(dfa) == [Point(0.0, 0.0), Point(1.0, 0.0)];
    SoleTarget(dfa, dfb, 20.0, dist, 0);
    SoleTarget(dfa, dfb, 20.0, dist, 1);
  }

  /** With a single feature coordinate in frame B that no frame-A row sits
      on, every frame-A row in its box is matched to it. */
  lemma SoleTarget(dfa: seq<Row>, dfb: seq<Row>, maxd: real, dist: Dist, i: nat)
    requires |dfb| == 1 && i < |dfa|
    requires InBox(dfb[0].pos, dfa[i].pos, maxd) && dfb[0].pos !in Positions(dfa)
    ensures MatchFrame(dfa, dfb, maxd, dist)[i].matchId == Some(dfb[0].fnum)
  {
    MatchFrameSpec(dfa, dfb, maxd, dist);
    assert FnumAt(dfb, dfb[0].pos) == dfb[0].fnum by {
      assert Positions(dfb)[0] == dfb[0].pos;
    }
  }

  function FNums(rows: seq<Row>): (f: seq<int>)
    ensures |f| == |rows| && forall i :: 0 <= i < |rows| ==> f[i] == rows[i].fnum
  {
    seq(|rows|, i requires 0 <= i < |rows| => rows[i].fnum)
  }

  /** The test `df.f_num == f`, as a value. */
  function OfFeature(f: int): Row -> bool
  {
    (r: Row) => r.fnum == f
  }

  /** `df[df.f_num == f]`: feature `f`'s rows, in row order. */
  function RowsOf(rows: seq<Row>, f: int): (sel: seq<Row>)
    ensures |sel| == |Kept(rows, OfFeature(f))| <= |rows|
    ensures forall t :: 0 <= t < |sel| ==> sel[t] == rows[Kept(rows, OfFeature(f))[t]]
  {
    Filter(rows, OfFeature(f))
  }

  /** Feature `f` has as many rows as `f_num` holds copies of `f`. */
  lemma RowsOfCount(rows: seq<Row>, f: int)
    ensures |Kept(rows, OfFeature(f))| == multiset(FNums(rows))[f]
  {
    KeptFromCount(rows, f, 0);
    assert FNums(rows)[0..] == FNums(rows);
  }

  lemma {:induction false} KeptFromCount(rows: seq<Row>, f: int, i: nat)
    requires i <= |rows|
    ensures |KeptFrom(rows, OfFeature(f), i)| == multiset(FNums(rows)[i..])[f]
    decreases |rows| - i
  {
    if i < |rows| {
      assert FNums(rows)[i..] == [rows[i].fnum] + FNums(rows)[i + 1..];
      KeptFromCount(rows, f, i + 1);
    }
  }

  /** Some row of feature `f` carries match `m`. */
  ghost predicate HasRowWith(rows: seq<Row>, f: int, m: Option<int>)
  {
    exists i :: 0 <= i < |rows| && rows[i].fnum == f && rows[i].matchId == m
  }

  /** `df[df.f_num == f].match_id.tolist()`: the matches of feature `f`'s
      rows, one per row, in row order. */
  function MatchIdsOf(rows: seq<Row>, f: int): (ms: seq<Option<int>>)
    ensures |ms| == |Kept(rows, OfFeature(f))| <= |rows|
    ensures forall t :: 0 <= t < |ms| ==> ms[t] == rows[Kept(rows, OfFeature(f))[t]].matchId
    ensures forall k :: 0 <= k < |ms| ==> HasRowWith(rows, f, ms[k])
    ensures forall i :: 0 <= i < |rows| && rows[i].fnum == f ==> rows[i].matchId in ms
  {
    var sel := RowsOf(rows, f);
    var ms := seq(|sel|, t requires 0 <= t < |sel| => sel[t].matchId);
    MatchIdsMembers(rows, f, ms);
    ms
  }

  lemma MatchIdsMembers(rows: seq<Row>, f: int, ms: seq<Option<int>>)
    requires |ms| == |Kept(rows, OfFeature(f))|
    requires forall t :: 0 <= t < |ms| ==> ms[t] == rows[Kept(rows, OfFeature(f))[t]].matchId
    ensures forall k :: 0 <= k < |ms| ==> HasRowWith(rows, f, ms[k])
    ensures forall i :: 0 <= i < |rows| && rows[i].fnum == f ==> rows[i].matchId in ms
  {
    var idx := Kept(rows, OfFeature(f));
    forall k | 0 <= k < |ms|
      ensures HasRowWith(rows, f, ms[k])
    {
      assert OfFeature(f)(rows[idx[k]]);
    }
    forall i | 0 <= i < |rows| && rows[i].fnum == f
      ensures rows[i].matchId in ms
    {
      assert OfFeature(f)(rows[i]);
      var t :| 0 <= t < |idx| && idx[t] == i;
      assert ms[t] == rows[i].matchId;
    }
  }

  /** One entry of the vote dictionaries `mici` / `cimi`: a feature and the
      feature of the other frame most of its coordinates matched
      (`None` when that is the most frequent outcome). */
  datatype Vote = Vote(key: int, target: Option<int>)

  /** The vote loop of lifetime.py:140-152: one entry per distinct feature,
      in `unique()` order, holding the earliest most frequent match id. */
  function Votes(rows: seq<Row>): (v: seq<Vote>)
    ensures |v| == |Dedup(FNums(rows))|
    ensures forall k :: 0 <= k < |v| ==>
      v[k].key == Dedup(FNums(rows))[k] && v[k].key in FNums(rows)
      && v[k].target == VoteOf(rows, v[k].key)
  {
    VotesOver(rows, Dedup(FNums(rows)))
  }

  function VotesOver(rows: seq<Row>, keys: seq<int>): (v: seq<Vote>)
    ensures |v| == |keys|
    ensures forall k :: 0 <= k < |v| ==> v[k].key == keys[k] && v[k].target == VoteOf(rows, keys[k])
  {
    if |keys| == 0 then []
    else [Vote(keys[0], VoteOf(rows, keys[0]))] + VotesOver(rows, keys[1..])
  }

  /** `max(match_ids, key=match_ids.count)` for feature `f`; the vote loop
      only asks about features that occur, which always have match ids. */
  function VoteOf(rows: seq<Row>, f: int): Option<int>
  {
    var ms := MatchIdsOf(rows, f);
    if |ms| == 0 then None else Mode(ms)
  }

  lemma HasMatchIds(rows: seq<Row>, f: int)
    requires f in FNums(rows)
    ensures |MatchIdsOf(rows, f)| > 0
  {
    var i :| 0 <= i < |rows| && FNums(rows)[i] == f;
    assert rows[i].matchId in MatchIdsOf(rows, f);
  }

  /** A feature's vote is one of its rows' match ids and none occurs more
      often; among equally frequent ones it is the earliest. */
  lemma VoteIsMode(rows: seq<Row>, f: int)
    requires f in FNums(rows)
    ensures var ms := MatchIdsOf(rows, f);
      && VoteOf(rows, f) in ms
      && (forall j :: 0 <= j < |ms| ==> multiset(ms)[ms[j]] <= multiset(ms)[VoteOf(rows, f)])
      && (forall j :: 0 <= j < |ms| && multiset(ms)[ms[j]] == multiset(ms)[VoteOf(rows, f)] ==>
            FirstIndex(ms, VoteOf(rows, f)) <= j)
  {
    var ms := MatchIdsOf(rows, f);
    HasMatchIds(rows, f);
    var k := ModeIndex(ms);
    assert VoteOf(rows, f) == ms[k];
    forall j | 0 <= j < |ms| && multiset(ms)[ms[j]] == multiset(ms)[ms[k]]
      ensures FirstIndex(ms, ms[k]) <= j
    {
      assert FirstIndex(ms, ms[k]) <= k;
    }
  }

  /** `d[k]` on a vote dictionary: `None` stands for the `KeyError`. */
  function Lookup(v: seq<Vote>, k: int): (r: Option<Option<int>>)
    ensures r.Some? <==> exists i :: 0 <= i < |v| && v[i].key == k
    ensures r.Some? ==> exists i :: 0 <= i < |v| && v[i].key == k && v[i].target == r.value
  {
    if |v| == 0 then None
    else if v[0].key == k then Some(v[0].target)
    else Lookup(v[1..], k)
  }

  /** A pair the two frames agree on: `key` of frame i-1 voted for `target`
      of frame i, and `target` voted back for `key`. */
  datatype Link = Link(key: int, target: int)

  /** The acceptance test of lifetime.py:154-157 applied to every `mici`
      key in order; a missing `cimi` entry (`KeyError`, lines 197-200) or a
      `None` vote rejects the key. */
  function Agreed(mici: seq<Vote>, cimi: seq<Vote>): (r: seq<Link>)
    ensures |r| <= |mici|
    ensures forall k :: 0 <= k < |r| ==>
      Vote(r[k].key, Some(r[k].target)) in mici
      && Lookup(cimi, r[k].target) == Some(Some(r[k].key))
    ensures forall i ::
      (0 <= i < |mici| && mici[i].target.Some?
       && Lookup(cimi, mici[i].target.value) == Some(Some(mici[i].key))) ==>
      Link(mici[i].key, mici[i].target.value) in r
  {
    if |mici| == 0 then []
    else
      var v := mici[0];
      var rest := Agreed(mici[1..], cimi);
      if v.target.Some? && Lookup(cimi, v.target.value) == Some(Some(v.key))
      then [Link(v.key, v.target.value)] + rest
      else rest
  }

  /** Accepted pairs form a partial one-to-one correspondence: no two keys
      share a target. */
  lemma AgreedInjective(mici: seq<Vote>, cimi: seq<Vote>)
    ensures var r := Agreed(mici, cimi);
      forall a, b :: 0 <= a < |r| && 0 <= b < |r| && r[a].target == r[b].target ==> r[a].key == r[b].key
  {
  }

  ghost predicate DistinctVoteKeys(v: seq<Vote>)
  {
    forall a, b :: 0 <= a < b < |v| ==> v[a].key != v[b].key
  }

  ghost predicate DistinctLinkKeys(r: seq<Link>)
  {
    forall a, b :: 0 <= a < b < |r| ==> r[a].key != r[b].key
  }

  /** A vote dictionary has one entry per feature. */
  lemma VotesDistinct(rows: seq<Row>)
    ensures DistinctVoteKeys(Votes(rows))
  {
  }

  /** Each key is accepted at most once. */
  lemma {:induction false} AgreedDistinct(mici: seq<Vote>, cimi: seq<Vote>)
    requires DistinctVoteKeys(mici)
    ensures DistinctLinkKeys(Agreed(mici, cimi))
  {
    if |mici| > 0 {
      var rest := Agreed(mici[1..], cimi);
      AgreedDistinct(mici[1..], cimi);
      forall k | 0 <= k < |rest|
        ensures rest[k].key != mici[0].key
      {
        var j :| 0 <= j < |mici[1..]| && mici[1..][j] == Vote(rest[k].key, Some(rest[k].target));
        assert mici[j + 1] == mici[1..][j];
      }
      var r := Agreed(mici, cimi);
      if r != rest {
        assert r == [Link(mici[0].key, mici[0].target.value)] + rest;
        forall a, b | 0 <= a < b < |r|
          ensures r[a].key != r[b].key
        {
          if a > 0 {
            assert r[a] == rest[a - 1] && r[b] == rest[b - 1];
          } else {
            assert r[b] == rest[b - 1];
          }
        }
      }
    }
  }
}
