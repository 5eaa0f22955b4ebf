/** The sequence tracer's frame-to-frame matcher (`get_matching_features`):
    every coordinate of frame `i` claims the nearest still-unclaimed
    coordinate of frame `i - 1` closer than 20 pixels. */
module Timeseries {
  import opened Base
  import opened Seqs
  import opened Geometry
  import opened Features

  /** Matches must be strictly closer than this many pixels. */
  const Threshold: real := 20.0

  /** A coordinate dictionary as the matcher sees it: `'coord'`, `'match_id'`
      and `'match_coord'`. A missing key and `None` are both `None`: the only
      dictionaries without `'match_id'` are those of frame 0, whose
      `'match_id'` is never read. */
  datatype Mark = Mark(coord: Point, matchId: Option<int>, matchCoord: Option<Point>)

  datatype Feature = Feature(id: int, marks: seq<Mark>)

  /** One frame's feature dictionary, in insertion order. */
  type Frame = seq<Feature>

  /** An entry of `if_coords`: a previous-frame coordinate and its feature. */
  datatype Cand = Cand(fid: int, at: Point)

  /** A freshly converted frame: only the coordinates, no match keys. */
  function Unmarked(m: FeatureMap): (f: Frame)
    ensures |f| == |m|
    ensures forall i :: 0 <= i < |m| ==> f[i].id == m[i].id && |f[i].marks| == |m[i].coords|
    ensures forall i, j :: 0 <= i < |m| && 0 <= j < |m[i].coords| ==>
              f[i].marks[j] == Mark(m[i].coords[j].coord, None, None)
  {
    seq(|m|, i requires 0 <= i < |m| =>
      Feature(m[i].id, seq(|m[i].coords|, j requires 0 <= j < |m[i].coords| =>
        Mark(m[i].coords[j].coord, None, None))))
  }

  // ---------------------------------------------------------------------
  // The candidate pool

  /** A previous-frame coordinate enters the pool when the previous frame is
      frame 0, or when it was itself matched. */
  predicate Eligible(prevIndex: nat, c: Mark)
  {
    prevIndex == 0 || c.matchId.Some?
  }

  /** `x` is an eligible coordinate of the previous frame, tagged with its
      feature's id. */
  ghost predicate FromPrev(prev: Frame, prevIndex: nat, x: Cand)
  {
    exists i, j :: 0 <= i < |prev| && 0 <= j < |prev[i].marks| && Eligible(prevIndex, prev[i].marks[j])
      && x == Cand(prev[i].id, prev[i].marks[j].coord)
  }

  /** The eligibility test, as a value. */
  function EligibleAt(prevIndex: nat): Mark -> bool
  {
    c => Eligible(prevIndex, c)
  }

  /** One feature's share of `if_coords`: its eligible coordinates, tagged
      with its id, one entry per coordinate, in the feature's order. */
  function PoolOf(fid: int, cs: seq<Mark>, prevIndex: nat): (r: seq<Cand>)
    ensures |r| == |Kept(cs, EligibleAt(prevIndex))|
    ensures forall t :: 0 <= t < |r| ==> r[t] == Cand(fid, cs[Kept(cs, EligibleAt(prevIndex))[t]].coord)
    ensures forall j :: 0 <= j < |cs| && Eligible(prevIndex, cs[j]) ==> Cand(fid, cs[j].coord) in r
    ensures forall x :: x in r ==> exists j :: 0 <= j < |cs| && Eligible(prevIndex, cs[j]) && x == Cand(fid, cs[j].coord)
    ensures prevIndex == 0 ==> |r| == |cs|
  {
    var sel := Filter(cs, EligibleAt(prevIndex));
    var r := seq(|sel|, t requires 0 <= t < |sel| => Cand(fid, sel[t].coord));
    PoolOfMembers(fid, cs, prevIndex, r);
    if prevIndex == 0 then
      KeptAll(cs, EligibleAt(prevIndex));
      r
    else r
  }

  lemma PoolOfMembers(fid: int, cs: seq<Mark>, prevIndex: nat, r: seq<Cand>)
    requires |r| == |Kept(cs, EligibleAt(prevIndex))|
    requires forall t :: 0 <= t < |r| ==> r[t] == Cand(fid, cs[Kept(cs, EligibleAt(prevIndex))[t]].coord)
    ensures forall j :: 0 <= j < |cs| && Eligible(prevIndex, cs[j]) ==> Cand(fid, cs[j].coord) in r
    ensures forall x :: x in r ==> exists j :: 0 <= j < |cs| && Eligible(prevIndex, cs[j]) && x == Cand(fid, cs[j].coord)
  {
    var idx := Kept(cs, EligibleAt(prevIndex));
    forall j | 0 <= j < |cs| && Eligible(prevIndex, cs[j])
      ensures Cand(fid, cs[j].coord) in r
    {
      assert EligibleAt(prevIndex)(cs[j]);
      var t :| 0 <= t < |idx| && idx[t] == j;
      assert r[t] == Cand(fid, cs[j].coord);
    }
    forall x | x in r
      ensures exists j :: 0 <= j < |cs| && Eligible(prevIndex, cs[j]) && x == Cand(fid, cs[j].coord)
    {
      var t :| 0 <= t < |r| && r[t] == x;
      var j := idx[t];
      assert EligibleAt(prevIndex)(cs[j]);
      assert 0 <= j < |cs| && Eligible(prevIndex, cs[j]) && x == Cand(fid, cs[j].coord);
    }
  }

  /** Each feature's share of `if_coords`, in feature order. */
  function Shares(prev: Frame, prevIndex: nat): (bs: seq<seq<Cand>>)
    ensures |bs| == |prev|
    ensures forall i :: 0 <= i < |prev| ==> bs[i] == PoolOf(prev[i].id, prev[i].marks, prevIndex)
  {
    seq(|prev|, i requires 0 <= i < |prev| => PoolOf(prev[i].id, prev[i].marks, prevIndex))
  }

  /** The number of entries in all of `bs`. */
  function Total(bs: seq<seq<Cand>>): nat
  {
    if |bs| == 0 then 0 else Total(bs[..|bs| - 1]) + |bs[|bs| - 1]|
  }

  /** Where block `i` starts when the blocks of `bs` are laid end to end. */
  function Start(bs: seq<seq<Cand>>, i: nat): nat
    requires i <= |bs|
  {
    Total(bs[..i])
  }

  lemma StartNext(bs: seq<seq<Cand>>, i: nat)
    requires i < |bs|
    ensures Start(bs, i + 1) == Start(bs, i) + |bs[i]|
  {
    assert bs[..i + 1][..i] == bs[..i];
  }

  /** `r` is the blocks of `bs` laid end to end, in order, and nothing else. */
  ghost predicate LaidOut(bs: seq<seq<Cand>>, r: seq<Cand>)
  {
    && |r| == Start(bs, |bs|)
    && forall i :: 0 <= i < |bs| ==>
         Start(bs, i) + |bs[i]| <= |r| && r[Start(bs, i)..Start(bs, i) + |bs[i]|] == bs[i]
  }

  /** Block `i + 1` starts `|bs[0]|` further on than block `i` of `bs[1..]`. */
  lemma {:induction false} StartCons(bs: seq<seq<Cand>>, i: nat)
    requires i < |bs|
    ensures Start(bs, i + 1) == |bs[0]| + Start(bs[1..], i)
  {
    StartNext(bs, i);
    if i > 0 {
      StartCons(bs, i - 1);
      StartNext(bs[1..], i - 1);
      assert bs[1..][i - 1] == bs[i];
    } else {
      assert bs[1..][..0] == [];
    }
  }

  /** Laying out the first block in front of the rest laid out. */
  lemma LaidOutCons(bs: seq<seq<Cand>>, rest: seq<Cand>)
    requires |bs| > 0 && LaidOut(bs[1..], rest)
    ensures LaidOut(bs, bs[0] + rest)
  {
    var r := bs[0] + rest;
    StartCons(bs, |bs| - 1);
    assert bs[..|bs|] == bs && bs[1..][..|bs| - 1] == bs[1..];
    forall i | 0 <= i < |bs|
      ensures Start(bs, i) + |bs[i]| <= |r| && r[Start(bs, i)..Start(bs, i) + |bs[i]|] == bs[i]
    {
      BlockCons(bs, rest, i);
    }
  }

  lemma BlockCons(bs: seq<seq<Cand>>, rest: seq<Cand>, i: int)
    requires 0 <= i < |bs| && LaidOut(bs[1..], rest)
    ensures Start(bs, i) + |bs[i]| <= |bs[0] + rest|
    ensures (bs[0] + rest)[Start(bs, i)..Start(bs, i) + |bs[i]|] == bs[i]
  {
    var r := bs[0] + rest;
    if i > 0 {
      StartCons(bs, i - 1);
      assert bs[1..][i - 1] == bs[i];
      var o := Start(bs[1..], i - 1);
      assert o + |bs[i]| <= |rest| && rest[o..o + |bs[i]|] == bs[i];
      assert r[|bs[0]| + o..|bs[0]| + o + |bs[i]|] == rest[o..o + |bs[i]|];
    } else {
      assert bs[..0] == [];
      assert r[0..|bs[0]|] == bs[0];
    }
  }

  /** `if_coords`: the eligible coordinates of the previous frame, feature by
      feature, each in its feature's order, and nothing else. */
  function Pool(prev: Frame, prevIndex: nat): (r: seq<Cand>)
    ensures LaidOut(Shares(prev, prevIndex), r)
    ensures forall i, j :: 0 <= i < |prev| && 0 <= j < |prev[i].marks| && Eligible(prevIndex, prev[i].marks[j]) ==>
              Cand(prev[i].id, prev[i].marks[j].coord) in r
    ensures forall x :: x in r ==> FromPrev(prev, prevIndex, x)
  {
    if |prev| == 0 then []
    else
      var head := PoolOf(prev[0].id, prev[0].marks, prevIndex);
      var rest := Pool(prev[1..], prevIndex);
      PoolFrom(prev, prevIndex, head, rest);
      SharesCons(prev, prevIndex);
      LaidOutCons(Shares(prev, prevIndex), rest);
      head + rest
  }

  lemma SharesCons(prev: Frame, prevIndex: nat)
    requires |prev| > 0
    ensures Shares(prev, prevIndex)[1..] == Shares(prev[1..], prevIndex)
    ensures Shares(prev, prevIndex)[0] == PoolOf(prev[0].id, prev[0].marks, prevIndex)
  {
    var a := Shares(prev, prevIndex)[1..];
    var b := Shares(prev[1..], prevIndex);
    forall i | 0 <= i < |a|
      ensures a[i] == b[i]
    {
      assert prev[1..][i] == prev[i + 1];
    }
  }

  lemma PoolFrom(prev: Frame, prevIndex: nat, head: seq<Cand>, rest: seq<Cand>)
    requires |prev| > 0 && head == PoolOf(prev[0].id, prev[0].marks, prevIndex)
    requires forall i, j :: 0 <= i < |prev[1..]| && 0 <= j < |prev[1..][i].marks| && Eligible(prevIndex, prev[1..][i].marks[j]) ==>
               Cand(prev[1..][i].id, prev[1..][i].marks[j].coord) in rest
    requires forall x :: x in rest ==> FromPrev(prev[1..], prevIndex, x)
    ensures forall i, j :: 0 <= i < |prev| && 0 <= j < |prev[i].marks| && Eligible(prevIndex, prev[i].marks[j]) ==>
              Cand(prev[i].id, prev[i].marks[j].coord) in head + rest
    ensures forall x :: x in head + rest ==> FromPrev(prev, prevIndex, x)
  {
    forall x | x in head + rest
      ensures FromPrev(prev, prevIndex, x)
    {
      if x in head {
        var j :| 0 <= j < |prev[0].marks| && Eligible(prevIndex, prev[0].marks[j]) && x == Cand(prev[0].id, prev[0].marks[j].coord);
        assert 0 < |prev| && 0 <= j < |prev[0].marks|;
      } else {
        assert FromPrev(prev[1..], prevIndex, x);
        var i, j :| 0 <= i < |prev[1..]| && 0 <= j < |prev[1..][i].marks| && Eligible(prevIndex, prev[1..][i].marks[j])
                    && x == Cand(prev[1..][i].id, prev[1..][i].marks[j].coord);
        assert prev[1..][i] == prev[i + 1];
      }
    }
    forall i, j | 0 <= i < |prev| && 0 <= j < |prev[i].marks| && Eligible(prevIndex, prev[i].marks[j])
      ensures Cand(prev[i].id, prev[i].marks[j].coord) in head + rest
    {
      if i > 0 {
        assert prev[i] == prev[1..][i - 1];
      }
    }
  }

  // ---------------------------------------------------------------------
  // Choosing a candidate

  /** The indices `j` with `ds[j] < 20`, in order (`distind[distind[:,0] < 20]`). */
  function Close(ds: seq<real>): (idx: seq<nat>)
    ensures forall t :: 0 <= t < |idx| ==> idx[t] < |ds| && ds[idx[t]] < Threshold
    ensures forall t, u :: 0 <= t < u < |idx| ==> idx[t] < idx[u]
    ensures forall j :: 0 <= j < |ds| && ds[j] < Threshold ==> j in idx
  {
    if |ds| == 0 then []
    else
      var init := Close(ds[..|ds| - 1]);
      if ds[|ds| - 1] < Threshold then init + [|ds| - 1] else init
  }

  /** `np.argmin` over the close distances, mapped back to a pool index; `None`
      when nothing is close (the `ValueError` that skips the coordinate). The
      result is the first close index of least distance. */
  function Nearest(ds: seq<real>): (k: Option<nat>)
    ensures k.None? <==> forall j :: 0 <= j < |ds| ==> Threshold <= ds[j]
    ensures k.Some? ==> k.value < |ds| && ds[k.value] < Threshold
    ensures k.Some? ==> forall j :: 0 <= j < |ds| && ds[j] < Threshold ==> ds[k.value] <= ds[j]
    ensures k.Some? ==> forall j :: 0 <= j < k.value && ds[j] < Threshold ==> ds[k.value] < ds[j]
  {
    var idx := Close(ds);
    if |idx| == 0 then None
    else
      var sub := seq(|idx|, t requires 0 <= t < |idx| => ds[idx[t]]);
      var t := ArgMin(sub);
      NearestLeast(ds, idx, sub, t);
      Some(idx[t])
  }

  /** The first least entry `t` of the close distances `sub` is the first
      least close distance of `ds`. */
  lemma NearestLeast(ds: seq<real>, idx: seq<nat>, sub: seq<real>, t: nat)
    requires forall u :: 0 <= u < |idx| ==> idx[u] < |ds|
    requires forall u, v :: 0 <= u < v < |idx| ==> idx[u] < idx[v]
    requires forall j :: 0 <= j < |ds| && ds[j] < Threshold ==> j in idx
    requires |sub| == |idx| && forall u :: 0 <= u < |idx| ==> sub[u] == ds[idx[u]]
    requires t < |sub| && forall u :: 0 <= u < |sub| ==> sub[t] <= sub[u]
    requires forall u :: 0 <= u < t ==> sub[t] < sub[u]
    ensures forall j :: 0 <= j < |ds| && ds[j] < Threshold ==> ds[idx[t]] <= ds[j]
    ensures forall j :: 0 <= j < idx[t] && ds[j] < Threshold ==> ds[idx[t]] < ds[j]
  {
    forall j | 0 <= j < |ds| && ds[j] < Threshold
      ensures ds[idx[t]] <= ds[j]
      ensures j < idx[t] ==> ds[idx[t]] < ds[j]
    {
      var u :| 0 <= u < |idx| && idx[u] == j;
      assert sub[u] == ds[j];
      if j < idx[t] {
        assert u < t;
      }
    }
  }

  /** Filtering first and taking the argmin of everything agree: the chosen
      candidate is the overall first nearest one, whenever that is close. */
  lemma NearestIsArgMin(ds: seq<real>)
    requires |ds| > 0
    ensures Nearest(ds) == if ds[ArgMin(ds)] < Threshold then Some(ArgMin(ds)) else None
  {
    var a := ArgMin(ds);
    var k := Nearest(ds);
    if k.Some? {
      assert ds[a] <= ds[k.value] < Threshold;
      assert !(k.value < a);
      assert !(a < k.value);
    }
  }

  /** `cdist(icoords, [c])`: the distance from every pool entry to `p`. */
  function Distances(pool: seq<Cand>, p: Point, dist: Dist): (ds: seq<real>)
    ensures |ds| == |pool|
    ensures forall k :: 0 <= k < |pool| ==> ds[k] == dist(pool[k].at, p)
  {
    seq(|pool|, k requires 0 <= k < |pool| => dist(pool[k].at, p))
  }

  /** The pool without its entry at `k` (`if_coords.pop(k)`). */
  function Without(pool: seq<Cand>, k: nat): (r: seq<Cand>)
    requires k < |pool|
    ensures |r| == |pool| - 1
    ensures forall j :: 0 <= j < k ==> r[j] == pool[j]
    ensures forall j :: k <= j < |r| ==> r[j] == pool[j + 1]
    ensures multiset(r) + multiset{pool[k]} == multiset(pool)
  {
    assert pool == pool[..k] + [pool[k]] + pool[k + 1..];
    pool[..k] + pool[k + 1..]
  }

  /** A coordinate's claim on the previous frame, if it has one. */
  function ClaimOf(c: Mark): Option<Cand>
  {
    if c.matchId.Some? && c.matchCoord.Some? then Some(Cand(c.matchId.value, c.matchCoord.value)) else None
  }

  /** The pool index a coordinate at `p` claims, if any. */
  function Chosen(pool: seq<Cand>, p: Point, dist: Dist): (k: Option<nat>)
    ensures k.Some? ==> k.value < |pool|
  {
    Nearest(Distances(pool, p, dist))
  }

  /** The claim of a coordinate, as a sequence of zero or one pool entries. */
  function Claimed(c: Mark): seq<Cand>
  {
    match ClaimOf(c)
    case Some(x) => [x]
    case None => []
  }

  /** One coordinate (timeseries.py:124-149): reset its `'match_id'`, then
      claim the nearest close pool entry, removing it from the pool. The
      coordinate is matched exactly when some pool entry is closer than the
      threshold; a match takes one entry out of the pool, and nothing else. */
  function MatchMark(c: Mark, pool: seq<Cand>, dist: Dist): (r: (Mark, seq<Cand>))
    ensures r.0.coord == c.coord
    ensures r.0.matchId.Some? <==> exists k :: 0 <= k < |pool| && dist(pool[k].at, c.coord) < Threshold
    ensures r.0.matchId.None? ==> r.0.matchCoord == c.matchCoord && r.1 == pool
    ensures r.0.matchId.Some? ==>
              && Chosen(pool, c.coord, dist).Some?
              && ClaimOf(r.0) == Some(pool[Chosen(pool, c.coord, dist).value])
              && r.1 == Without(pool, Chosen(pool, c.coord, dist).value)
              && |r.1| == |pool| - 1
    ensures multiset(Claimed(r.0)) + multiset(r.1) == multiset(pool)
    ensures |Claimed(r.0)| + |r.1| == |pool|
  {
    var ds := Distances(pool, c.coord, dist);
    var reset := c.(matchId := None);
    match Nearest(ds)
    case None => (reset, pool)
    case Some(k) => (reset.(matchId := Some(pool[k].fid), matchCoord := Some(pool[k].at)), Without(pool, k))
  }

  /** The claims of a sequence of coordinates, in order. */
  function Claims(cs: seq<Mark>): seq<Cand>
  {
    if |cs| == 0 then [] else Claimed(cs[0]) + Claims(cs[1..])
  }

  /** The coordinates of one feature, in order, threading the pool. Every
      claim is a pool entry the call removes: claims and the remaining pool
      together are exactly the starting pool. */
  function MatchMarks(cs: seq<Mark>, pool: seq<Cand>, dist: Dist): (r: (seq<Mark>, seq<Cand>))
    ensures |r.0| == |cs|
    ensures forall j :: 0 <= j < |cs| ==> r.0[j].coord == cs[j].coord
    ensures multiset(Claims(r.0)) + multiset(r.1) == multiset(pool)
    ensures |r.1| + |Claims(r.0)| == |pool|
  {
    if |cs| == 0 then ([], pool)
    else
      var first := MatchMark(cs[0], pool, dist);
      var rest := MatchMarks(cs[1..], first.1, dist);
      var out := [first.0] + rest.0;
      assert out[0] == first.0 && out[1..] == rest.0;
      (out, rest.1)
  }

  function ClaimsOf(f: Frame): seq<Cand>
  {
    if |f| == 0 then [] else Claims(f[0].marks) + ClaimsOf(f[1..])
  }

  /** All features of the current frame, in order, threading the pool. */
  function MatchFeatures(f: Frame, pool: seq<Cand>, dist: Dist): (r: (Frame, seq<Cand>))
    ensures |r.0| == |f|
    ensures forall i :: 0 <= i < |f| ==> r.0[i].id == f[i].id && |r.0[i].marks| == |f[i].marks|
    ensures forall i, j :: 0 <= i < |f| && 0 <= j < |f[i].marks| ==> r.0[i].marks[j].coord == f[i].marks[j].coord
    ensures multiset(ClaimsOf(r.0)) + multiset(r.1) == multiset(pool)
    ensures |r.1| + |ClaimsOf(r.0)| == |pool|
  {
    if |f| == 0 then ([], pool)
    else
      var first := MatchMarks(f[0].marks, pool, dist);
      var rest := MatchFeatures(f[1..], first.1, dist);
      var out := [Feature(f[0].id, first.0)] + rest.0;
      assert out[0].marks == first.0 && out[1..] == rest.0;
      forall i | 1 <= i < |f|
        ensures out[i].id == f[i].id && |out[i].marks| == |f[i].marks|
        ensures forall j :: 0 <= j < |f[i].marks| ==> out[i].marks[j].coord == f[i].marks[j].coord
      {
        assert f[i] == f[1..][i - 1];
        assert out[i] == rest.0[i - 1];
      }
      (out, rest.1)
  }

  /** Frame `cur` matched against the already matched frame `prev` at index
      `prevIndex` (timeseries.py:99-149). */
  function MatchFrame(prev: Frame, prevIndex: nat, cur: Frame, dist: Dist): (r: Frame)
    ensures |r| == |cur|
    ensures forall i :: 0 <= i < |cur| ==> r[i].id == cur[i].id && |r[i].marks| == |cur[i].marks|
  {
    MatchFeatures(cur, Pool(prev, prevIndex), dist).0
  }

  /** Matching claims distinct pool entries: the claims of frame `cur` are a
      sub-multiset of `if_coords`, so no previous coordinate is claimed more
      often than it occurs, and each claim is an eligible coordinate of the
      previous frame. */
  lemma MatchFrameInjective(prev: Frame, prevIndex: nat, cur: Frame, dist: Dist)
    ensures multiset(ClaimsOf(MatchFrame(prev, prevIndex, cur, dist))) <= multiset(Pool(prev, prevIndex))
    ensures forall x :: x in ClaimsOf(MatchFrame(prev, prevIndex, cur, dist)) ==> FromPrev(prev, prevIndex, x)
  {
    var pool := Pool(prev, prevIndex);
    var claims := ClaimsOf(MatchFeatures(cur, pool, dist).0);
    assert multiset(claims) <= multiset(pool);
    forall x | x in claims
      ensures x in pool
    {
      assert x in multiset(claims);
    }
  }

  /** `get_matching_features` over a sequence of frames: frame 0 is left as
      it is and frame `i` is matched against the result for frame `i - 1`. */
  function MatchSequence(frames: seq<Frame>, dist: Dist): (r: seq<Frame>)
    ensures |r| == |frames|
    ensures |frames| > 0 ==> r[0] == frames[0]
    ensures forall i :: 1 <= i < |frames| ==> r[i] == MatchFrame(r[i - 1], i - 1, frames[i], dist)
  {
    Chain(frames, |frames|, (prev: Frame, k: nat, cur: Frame) => MatchFrame(prev, k, cur, dist))
  }

  /** The first `n` entries of `frames` chained by `step`: entry 0 is kept
      and entry `i` is `step` applied to the result for entry `i - 1`. */
  function Chain<F>(frames: seq<F>, n: nat, step: (F, nat, F) -> F): (r: seq<F>)
    requires n <= |frames|
    ensures |r| == n
    ensures n > 0 ==> r[0] == frames[0]
    ensures forall i :: 1 <= i < n ==> r[i] == step(r[i - 1], i - 1, frames[i])
  {
    if n <= 1 then frames[..n]
    else
      var init := Chain(frames, n - 1, step);
      init + [step(init[n - 2], n - 2, frames[n - 1])]
  }
}
