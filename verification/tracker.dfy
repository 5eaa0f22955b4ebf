/** The active/completed track state machine of lifetime.py: seeding from
    frame 0, extension or creation of a track for every accepted feature
    pair, and retirement of the tracks no pair extended. */
module Tracker {
  import opened Base
  import opened Seqs
  import opened Geometry
  import opened FrameMatch

  /** A row of `active`: the frame it began in, one feature id and one list
      of coordinates per frame it has been extended in, and whether the
      current frame extended it. */
  datatype Track = Track(start: int, fnums: seq<int>, xvals: seq<seq<real>>, yvals: seq<seq<real>>, alive: bool)

  /** A row of `completed`. */
  datatype Done = Done(start: int, end: int, xvals: seq<seq<real>>, yvals: seq<seq<real>>)

  datatype State = State(active: seq<Track>, completed: seq<Done>)

  /** `df[df.f_num == f].x.tolist()`: the x coordinates of feature `f`'s
      rows, one per row, in row order. */
  function XsOf(rows: seq<Row>, f: int): (xs: seq<real>)
    ensures |xs| == |Kept(rows, OfFeature(f))| <= |rows|
    ensures forall t :: 0 <= t < |xs| ==> xs[t] == rows[Kept(rows, OfFeature(f))[t]].pos.x
  {
    var sel := RowsOf(rows, f);
    seq(|sel|, t requires 0 <= t < |sel| => sel[t].pos.x)
  }

  /** `df[df.f_num == f].y.tolist()`, likewise. */
  function YsOf(rows: seq<Row>, f: int): (ys: seq<real>)
    ensures |ys| == |Kept(rows, OfFeature(f))| <= |rows|
    ensures forall t :: 0 <= t < |ys| ==> ys[t] == rows[Kept(rows, OfFeature(f))[t]].pos.y
  {
    var sel := RowsOf(rows, f);
    seq(|sel|, t requires 0 <= t < |sel| => sel[t].pos.y)
  }

  /** The x and y lists of one feature have one entry per row of that feature. */
  lemma CoordsLockstep(rows: seq<Row>, f: int)
    ensures |XsOf(rows, f)| == |YsOf(rows, f)| == multiset(FNums(rows))[f]
  {
    RowsOfCount(rows, f);
  }

  /** The lists of a track grow together. */
  ghost predicate Lockstep(t: Track)
  {
    |t.fnums| == |t.xvals| == |t.yvals| >= 1
  }

  /** The `active` table built from frame 0 (lifetime.py:39-53): one
      not-alive track per feature, in `unique()` order. */
  function Seed(frame0: seq<Row>): (a: seq<Track>)
    ensures |a| == |Dedup(FNums(frame0))|
    ensures forall k :: 0 <= k < |a| ==>
      && a[k].start == 0 && a[k].fnums == [Dedup(FNums(frame0))[k]] && !a[k].alive
      && a[k].xvals == [XsOf(frame0, a[k].fnums[0])] && a[k].yvals == [YsOf(frame0, a[k].fnums[0])]
      && Lockstep(a[k])
  {
    var ids := Dedup(FNums(frame0));
    seq(|ids|, k requires 0 <= k < |ids| => SeedTrack(frame0, ids[k]))
  }

  /** The frame-0 row of `active` for feature `f`. */
  function SeedTrack(frame0: seq<Row>, f: int): (t: Track)
    ensures t.start == 0 && t.fnums == [f] && !t.alive && Lockstep(t)
    ensures t.xvals == [XsOf(frame0, f)] && t.yvals == [YsOf(frame0, f)]
  {
    Track(0, [f], [XsOf(frame0, f)], [YsOf(frame0, f)], false)
  }

  /** `cf_fn` (lifetime.py:159-169): each track's id in frame i-1, read as
      `f_nums[i - start_frame - 1]` with Python's indexing; the first
      `IndexError` ends the list early. With `fixed`, a track begun in
      frame i itself has no frame-(i-1) id and contributes `None`. */
  function PrevIds(active: seq<Track>, i: int, fixed: bool): (cf: seq<Option<int>>)
    ensures |cf| <= |active|
    ensures forall k :: 0 <= k < |cf| ==> PrevOk(active[k], i, fixed, cf[k])
    ensures |cf| < |active| ==> Stops(active[|cf|], i, fixed)
  {
    if |active| == 0 then []
    else
      var t := active[0];
      if fixed && t.start >= i then
        var rest := PrevIds(active[1..], i, fixed);
        PrevCons(active, i, fixed, None, rest);
        [None] + rest
      else match PyGet(t.fnums, i - t.start - 1)
        case None => []
        case Some(v) =>
          var rest := PrevIds(active[1..], i, fixed);
          PrevCons(active, i, fixed, Some(v), rest);
          [Some(v)] + rest
  }

  /** `c` is what `cf_fn` holds for track `t`: `None` for a track begun in
      frame i under `fixed`, otherwise its frame-(i-1) id. */
  ghost predicate PrevOk(t: Track, i: int, fixed: bool, c: Option<int>)
  {
    if fixed && t.start >= i then c == None
    else c.Some? && PyGet(t.fnums, i - t.start - 1) == c
  }

  /** Reading track `t`'s frame-(i-1) id raises `IndexError`. */
  ghost predicate Stops(t: Track, i: int, fixed: bool)
  {
    !(fixed && t.start >= i) && PyGet(t.fnums, i - t.start - 1).None?
  }

  lemma PrevCons(active: seq<Track>, i: int, fixed: bool, c: Option<int>, rest: seq<Option<int>>)
    requires |active| > 0 && PrevOk(active[0], i, fixed, c)
    requires |rest| <= |active| - 1
    requires forall k :: 0 <= k < |rest| ==> PrevOk(active[1..][k], i, fixed, rest[k])
    requires |rest| < |active| - 1 ==> Stops(active[1..][|rest|], i, fixed)
    ensures forall k :: 0 <= k < |rest| + 1 ==> PrevOk(active[k], i, fixed, ([c] + rest)[k])
    ensures |rest| + 1 < |active| ==> Stops(active[|rest| + 1], i, fixed)
  {
    forall k | 0 <= k < |rest| + 1
      ensures PrevOk(active[k], i, fixed, ([c] + rest)[k])
    {
      if k > 0 {
        assert active[k] == active[1..][k - 1];
      }
    }
  }

  /** Lines 171-195 for one accepted pair: append the frame-i feature to the
      first track whose frame-(i-1) id is the key, or open a new track. */
  function Attach(active: seq<Track>, ci: seq<Row>, i: int, l: FrameMatch.Link, fixed: bool): (r: seq<Track>)
    ensures |r| == |active| || r == active + [Track(i, [l.target], [XsOf(ci, l.target)], [YsOf(ci, l.target)], true)]
  {
    var cf := PrevIds(active, i, fixed);
    var xs := XsOf(ci, l.target);
    var ys := YsOf(ci, l.target);
    if Some(l.key) in cf then
      var k := FirstIndex(cf, Some(l.key));
      var t := active[k];
      active[k := Track(t.start, t.fnums + [l.target], t.xvals + [xs], t.yvals + [ys], true)]
    else active + [Track(i, [l.target], [xs], [ys], true)]
  }

  /** `Attach` extends exactly the first track whose `cf_fn` entry is the
      key by one id and one coordinate list each, marking it alive, and
      leaves every other track as it was; with no such track it appends a
      new alive track begun in frame `i` with one-entry lists. */
  lemma AttachSpec(active: seq<Track>, ci: seq<Row>, i: int, l: FrameMatch.Link, fixed: bool)
    ensures var r := Attach(active, ci, i, l, fixed);
      var cf := PrevIds(active, i, fixed);
      if Some(l.key) in cf then
        var k := FirstIndex(cf, Some(l.key));
        && k < |active| && |r| == |active|
        && (forall j :: 0 <= j < k ==> cf[j] != Some(l.key))
        && r[k] == Track(active[k].start, active[k].fnums + [l.target],
                         active[k].xvals + [XsOf(ci, l.target)], active[k].yvals + [YsOf(ci, l.target)], true)
        && (forall j :: 0 <= j < |r| && j != k ==> r[j] == active[j])
      else r == active + [Track(i, [l.target], [XsOf(ci, l.target)], [YsOf(ci, l.target)], true)]
  {
  }

  function LinkAll(active: seq<Track>, ci: seq<Row>, i: int, links: seq<FrameMatch.Link>, fixed: bool): (r: seq<Track>)
    ensures |active| <= |r| <= |active| + |links|
    decreases |links|
  {
    if |links| == 0 then active
    else LinkAll(Attach(active, ci, i, links[0], fixed), ci, i, links[1..], fixed)
  }

  /** A track that leaves `active` at frame `i` goes to `completed` only if
      it began more than two frames earlier. */
  predicate Completes(t: Track, i: int)
  {
    !t.alive && i - t.start > 2
  }

  /** Lines 205-220, the tracks kept: exactly the alive ones, in order. */
  function Survivors(active: seq<Track>): (r: seq<Track>)
    ensures forall k :: 0 <= k < |r| ==> r[k].alive && r[k] in active
    ensures forall j :: 0 <= j < |active| && active[j].alive ==> active[j] in r
    ensures |r| == |Kept(active, IsAlive)|
    ensures forall t :: 0 <= t < |r| ==> r[t] == active[Kept(active, IsAlive)[t]]
  {
    Filter(active, IsAlive)
  }

  predicate IsAlive(t: Track)
  {
    t.alive
  }

  /** Lines 205-220, the rows appended to `completed`: one per not-alive
      track spanning more than two frames, in `active` order, with end
      frame `i`; the other not-alive tracks are discarded. */
  function Retired(active: seq<Track>, i: int): (r: seq<Done>)
    ensures |r| == |Kept(active, CompletesAt(i))|
    ensures forall t :: 0 <= t < |r| ==>
      var a := active[Kept(active, CompletesAt(i))[t]];
      r[t] == Done(a.start, i, a.xvals, a.yvals)
    ensures forall k :: 0 <= k < |r| ==> r[k].end == i && r[k].end - r[k].start > 2
    ensures forall j :: 0 <= j < |active| && Completes(active[j], i) ==>
      Done(active[j].start, i, active[j].xvals, active[j].yvals) in r
  {
    var sel := Filter(active, CompletesAt(i));
    var r := seq(|sel|, t requires 0 <= t < |sel| => Done(sel[t].start, i, sel[t].xvals, sel[t].yvals));
    RetiredMembers(active, i, r);
    r
  }

  function CompletesAt(i: int): Track -> bool
  {
    t => Completes(t, i)
  }

  /** The completed rows read at the completing positions are exactly the
      rows of the completing tracks, each ending at `i`. */
  lemma RetiredMembers(active: seq<Track>, i: int, r: seq<Done>)
    requires |r| == |Kept(active, CompletesAt(i))|
    requires forall t :: 0 <= t < |r| ==>
      var a := active[Kept(active, CompletesAt(i))[t]];
      r[t] == Done(a.start, i, a.xvals, a.yvals)
    ensures forall k :: 0 <= k < |r| ==> r[k].end == i && r[k].end - r[k].start > 2
    ensures forall j :: 0 <= j < |active| && Completes(active[j], i) ==>
      Done(active[j].start, i, active[j].xvals, active[j].yvals) in r
  {
    var idx := Kept(active, CompletesAt(i));
    forall k | 0 <= k < |r|
      ensures r[k].end == i && r[k].end - r[k].start > 2
    {
      assert CompletesAt(i)(active[idx[k]]);
    }
    forall j | 0 <= j < |active| && Completes(active[j], i)
      ensures Done(active[j].start, i, active[j].xvals, active[j].yvals) in r
    {
      assert CompletesAt(i)(active[j]);
      assert j in idx;
      var t :| 0 <= t < |idx| && idx[t] == j;
      assert r[t] == Done(active[j].start, i, active[j].xvals, active[j].yvals);
    }
  }

  /** `d` is the `completed` row of some track of `active` that completes at frame `i`. */
  ghost predicate RetiredFrom(d: Done, active: seq<Track>, i: int)
  {
    exists j :: 0 <= j < |active| && Completes(active[j], i)
      && d == Done(active[j].start, i, active[j].xvals, active[j].yvals)
  }

  /** Every row `Retired` appends comes from a track that completes. */
  lemma RetiredSound(active: seq<Track>, i: int)
    ensures forall k :: 0 <= k < |Retired(active, i)| ==> RetiredFrom(Retired(active, i)[k], active, i)
  {
    var r := Retired(active, i);
    var idx := Kept(active, CompletesAt(i));
    forall k | 0 <= k < |r|
      ensures RetiredFrom(r[k], active, i)
    {
      var j := idx[k];
      assert CompletesAt(i)(active[j]);
      assert r[k] == Done(active[j].start, i, active[j].xvals, active[j].yvals);
    }
  }

  function ClearAlive(active: seq<Track>): (r: seq<Track>)
    ensures |r| == |active|
    ensures forall k :: 0 <= k < |r| ==> r[k] == active[k].(alive := false)
  {
    seq(|active|, k requires 0 <= k < |active| => active[k].(alive := false))
  }

  /** What the tracker needs from the matching of frame i-1 against frame
      i (lifetime.py:135-157): frame i's table and the accepted pairs. The
      matching does not depend on the tracks, so it is computed per frame. */
  datatype Step = Step(ci: seq<Row>, links: seq<FrameMatch.Link>)

  function Pairs(prev: seq<Row>, cur: seq<Row>, maxd: real, dist: Dist): (r: Step)
    ensures |r.ci| == |cur|
    ensures DistinctLinkKeys(r.links)
  {
    var ci := MatchFrame(cur, prev, maxd, dist);
    var mi := MatchFrame(prev, ci, maxd, dist);
    VotesDistinct(mi);
    AgreedDistinct(Votes(mi), Votes(ci));
    Step(ci, Agreed(Votes(mi), Votes(ci)))
  }

  /** The steps of frames 1 .. n-1. */
  function Steps(tracings: seq<seq<Row>>, maxd: real, dist: Dist): (r: seq<Step>)
    requires |tracings| > 0
    ensures |r| == |tracings| - 1
    ensures forall k :: 0 <= k < |r| ==> DistinctLinkKeys(r[k].links)
  {
    seq(|tracings| - 1, k requires 0 <= k < |tracings| - 1 => Pairs(tracings[k], tracings[k + 1], maxd, dist))
  }

  /** One iteration of the frame loop (lifetime.py:66-220) for frame `i`. */
  function FrameStep(st: State, ci: seq<Row>, links: seq<FrameMatch.Link>, i: int, fixed: bool): (r: State)
    ensures forall k :: 0 <= k < |r.active| ==> r.active[k].alive
    ensures |st.completed| <= |r.completed|
    ensures forall k :: 0 <= k < |st.completed| ==> r.completed[k] == st.completed[k]
    ensures forall k :: |st.completed| <= k < |r.completed| ==>
      r.completed[k].end == i && r.completed[k].end - r.completed[k].start > 2
  {
    var linked := Linked(st.active, ci, links, i, fixed);
    State(Survivors(linked), st.completed + Retired(linked, i))
  }

  /** The frame loop, `steps[0]` being frame `i`. */
  function RunFrom(steps: seq<Step>, i: int, st: State, fixed: bool): (r: State)
    ensures |st.completed| <= |r.completed|
    ensures forall k :: 0 <= k < |st.completed| ==> r.completed[k] == st.completed[k]
    ensures forall k :: |st.completed| <= k < |r.completed| ==>
      i <= r.completed[k].end < i + |steps| && r.completed[k].end - r.completed[k].start > 2
    decreases |steps|
  {
    if |steps| == 0 then st
    else
      var next := FrameStep(st, steps[0].ci, steps[0].links, i, fixed);
      var r := RunFrom(steps[1..], i + 1, next, fixed);
      CompletedThrough(st.completed, next.completed, r.completed, i, |steps| - 1);
      r
  }

  /** Rows `a`, extended by frame `i`'s rows to `b`, then by the rows of the
      `n` frames after it to `c`: `c` extends `a` with rows of frames
      `i .. i + n`. */
  lemma CompletedThrough(a: seq<Done>, b: seq<Done>, c: seq<Done>, i: int, n: int)
    requires |a| <= |b| <= |c| && n >= 0
    requires forall k :: 0 <= k < |a| ==> b[k] == a[k]
    requires forall k :: |a| <= k < |b| ==> b[k].end == i && b[k].end - b[k].start > 2
    requires forall k :: 0 <= k < |b| ==> c[k] == b[k]
    requires forall k :: |b| <= k < |c| ==> i + 1 <= c[k].end < i + 1 + n && c[k].end - c[k].start > 2
    ensures forall k :: 0 <= k < |a| ==> c[k] == a[k]
    ensures forall k :: |a| <= k < |c| ==> i <= c[k].end < i + 1 + n && c[k].end - c[k].start > 2
  {
    forall k | |a| <= k < |c|
      ensures i <= c[k].end < i + 1 + n && c[k].end - c[k].start > 2
    {
      if k < |b| {
        assert c[k] == b[k];
      }
    }
  }

  /** The whole tracker (lifetime.py:36-220) over frames 0 .. n-1; frame 0
      only seeds the tracks (`init_frame` is 0 and the loop skips it).
      Without frames, `tracings[0]` raises `IndexError` (line 39). An empty
      frame 0 seeds an `active` table without columns, so line 68 only sets
      an attribute and `active[active.alive == False]` at line 205 raises
      `KeyError` in frame 1. */
  function Run(tracings: seq<seq<Row>>, maxd: real, dist: Dist, fixed: bool): (r: Result<State>)
    ensures r.Fail? <==> |tracings| == 0 || (|tracings| > 1 && |tracings[0]| == 0)
    ensures r.Fail? && |tracings| == 0 ==> r.error == IndexError
    ensures r.Fail? && |tracings| > 0 ==> r.error == KeyError
    ensures r.Ok? ==> forall k :: 0 <= k < |r.value.completed| ==>
      1 <= r.value.completed[k].end < |tracings| && r.value.completed[k].end - r.value.completed[k].start > 2
  {
    if |tracings| == 0 then Fail(IndexError)
    else if |tracings| > 1 && |tracings[0]| == 0 then Fail(KeyError)
    else
      var st := Frames(tracings, maxd, dist, fixed);
      FramesEnd(tracings, maxd, dist, fixed, st);
      Ok(st)
  }

  lemma FramesEnd(tracings: seq<seq<Row>>, maxd: real, dist: Dist, fixed: bool, st: State)
    requires |tracings| > 0 && st == Frames(tracings, maxd, dist, fixed)
    ensures forall k :: 0 <= k < |st.completed| ==>
      1 <= st.completed[k].end < |tracings| && st.completed[k].end - st.completed[k].start > 2
  {
  }

  /** The frame loop once frame 0 has seeded the tracks. */
  function Frames(tracings: seq<seq<Row>>, maxd: real, dist: Dist, fixed: bool): (r: State)
    requires |tracings| > 0
    ensures forall k :: 0 <= k < |r.completed| ==>
      1 <= r.completed[k].end < |tracings| && r.completed[k].end - r.completed[k].start > 2
  {
    RunFrom(Steps(tracings, maxd, dist), 1, State(Seed(tracings[0]), []), fixed)
  }

  /** Track `t` is well formed while frame `i` is processed: lists in
      lockstep, begun no later than `i`, and holding at least one id per
      frame since its start (one more once frame `i` extended it). */
  ghost predicate Grown(t: Track, i: int)
  {
    && Lockstep(t) && t.start <= i && |t.fnums| >= i - t.start
    && (t.alive ==> |t.fnums| >= i + 1 - t.start)
  }

  /** A well-formed track's entry in `cf_fn`: its frame-(i-1) id, which
      for a track begun in frame `i` is its last id (index -1); with
      `fixed`, `None` for such a track. */
  function PrevIdOf(t: Track, i: int, fixed: bool): Option<int>
    requires Grown(t, i)
  {
    if fixed && t.start >= i then None
    else if t.start == i then Some(t.fnums[|t.fnums| - 1])
    else Some(t.fnums[i - t.start - 1])
  }

  ghost predicate AllGrown(ts: seq<Track>, i: int)
  {
    forall k :: 0 <= k < |ts| ==> Grown(ts[k], i)
  }

  /** The `completed` rows from index `from` on hold one x list and one y
      list per frame of their life, or more. */
  ghost predicate Spans(ds: seq<Done>, from: int)
  {
    forall k :: 0 <= from <= k < |ds| ==> |ds[k].xvals| == |ds[k].yvals| >= ds[k].end - ds[k].start
  }

  /** When every track is well formed, `f_nums[i - start_frame - 1]` never
      raises: `cf_fn` has an entry for every track. */
  lemma {:induction false} PrevIdsTotal(active: seq<Track>, i: int, fixed: bool)
    requires AllGrown(active, i)
    ensures |PrevIds(active, i, fixed)| == |active|
    ensures forall k :: 0 <= k < |active| ==> PrevIds(active, i, fixed)[k] == PrevIdOf(active[k], i, fixed)
  {
    if |active| > 0 {
      assert Grown(active[0], i);
      PrevIdsTotal(active[1..], i, fixed);
      assert forall k :: 1 <= k < |active| ==> active[1..][k - 1] == active[k];
    }
  }

  /** Extending or opening a track keeps every track well formed. */
  lemma AttachGrown(active: seq<Track>, ci: seq<Row>, i: int, l: FrameMatch.Link, fixed: bool)
    requires AllGrown(active, i)
    ensures AllGrown(Attach(active, ci, i, l, fixed), i)
  {
    var cf := PrevIds(active, i, fixed);
    var r := Attach(active, ci, i, l, fixed);
    AttachSpec(active, ci, i, l, fixed);
    if Some(l.key) in cf {
      var k := FirstIndex(cf, Some(l.key));
      assert Grown(active[k], i);
      forall j | 0 <= j < |r|
        ensures Grown(r[j], i)
      {
        if j != k {
          assert r[j] == active[j];
        }
      }
    } else {
      forall j | 0 <= j < |r|
        ensures Grown(r[j], i)
      {
        if j < |active| {
          assert r[j] == active[j];
        }
      }
    }
  }

  lemma {:induction false} LinkAllGrown(active: seq<Track>, ci: seq<Row>, i: int, links: seq<FrameMatch.Link>, fixed: bool)
    requires AllGrown(active, i)
    ensures AllGrown(LinkAll(active, ci, i, links, fixed), i)
    decreases |links|
  {
    if |links| > 0 {
      var a := Attach(active, ci, i, links[0], fixed);
      AttachGrown(active, ci, i, links[0], fixed);
      assert AllGrown(a, i);
      LinkAllGrown(a, ci, i, links[1..], fixed);
      assert LinkAll(active, ci, i, links, fixed) == LinkAll(a, ci, i, links[1..], fixed);
    }
  }

  /** The state at the start of frame `i`: every track began before `i`
      and holds at least one id per frame since. */
  ghost predicate Ready(active: seq<Track>, i: int)
  {
    forall k :: 0 <= k < |active| ==>
      Lockstep(active[k]) && active[k].start < i && |active[k].fnums| >= i - active[k].start
  }

  /** The tracks kept at the end of frame `i` are ready for frame `i + 1`. */
  lemma SurvivorsReady(linked: seq<Track>, i: int)
    requires AllGrown(linked, i)
    ensures Ready(Survivors(linked), i + 1)
  {
    var kept := Survivors(linked);
    forall k | 0 <= k < |kept|
      ensures Lockstep(kept[k]) && kept[k].start < i + 1 && |kept[k].fnums| >= i + 1 - kept[k].start
    {
      var j :| 0 <= j < |linked| && linked[j] == kept[k];
      assert Grown(linked[j], i);
    }
  }

  /** A track completed at frame `i` holds at least one coordinate list per
      frame of its life. */
  lemma RetiredSpans(linked: seq<Track>, i: int)
    requires AllGrown(linked, i)
    ensures Spans(Retired(linked, i), 0)
  {
    var done := Retired(linked, i);
    RetiredSound(linked, i);
    forall k | 0 <= k < |done|
      ensures |done[k].xvals| == |done[k].yvals| >= done[k].end - done[k].start
    {
      assert RetiredFrom(done[k], linked, i);
      var j :| 0 <= j < |linked| && Completes(linked[j], i)
        && done[k] == Done(linked[j].start, i, linked[j].xvals, linked[j].yvals);
      assert Grown(linked[j], i);
    }
  }

  /** The tracks of frame `i` after every accepted pair is attached,
      before retirement. */
  function Linked(active: seq<Track>, ci: seq<Row>, links: seq<FrameMatch.Link>, i: int, fixed: bool): seq<Track>
  {
    LinkAll(ClearAlive(active), ci, i, links, fixed)
  }

  lemma LinkedGrown(active: seq<Track>, ci: seq<Row>, links: seq<FrameMatch.Link>, i: int, fixed: bool)
    requires Ready(active, i)
    ensures AllGrown(Linked(active, ci, links, i, fixed), i)
  {
    var c := ClearAlive(active);
    assert AllGrown(c, i);
    LinkAllGrown(c, ci, i, links, fixed);
    assert Linked(active, ci, links, i, fixed) == LinkAll(c, ci, i, links, fixed);
  }

  /** One frame of the tracker: the next frame starts well formed, and a
      completed track holds at least one coordinate list per frame of its
      life. */
  lemma FrameStepReady(st: State, ci: seq<Row>, links: seq<FrameMatch.Link>, i: int, fixed: bool)
    requires Ready(st.active, i)
    ensures Ready(FrameStep(st, ci, links, i, fixed).active, i + 1)
    ensures Spans(FrameStep(st, ci, links, i, fixed).completed, |st.completed|)
  {
    FrameStepActive(st, ci, links, i, fixed);
    FrameStepCompleted(st, ci, links, i, fixed);
  }

  lemma FrameStepActive(st: State, ci: seq<Row>, links: seq<FrameMatch.Link>, i: int, fixed: bool)
    requires Ready(st.active, i)
    ensures Ready(FrameStep(st, ci, links, i, fixed).active, i + 1)
  {
    var linked := Linked(st.active, ci, links, i, fixed);
    LinkedGrown(st.active, ci, links, i, fixed);
    SurvivorsReady(linked, i);
    assert FrameStep(st, ci, links, i, fixed).active == Survivors(linked);
  }

  lemma FrameStepCompleted(st: State, ci: seq<Row>, links: seq<FrameMatch.Link>, i: int, fixed: bool)
    requires Ready(st.active, i)
    ensures Spans(FrameStep(st, ci, links, i, fixed).completed, |st.completed|)
  {
    var linked := Linked(st.active, ci, links, i, fixed);
    LinkedGrown(st.active, ci, links, i, fixed);
    RetiredSpans(linked, i);
    SpansAppend(st.completed, Retired(linked, i));
    assert FrameStep(st, ci, links, i, fixed).completed == st.completed + Retired(linked, i);
  }

  lemma SpansAppend(before: seq<Done>, done: seq<Done>)
    requires Spans(done, 0)
    ensures Spans(before + done, |before|)
  {
    var all := before + done;
    forall k | |before| <= k < |all|
      ensures |all[k].xvals| == |all[k].yvals| >= all[k].end - all[k].start
    {
      assert all[k] == done[k - |before|];
    }
  }

  lemma {:induction false} RunFromReady(steps: seq<Step>, i: int, st: State, fixed: bool)
    requires Ready(st.active, i)
    ensures Spans(RunFrom(steps, i, st, fixed).completed, |st.completed|)
    decreases |steps|
  {
    if |steps| > 0 {
      var next := FrameStep(st, steps[0].ci, steps[0].links, i, fixed);
      FrameStepReady(st, steps[0].ci, steps[0].links, i, fixed);
      RunFromReady(steps[1..], i + 1, next, fixed);
      RunFromSpansStep(steps, i, st, fixed);
    }
  }

  /** The step of `RunFromReady`: the rows of the first frame, then those of the rest. */
  lemma RunFromSpansStep(steps: seq<Step>, i: int, st: State, fixed: bool)
    requires |steps| > 0
    requires var next := FrameStep(st, steps[0].ci, steps[0].links, i, fixed);
      Spans(next.completed, |st.completed|) && Spans(RunFrom(steps[1..], i + 1, next, fixed).completed, |next.completed|)
    ensures Spans(RunFrom(steps, i, st, fixed).completed, |st.completed|)
  {
    var next := FrameStep(st, steps[0].ci, steps[0].links, i, fixed);
    var r := RunFrom(steps[1..], i + 1, next, fixed);
    assert RunFrom(steps, i, st, fixed) == r;
    SpansThrough(next.completed, r.completed, |st.completed|);
  }

  /** Rows that extend `mid` and span from where `mid` ends span from
      wherever `mid` spans. */
  lemma SpansThrough(mid: seq<Done>, ds: seq<Done>, from: int)
    requires |mid| <= |ds| && forall k :: 0 <= k < |mid| ==> ds[k] == mid[k]
    requires Spans(mid, from) && Spans(ds, |mid|)
    ensures Spans(ds, from)
  {
    forall k | 0 <= from <= k < |ds|
      ensures |ds[k].xvals| == |ds[k].yvals| >= ds[k].end - ds[k].start
    {
      if k < |mid| {
        assert ds[k] == mid[k];
      }
    }
  }

  /** Over a whole run, a completed track holds at least `end - start`
      frames of coordinates (as written, possibly more; see `SameFrameRelink`). */
  lemma RunSpans(tracings: seq<seq<Row>>, maxd: real, dist: Dist, fixed: bool)
    ensures Run(tracings, maxd, dist, fixed).Ok? ==> Spans(Run(tracings, maxd, dist, fixed).value.completed, 0)
  {
    if Run(tracings, maxd, dist, fixed).Ok? {
      FramesSpans(tracings, maxd, dist, fixed);
    }
  }

  lemma FramesSpans(tracings: seq<seq<Row>>, maxd: real, dist: Dist, fixed: bool)
    requires |tracings| > 0
    ensures Spans(Frames(tracings, maxd, dist, fixed).completed, 0)
  {
    var seed := Seed(tracings[0]);
    assert Ready(seed, 1);
    RunFromReady(Steps(tracings, maxd, dist), 1, State(seed, []), fixed);
  }

  /** A frame-5 tracing with one coordinate for each of features 5 and 7. */
  function RelinkFrame(): seq<Row>
  {
    [Row(5, Point(1.0, 2.0), None, 0.0), Row(7, Point(3.0, 4.0), None, 0.0)]
  }

  /** Each feature of `RelinkFrame` contributes its one coordinate. */
  lemma RelinkCoords()
    ensures XsOf(RelinkFrame(), 5) == [1.0] && YsOf(RelinkFrame(), 5) == [2.0]
    ensures XsOf(RelinkFrame(), 7) == [3.0] && YsOf(RelinkFrame(), 7) == [4.0]
  {
    var ci := RelinkFrame();
    var k5 := Kept(ci, OfFeature(5));
    assert OfFeature(5)(ci[0]) && !OfFeature(5)(ci[1]);
    assert 0 in k5;
    assert k5 == [0];
    var k7 := Kept(ci, OfFeature(7));
    assert !OfFeature(7)(ci[0]) && OfFeature(7)(ci[1]);
    assert 1 in k7;
    assert k7 == [1];
  }

  lemma OpenFirst()
    ensures Attach([], RelinkFrame(), 5, Link(3, 5), false) == [Track(5, [5], [[1.0]], [[2.0]], true)]
  {
    assert PrevIds([], 5, false) == [];
    RelinkCoords();
  }

  lemma ExtendSame()
    ensures Attach([Track(5, [5], [[1.0]], [[2.0]], true)], RelinkFrame(), 5, Link(5, 7), false)
      == [Track(5, [5, 7], [[1.0], [3.0]], [[2.0], [4.0]], true)]
  {
    RelinkCoords();
    ExtendWith(RelinkFrame());
  }

  /** Pair (5, 7) extends the frame-5 track whose last id is 5 by feature
      7's coordinates, whatever the other rows of the frame. */
  lemma ExtendWith(ci: seq<Row>)
    requires XsOf(ci, 7) == [3.0] && YsOf(ci, 7) == [4.0]
    ensures Attach([Track(5, [5], [[1.0]], [[2.0]], true)], ci, 5, Link(5, 7), false)
      == [Track(5, [5, 7], [[1.0], [3.0]], [[2.0], [4.0]], true)]
  {
    var a1 := [Track(5, [5], [[1.0]], [[2.0]], true)];
    var a2 := Attach(a1, ci, 5, Link(5, 7), false);
    assert PyGet([5], -1) == Some(5);
    assert PrevIds(a1, 5, false) == [Some(5)];
    AttachSpec(a1, ci, 5, Link(5, 7), false);
    assert |a2| == 1;
    assert a2[0] == Track(5, [5] + [7], [[1.0]] + [[3.0]], [[2.0]] + [[4.0]], true);
    assert [5] + [7] == [5, 7];
    assert [[1.0]] + [[3.0]] == [[1.0], [3.0]] && [[2.0]] + [[4.0]] == [[2.0], [4.0]];
    assert a2 == [a2[0]];
  }

  /** As written, a track opened earlier in the same frame answers the
      lookup with its last id, a frame-i id: when a later key of frame i-1
      carries the same number, the pair is appended to that new track. Here
      pair (3, 5) opens a track and pair (5, 7) is then appended to it,
      although the track began in frame 5: it ends up with 2 ids and both
      features' coordinates for 1 frame. */
  lemma SameFrameRelink()
    ensures FrameStep(State([], []), RelinkFrame(), [Link(3, 5), Link(5, 7)], 5, false).active
      == [Track(5, [5, 7], [[1.0], [3.0]], [[2.0], [4.0]], true)]
  {
    var ci := RelinkFrame();
    var t2 := Track(5, [5, 7], [[1.0], [3.0]], [[2.0], [4.0]], true);
    OpenFirst();
    ExtendSame();
    assert LinkAll([t2], ci, 5, [], false) == [t2];
    assert LinkAll([Track(5, [5], [[1.0]], [[2.0]], true)], ci, 5, [Link(5, 7)], false) == [t2];
    assert ClearAlive([]) == [];
    assert Linked([], ci, [Link(3, 5), Link(5, 7)], 5, false) == [t2];
    assert Survivors([t2]) == [t2];
  }

  /** The corrected tracker while frame `i` is processed, `seen` being the
      keys attached so far: a track begun in frame `i` is alive with one id;
      an older track holds exactly one id per frame since its start, plus
      one if this frame extended it, which it did through one of `seen`. */
  ghost predicate Exact(t: Track, i: int, seen: seq<int>)
  {
    && Lockstep(t) && t.start <= i
    && (t.start == i ==> t.alive && |t.fnums| == 1)
    && (t.start < i ==>
          if t.alive then |t.fnums| == i - t.start + 1 && t.fnums[i - t.start - 1] in seen
          else |t.fnums| == i - t.start)
  }

  ghost predicate AllExact(ts: seq<Track>, i: int, seen: seq<int>)
  {
    forall k :: 0 <= k < |ts| ==> Exact(ts[k], i, seen)
  }

  /** The corrected tracker at the start of frame `i`: one id per frame. */
  ghost predicate ReadyExact(active: seq<Track>, i: int)
  {
    forall k :: 0 <= k < |active| ==>
      Lockstep(active[k]) && active[k].start < i && |active[k].fnums| == i - active[k].start
  }

  /** The `completed` rows from index `from` on hold exactly one x list and
      one y list per frame of their life. */
  ghost predicate ExactSpans(ds: seq<Done>, from: int)
  {
    forall k :: 0 <= from <= k < |ds| ==> |ds[k].xvals| == |ds[k].yvals| == ds[k].end - ds[k].start
  }

  lemma ExactGrown(ts: seq<Track>, i: int, seen: seq<int>)
    requires AllExact(ts, i, seen)
    ensures AllGrown(ts, i)
  {
    forall k | 0 <= k < |ts|
      ensures Grown(ts[k], i)
    {
      assert Exact(ts[k], i, seen);
    }
  }

  /** With the corrected lookup, a key not attached yet extends only a track
      this frame has not extended. */
  lemma AttachExact(active: seq<Track>, ci: seq<Row>, i: int, l: FrameMatch.Link, seen: seq<int>)
    requires AllExact(active, i, seen) && l.key !in seen
    ensures AllExact(Attach(active, ci, i, l, true), i, seen + [l.key])
  {
    ExactGrown(active, i, seen);
    PrevIdsTotal(active, i, true);
    AttachSpec(active, ci, i, l, true);
    var cf := PrevIds(active, i, true);
    var r := Attach(active, ci, i, l, true);
    if Some(l.key) in cf {
      var k := FirstIndex(cf, Some(l.key));
      assert Exact(active[k], i, seen);
      ExtendExact(active[k], i, l, seen, XsOf(ci, l.target), YsOf(ci, l.target));
      ExactReplace(active, r, k, i, seen, l.key);
    } else {
      ExactOpen(active, r, i, seen, l.key);
    }
  }

  /** Replacing track `k` by one exact for `seen + [key]` keeps every
      track exact. */
  lemma ExactReplace(active: seq<Track>, r: seq<Track>, k: int, i: int, seen: seq<int>, key: int)
    requires AllExact(active, i, seen) && |r| == |active| && 0 <= k < |r|
    requires Exact(r[k], i, seen + [key])
    requires forall j :: 0 <= j < |r| && j != k ==> r[j] == active[j]
    ensures AllExact(r, i, seen + [key])
  {
    forall j | 0 <= j < |r|
      ensures Exact(r[j], i, seen + [key])
    {
      if j != k {
        assert r[j] == active[j] && Exact(active[j], i, seen);
      }
    }
  }

  /** Opening a new track in frame `i` keeps every track exact. */
  lemma ExactOpen(active: seq<Track>, r: seq<Track>, i: int, seen: seq<int>, key: int)
    requires AllExact(active, i, seen) && |r| == |active| + 1
    requires forall j :: 0 <= j < |active| ==> r[j] == active[j]
    requires Exact(r[|active|], i, seen + [key])
    ensures AllExact(r, i, seen + [key])
  {
    forall j | 0 <= j < |r|
      ensures Exact(r[j], i, seen + [key])
    {
      if j < |active| {
        assert r[j] == active[j] && Exact(active[j], i, seen);
      }
    }
  }

  lemma ExtendExact(t: Track, i: int, l: FrameMatch.Link, seen: seq<int>, xs: seq<real>, ys: seq<real>)
    requires l.key !in seen && Exact(t, i, seen)
    requires Grown(t, i) && PrevIdOf(t, i, true) == Some(l.key)
    ensures !t.alive && t.start < i
    ensures Exact(Track(t.start, t.fnums + [l.target], t.xvals + [xs], t.yvals + [ys], true), i, seen + [l.key])
  {
    assert t.start < i;
    assert t.fnums[i - t.start - 1] == l.key;
    var u := Track(t.start, t.fnums + [l.target], t.xvals + [xs], t.yvals + [ys], true);
    assert u.fnums[i - u.start - 1] == l.key;
  }

  function Keys(links: seq<FrameMatch.Link>): (ks: seq<int>)
    ensures |ks| == |links| && forall k :: 0 <= k < |links| ==> ks[k] == links[k].key
  {
    seq(|links|, k requires 0 <= k < |links| => links[k].key)
  }

  lemma {:induction false} LinkAllExact(active: seq<Track>, ci: seq<Row>, i: int, links: seq<FrameMatch.Link>, seen: seq<int>)
    requires AllExact(active, i, seen) && DistinctLinkKeys(links)
    requires forall k :: 0 <= k < |links| ==> links[k].key !in seen
    ensures AllExact(LinkAll(active, ci, i, links, true), i, seen + Keys(links))
    decreases |links|
  {
    if |links| == 0 {
      assert seen + Keys(links) == seen;
    } else {
      var a := Attach(active, ci, i, links[0], true);
      var seen' := seen + [links[0].key];
      AttachExact(active, ci, i, links[0], seen);
      LinkTail(links, seen);
      LinkAllExact(a, ci, i, links[1..], seen');
    }
  }

  /** After the first link is attached, the rest still have distinct keys
      none of which has been seen. */
  lemma LinkTail(links: seq<FrameMatch.Link>, seen: seq<int>)
    requires |links| > 0 && DistinctLinkKeys(links)
    requires forall k :: 0 <= k < |links| ==> links[k].key !in seen
    ensures DistinctLinkKeys(links[1..])
    ensures forall k :: 0 <= k < |links[1..]| ==> links[1..][k].key !in seen + [links[0].key]
    ensures seen + [links[0].key] + Keys(links[1..]) == seen + Keys(links)
  {
    forall k | 0 <= k < |links[1..]|
      ensures links[1..][k].key !in seen + [links[0].key]
    {
      assert links[1..][k] == links[k + 1];
    }
  }

  /** One frame of the corrected tracker keeps exactly one id per frame, and
      each track it completes holds exactly one coordinate list per frame
      of its life. */
  lemma FrameStepExact(st: State, ci: seq<Row>, links: seq<FrameMatch.Link>, i: int)
    requires ReadyExact(st.active, i) && DistinctLinkKeys(links)
    ensures ReadyExact(FrameStep(st, ci, links, i, true).active, i + 1)
    ensures ExactSpans(FrameStep(st, ci, links, i, true).completed, |st.completed|)
  {
    var linked := Linked(st.active, ci, links, i, true);
    LinkedExact(st.active, ci, links, i);
    SurvivorsExact(linked, i, Keys(links));
    RetiredExact(linked, i, Keys(links));
    ExactSpansAppend(st.completed, Retired(linked, i));
    assert FrameStep(st, ci, links, i, true) == State(Survivors(linked), st.completed + Retired(linked, i));
  }

  /** Attaching one frame's pairs to the cleared tracks keeps them exact. */
  lemma LinkedExact(active: seq<Track>, ci: seq<Row>, links: seq<FrameMatch.Link>, i: int)
    requires ReadyExact(active, i) && DistinctLinkKeys(links)
    ensures AllExact(Linked(active, ci, links, i, true), i, Keys(links))
  {
    var c := ClearAlive(active);
    assert AllExact(c, i, []);
    LinkAllExact(c, ci, i, links, []);
    assert [] + Keys(links) == Keys(links);
  }

  /** The surviving exact tracks hold one id per frame up to frame `i`. */
  lemma SurvivorsExact(linked: seq<Track>, i: int, seen: seq<int>)
    requires AllExact(linked, i, seen)
    ensures ReadyExact(Survivors(linked), i + 1)
  {
    var kept := Survivors(linked);
    var idx := Kept(linked, IsAlive);
    forall k | 0 <= k < |kept|
      ensures Lockstep(kept[k]) && kept[k].start < i + 1 && |kept[k].fnums| == i + 1 - kept[k].start
    {
      assert kept[k] == linked[idx[k]];
      assert Exact(linked[idx[k]], i, seen);
    }
  }

  /** The rows retired from exact tracks hold one list per frame of their life. */
  lemma RetiredExact(linked: seq<Track>, i: int, seen: seq<int>)
    requires AllExact(linked, i, seen)
    ensures ExactSpans(Retired(linked, i), 0)
  {
    var done := Retired(linked, i);
    var idx := Kept(linked, CompletesAt(i));
    forall k | 0 <= k < |done|
      ensures |done[k].xvals| == |done[k].yvals| == done[k].end - done[k].start
    {
      var a := linked[idx[k]];
      assert CompletesAt(i)(a);
      assert done[k] == Done(a.start, i, a.xvals, a.yvals);
      assert Exact(a, i, seen);
    }
  }

  lemma ExactSpansAppend(before: seq<Done>, done: seq<Done>)
    requires ExactSpans(done, 0)
    ensures ExactSpans(before + done, |before|)
  {
    var all := before + done;
    forall k | |before| <= k < |all|
      ensures |all[k].xvals| == |all[k].yvals| == all[k].end - all[k].start
    {
      assert all[k] == done[k - |before|];
    }
  }

  ghost predicate StepsDistinct(steps: seq<Step>)
  {
    forall k :: 0 <= k < |steps| ==> DistinctLinkKeys(steps[k].links)
  }

  lemma {:induction false} RunFromExact(steps: seq<Step>, i: int, st: State)
    requires ReadyExact(st.active, i) && StepsDistinct(steps)
    ensures ExactSpans(RunFrom(steps, i, st, true).completed, |st.completed|)
    decreases |steps|
  {
    if |steps| > 0 {
      var next := FrameStep(st, steps[0].ci, steps[0].links, i, true);
      FrameStepExact(st, steps[0].ci, steps[0].links, i);
      assert StepsDistinct(steps[1..]) by {
        forall k | 0 <= k < |steps[1..]|
          ensures DistinctLinkKeys(steps[1..][k].links)
        {
          assert steps[1..][k] == steps[k + 1];
        }
      }
      RunFromExact(steps[1..], i + 1, next);
      RunFromExactStep(steps, i, st);
    }
  }

  /** The step of `RunFromExact`: the rows of the first frame, then those of the rest. */
  lemma RunFromExactStep(steps: seq<Step>, i: int, st: State)
    requires |steps| > 0
    requires var next := FrameStep(st, steps[0].ci, steps[0].links, i, true);
      ExactSpans(next.completed, |st.completed|) && ExactSpans(RunFrom(steps[1..], i + 1, next, true).completed, |next.completed|)
    ensures ExactSpans(RunFrom(steps, i, st, true).completed, |st.completed|)
  {
    var next := FrameStep(st, steps[0].ci, steps[0].links, i, true);
    var r := RunFrom(steps[1..], i + 1, next, true);
    assert RunFrom(steps, i, st, true) == r;
    ExactSpansThrough(next.completed, r.completed, |st.completed|);
  }

  /** `SpansThrough` for exact rows. */
  lemma ExactSpansThrough(mid: seq<Done>, ds: seq<Done>, from: int)
    requires |mid| <= |ds| && forall k :: 0 <= k < |mid| ==> ds[k] == mid[k]
    requires ExactSpans(mid, from) && ExactSpans(ds, |mid|)
    ensures ExactSpans(ds, from)
  {
    forall k | 0 <= from <= k < |ds|
      ensures |ds[k].xvals| == |ds[k].yvals| == ds[k].end - ds[k].start
    {
      if k < |mid| {
        assert ds[k] == mid[k];
      }
    }
  }

  /** With the corrected lookup, every completed track holds exactly one
      coordinate list per frame from its start frame up to (not including)
      its end frame. */
  lemma RunExact(tracings: seq<seq<Row>>, maxd: real, dist: Dist)
    ensures Run(tracings, maxd, dist, true).Ok? ==> ExactSpans(Run(tracings, maxd, dist, true).value.completed, 0)
  {
    if Run(tracings, maxd, dist, true).Ok? {
      FramesExact(tracings, maxd, dist);
    }
  }

  lemma FramesExact(tracings: seq<seq<Row>>, maxd: real, dist: Dist)
    requires |tracings| > 0
    ensures ExactSpans(Frames(tracings, maxd, dist, true).completed, 0)
  {
    var seed := Seed(tracings[0]);
    assert ReadyExact(seed, 1);
    RunFromExact(Steps(tracings, maxd, dist), 1, State(seed, []));
  }
}
