/** Comparison of manual and automatic tracings (optimization/functions.py):
    grouping parsed CSV rows into features, and the two greedy matchers that
    flag manual and automatic features as matched. */
module Optimization {
  import opened Base
  import opened Seqs
  import opened Geometry

  // ---------------------------------------------------------------------
  // Grouping rows into features

  /** A parsed CSV row: the feature number as written (a float), then x, y. */
  datatype CsvRow = CsvRow(key: real, x: real, y: real)

  /** A run of rows under one feature number. */
  datatype Group = Group(id: int, xs: seq<real>, ys: seq<real>)

  /** The state of the reading loop: the current `f_num` (`None` before the
      first row), the features appended so far and the feature being built. */
  datatype Reader = Reader(fnum: Option<int>, done: seq<Group>, cur: Group)

  /** One row of the loop (functions.py:48-61). A row with the current
      feature number extends the current feature; any other row appends the
      current feature (if it holds coordinates) and starts a new one. */
  function Advance(s: Reader, row: CsvRow): Reader
  {
    var id := Trunc(row.key);
    if s.fnum == Some(id) then
      s.(cur := Group(s.cur.id, s.cur.xs + [row.x], s.cur.ys + [row.y]))
    else
      var done := if |s.cur.xs| != 0 && |s.cur.ys| != 0 then s.done + [s.cur] else s.done;
      Reader(Some(id), done, Group(id, [row.x], [row.y]))
  }

  /** The loop over all rows of one file. */
  function Read(rows: seq<CsvRow>): Reader
  {
    if |rows| == 0 then Reader(None, [], Group(0, [], []))
    else Advance(Read(rows[..|rows| - 1]), rows[|rows| - 1])
  }

  /** One coordinate with the feature number it was read under. */
  datatype Cell = Cell(id: int, x: real, y: real)

  /** The rows, parsed: `(int(float(row[0])), float(row[1]), float(row[2]))`. */
  function Parsed(rows: seq<CsvRow>): (cs: seq<Cell>)
    ensures |cs| == |rows|
    ensures forall i :: 0 <= i < |rows| ==> cs[i] == Cell(Trunc(rows[i].key), rows[i].x, rows[i].y)
  {
    seq(|rows|, i requires 0 <= i < |rows| => Cell(Trunc(rows[i].key), rows[i].x, rows[i].y))
  }

  /** A group's coordinates, each with the group's feature number. */
  function Cells(g: Group): seq<Cell>
    requires |g.xs| == |g.ys|
  {
    seq(|g.xs|, j requires 0 <= j < |g.xs| => Cell(g.id, g.xs[j], g.ys[j]))
  }

  /** Groups have paired, non-empty coordinate lists, and neighbouring groups
      have different feature numbers: they are maximal runs. */
  ghost predicate Runs(gs: seq<Group>)
  {
    && (forall k :: 0 <= k < |gs| ==> |gs[k].xs| == |gs[k].ys| > 0)
    && (forall k :: 0 < k < |gs| ==> gs[k - 1].id != gs[k].id)
  }

  /** The coordinates of all groups, in order. */
  function Expand(gs: seq<Group>): seq<Cell>
    requires forall k :: 0 <= k < |gs| ==> |gs[k].xs| == |gs[k].ys|
  {
    if |gs| == 0 then [] else Expand(gs[..|gs| - 1]) + Cells(gs[|gs| - 1])
  }

  /** What the loop keeps between rows: every row read so far is in the
      appended features or the current one, in order, as maximal runs, and the
      current feature carries `f_num`. */
  ghost predicate ReaderOk(s: Reader, rows: seq<CsvRow>)
  {
    if |rows| == 0 then s == Reader(None, [], Group(0, [], []))
    else
      && s.fnum == Some(s.cur.id)
      && Runs(s.done + [s.cur])
      && Expand(s.done + [s.cur]) == Parsed(rows)
  }

  lemma {:induction false} ReadOk(rows: seq<CsvRow>)
    ensures ReaderOk(Read(rows), rows)
  {
    if |rows| > 0 {
      var init := rows[..|rows| - 1];
      var row := rows[|rows| - 1];
      assert rows == init + [row];
      ReadOk(init);
      var s := Read(init);
      assert Read(rows) == Advance(s, row);
      if |init| == 0 {
        ReadFirst(row);
      } else if s.fnum == Some(Trunc(row.key)) {
        AdvanceSame(s, init, row);
      } else {
        AdvanceNew(s, init, row);
      }
    }
  }

  lemma ReadFirst(row: CsvRow)
    ensures ReaderOk(Advance(Reader(None, [], Group(0, [], [])), row), [row])
  {
    var t := Advance(Reader(None, [], Group(0, [], [])), row);
    assert t.done + [t.cur] == [t.cur];
    assert Expand([t.cur]) == Expand([]) + Cells(t.cur);
  }

  /** A row with the current number lengthens the current run. */
  lemma AdvanceSame(s: Reader, rows: seq<CsvRow>, row: CsvRow)
    requires |rows| > 0 && ReaderOk(s, rows) && s.fnum == Some(Trunc(row.key))
    ensures ReaderOk(Advance(s, row), rows + [row])
  {
    var t := Advance(s, row);
    var gs := s.done + [s.cur];
    var hs := t.done + [t.cur];
    assert hs[..|hs| - 1] == s.done == gs[..|gs| - 1];
    assert Cells(t.cur) == Cells(s.cur) + [Cell(Trunc(row.key), row.x, row.y)];
    assert Parsed(rows + [row]) == Parsed(rows) + [Cell(Trunc(row.key), row.x, row.y)];
  }

  /** A row with another number closes the current run and opens a new one. */
  lemma AdvanceNew(s: Reader, rows: seq<CsvRow>, row: CsvRow)
    requires |rows| > 0 && ReaderOk(s, rows) && s.fnum != Some(Trunc(row.key))
    ensures ReaderOk(Advance(s, row), rows + [row])
  {
    var t := Advance(s, row);
    var gs := s.done + [s.cur];
    var hs := t.done + [t.cur];
    assert t.done == gs;
    assert hs[..|hs| - 1] == gs;
    assert Parsed(rows + [row]) == Parsed(rows) + [Cell(Trunc(row.key), row.x, row.y)];
  }

  /** The features of a file as maximal runs of equal feature numbers: every
      run, including the last one. */
  function AllGroups(rows: seq<CsvRow>): (gs: seq<Group>)
    ensures Runs(gs)
    ensures Expand(gs) == Parsed(rows)
  {
    ReadOk(rows);
    if |rows| == 0 then [] else Read(rows).done + [Read(rows).cur]
  }

  /** A file's features as the loop leaves them: a feature is appended only
      when a row with another number arrives, so the last run is never
      appended. */
  function GroupsAsWritten(rows: seq<CsvRow>): seq<Group>
  {
    Read(rows).done
  }

  /** The features kept are the runs without the last one. */
  lemma GroupsAsWrittenDropLast(rows: seq<CsvRow>)
    requires |rows| > 0
    ensures GroupsAsWritten(rows) == AllGroups(rows)[..|AllGroups(rows)| - 1]
  {
  }

  /** A file of one feature yields no feature at all. */
  lemma GroupsAsWrittenLoseOnlyFeature()
    ensures GroupsAsWritten([CsvRow(1.0, 2.0, 3.0)]) == []
    ensures |AllGroups([CsvRow(1.0, 2.0, 3.0)])| == 1
  {
  }

  // ---------------------------------------------------------------------
  // Features with their averages

  /** A traced line: its coordinates, their averages, and the `matched` flag
      (`None`, which only the flag's truth value is read for, is `false`). */
  datatype Line = Line(xs: seq<real>, ys: seq<real>, avgx: real, avgy: real, matched: bool)

  function ToLine(g: Group): (l: Line)
    requires |g.xs| > 0 && |g.ys| > 0
    ensures l.xs == g.xs && l.ys == g.ys && !l.matched
    ensures l.avgx * |g.xs| as real == Sum(g.xs) && l.avgy * |g.ys| as real == Sum(g.ys)
  {
    Line(g.xs, g.ys, Mean(g.xs), Mean(g.ys), false)
  }

  /** One line per group, in order. */
  function Lines(gs: seq<Group>): (ls: seq<Line>)
    requires forall k :: 0 <= k < |gs| ==> |gs[k].xs| > 0 && |gs[k].ys| > 0
    ensures |ls| == |gs|
    ensures forall k :: 0 <= k < |ls| ==> ls[k] == ToLine(gs[k])
  {
    seq(|gs|, k requires 0 <= k < |gs| => ToLine(gs[k]))
  }

  /** `get_tracing_data` for one file, with the last feature kept: one line per
      run of rows, unmatched, with the averages of its coordinates. */
  function TracingData(rows: seq<CsvRow>): (ls: seq<Line>)
    ensures |ls| == |AllGroups(rows)|
    ensures forall k :: 0 <= k < |ls| ==> ls[k] == ToLine(AllGroups(rows)[k])
  {
    Lines(AllGroups(rows))
  }

  /** `get_tracing_data` for one file, as written: the last run is lost. */
  function TracingDataAsWritten(rows: seq<CsvRow>): (ls: seq<Line>)
    ensures |rows| == 0 ==> ls == []
    ensures |rows| > 0 ==> ls == TracingData(rows)[..|TracingData(rows)| - 1]
  {
    if |rows| == 0 then []
    else
      AsWrittenLines(rows);
      Lines(GroupsAsWritten(rows))
  }

  /** The lines of the features kept are the lines of all runs but the last. */
  lemma AsWrittenLines(rows: seq<CsvRow>)
    requires |rows| > 0
    ensures forall k :: 0 <= k < |GroupsAsWritten(rows)| ==>
              |GroupsAsWritten(rows)[k].xs| > 0 && |GroupsAsWritten(rows)[k].ys| > 0
    ensures Lines(GroupsAsWritten(rows)) == TracingData(rows)[..|TracingData(rows)| - 1]
  {
    var gs := GroupsAsWritten(rows);
    var all := AllGroups(rows);
    GroupsAsWrittenDropLast(rows);
    forall k | 0 <= k < |gs|
      ensures gs[k] == all[k] && |gs[k].xs| > 0 && |gs[k].ys| > 0
    {
    }
    var ls := Lines(gs);
    var t := TracingData(rows);
    forall k | 0 <= k < |ls|
      ensures ls[k] == t[k]
    {
    }
    assert ls == t[..|t| - 1];
  }

  // ---------------------------------------------------------------------
  // Matched flags

  function CountMatched(ls: seq<Line>): nat
  {
    if |ls| == 0 then 0
    else CountMatched(ls[..|ls| - 1]) + (if ls[|ls| - 1].matched then 1 else 0)
  }

  /** `ls[k]['matched'] = True`. */
  function Flag(ls: seq<Line>, k: nat): (r: seq<Line>)
    requires k < |ls|
    ensures |r| == |ls| && r[k].matched
    ensures forall i :: 0 <= i < |ls| && i != k ==> r[i] == ls[i]
  {
    ls[k := ls[k].(matched := true)]
  }

  /** Flagging an unmatched line adds one to the matched count. */
  lemma {:induction false} FlagCount(ls: seq<Line>, k: nat)
    requires k < |ls| && !ls[k].matched
    ensures CountMatched(Flag(ls, k)) == CountMatched(ls) + 1
  {
    var r := Flag(ls, k);
    var n := |ls| - 1;
    if k < n {
      FlagCount(ls[..n], k);
      assert r[..n] == Flag(ls[..n], k);
    } else {
      assert r[..n] == ls[..n];
    }
  }

  /** `b` is `a` with some flags raised and nothing else changed. */
  ghost predicate Grows(a: seq<Line>, b: seq<Line>)
  {
    && |a| == |b|
    && forall i :: 0 <= i < |a| ==> b[i] == a[i].(matched := b[i].matched) && (a[i].matched ==> b[i].matched)
  }

  /** Centre of mass of a line, `(avgx, avgy)`. */
  function Center(l: Line): Point
  {
    Point(l.avgx, l.avgy)
  }

  // ---------------------------------------------------------------------
  // Choosing the closest admissible value

  /** A value the matchers accept: defined, and within `maxd`. */
  predicate Admits(v: Option<real>, maxd: real)
  {
    v.Some? && v.value <= maxd
  }

  /** The loop `if d <= maxd and d < closest: closest = d` with `closest`
      starting at infinity: the first position holding the least admissible
      value. `None` stands for a skipped or undefined (`nan`) value. */
  function FirstMin(vals: seq<Option<real>>, maxd: real): (t: Option<nat>)
    ensures t.None? <==> forall j :: 0 <= j < |vals| ==> !Admits(vals[j], maxd)
    ensures t.Some? ==> t.value < |vals| && Admits(vals[t.value], maxd)
    ensures t.Some? ==> forall j :: 0 <= j < |vals| && Admits(vals[j], maxd) ==> vals[t.value].value <= vals[j].value
    ensures t.Some? ==> forall j :: 0 <= j < t.value && Admits(vals[j], maxd) ==> vals[t.value].value < vals[j].value
  {
    if |vals| == 0 then None
    else
      var n := |vals| - 1;
      var b := FirstMin(vals[..n], maxd);
      assert forall j :: 0 <= j < n ==> vals[..n][j] == vals[j];
      if Admits(vals[n], maxd) && (b.None? || vals[n].value < vals[b.value].value) then Some(n) else b
  }

  // ---------------------------------------------------------------------
  // Matching by centre of mass

  /** The distances from manual line `m` to the autos still unmatched
      (`None` for an auto already matched). */
  function CenterDists(m: Line, autos: seq<Line>, dist: Dist): (vals: seq<Option<real>>)
    ensures |vals| == |autos|
    ensures forall k :: 0 <= k < |autos| ==>
              vals[k] == if autos[k].matched then None else Some(dist(Center(m), Center(autos[k])))
  {
    seq(|autos|, k requires 0 <= k < |autos| =>
      if autos[k].matched then None else Some(dist(Center(m), Center(autos[k]))))
  }

  /** The auto a manual line claims: the first unmatched auto of least
      centre distance, if that distance is within `maxd`. */
  function Pick(m: Line, autos: seq<Line>, maxd: real, dist: Dist): (k: Option<nat>)
    ensures k.Some? ==> k.value < |autos| && !autos[k.value].matched
    ensures k.Some? ==> dist(Center(m), Center(autos[k.value])) <= maxd
    ensures k.Some? ==> forall j :: 0 <= j < |autos| && !autos[j].matched && dist(Center(m), Center(autos[j])) <= maxd ==>
              dist(Center(m), Center(autos[k.value])) <= dist(Center(m), Center(autos[j]))
    ensures k.Some? ==> forall j :: 0 <= j < k.value && !autos[j].matched && dist(Center(m), Center(autos[j])) <= maxd ==>
              dist(Center(m), Center(autos[k.value])) < dist(Center(m), Center(autos[j]))
    ensures k.None? <==> forall j :: 0 <= j < |autos| && !autos[j].matched ==> maxd < dist(Center(m), Center(autos[j]))
  {
    var vals := CenterDists(m, autos, dist);
    FirstMin(vals, maxd)
  }

  /** The outcome of the centre matcher: both lists, and for each manual
      line the auto it was paired with (the pairs the plot connects). */
  datatype CenterRun = CenterRun(man: seq<Line>, auto: seq<Line>, picks: seq<Option<nat>>)

  /** What the loop over manual lines promises: each manual line is paired
      with at most one auto, no auto is paired twice, every paired auto was
      unmatched beforehand, a line's flag is raised exactly when it is
      paired, and the matched autos grow by exactly the number of pairs. */
  ghost predicate CenterOk(man: seq<Line>, autos: seq<Line>, r: CenterRun)
  {
    ManOk(man, r) && PicksOk(man, autos, r) && AutoOk(autos, r)
  }

  /** A manual line's flag is raised exactly when it is paired. */
  ghost predicate ManOk(man: seq<Line>, r: CenterRun)
  {
    && |r.man| == |man| && |r.picks| == |man|
    && forall i :: 0 <= i < |man| ==> r.man[i] == man[i].(matched := man[i].matched || r.picks[i].Some?)
  }

  /** Every pick is an auto unmatched beforehand, and no auto is picked twice. */
  ghost predicate PicksOk(man: seq<Line>, autos: seq<Line>, r: CenterRun)
  {
    && |r.picks| == |man|
    && (forall i :: 0 <= i < |man| && r.picks[i].Some? ==> r.picks[i].value < |autos| && !autos[r.picks[i].value].matched)
    && (forall i, j :: 0 <= i < j < |man| && r.picks[i].Some? ==> r.picks[i] != r.picks[j])
  }

  /** An auto's flag is raised exactly when it was already raised or is
      picked, so the matched autos grow by the number of pairs. */
  ghost predicate AutoOk(autos: seq<Line>, r: CenterRun)
  {
    && |r.auto| == |autos|
    && (forall k :: 0 <= k < |autos| ==> r.auto[k] == autos[k].(matched := autos[k].matched || Some(k) in r.picks))
    && CountMatched(r.auto) == CountMatched(autos) + Paired(r.picks)
  }

  /** One manual line `m` (functions.py:90-105): pair it with `Pick`'s auto
      and raise both flags. */
  function CenterStep(prev: CenterRun, m: Line, maxd: real, dist: Dist): (r: CenterRun)
    ensures r.picks == prev.picks + [Pick(m, prev.auto, maxd, dist)]
    ensures r.man == prev.man + [m.(matched := m.matched || Pick(m, prev.auto, maxd, dist).Some?)]
    ensures Pick(m, prev.auto, maxd, dist).None? ==> r.auto == prev.auto
    ensures Pick(m, prev.auto, maxd, dist).Some? ==> r.auto == Flag(prev.auto, Pick(m, prev.auto, maxd, dist).value)
  {
    match Pick(m, prev.auto, maxd, dist)
    case None => CenterRun(prev.man + [m], prev.auto, prev.picks + [None])
    case Some(k) => CenterRun(prev.man + [m.(matched := true)], Flag(prev.auto, k), prev.picks + [Some(k)])
  }

  lemma CenterStepOk(man: seq<Line>, autos: seq<Line>, prev: CenterRun, maxd: real, dist: Dist)
    requires |man| > 0 && CenterOk(man[..|man| - 1], autos, prev)
    ensures CenterOk(man, autos, CenterStep(prev, man[|man| - 1], maxd, dist))
  {
    var n := |man| - 1;
    var p := Pick(man[n], prev.auto, maxd, dist);
    var r := CenterStep(prev, man[n], maxd, dist);
    StepMan(man, prev, r, p);
    StepPicks(man, autos, prev, r, p);
    StepAuto(autos, prev, r, p);
  }

  lemma StepMan(man: seq<Line>, prev: CenterRun, r: CenterRun, p: Option<nat>)
    requires |man| > 0 && ManOk(man[..|man| - 1], prev)
    requires r.picks == prev.picks + [p]
    requires r.man == prev.man + [man[|man| - 1].(matched := man[|man| - 1].matched || p.Some?)]
    ensures ManOk(man, r)
  {
    var n := |man| - 1;
    forall i | 0 <= i < |man|
      ensures r.man[i] == man[i].(matched := man[i].matched || r.picks[i].Some?)
    {
      if i < n {
        assert man[..n][i] == man[i];
      }
    }
  }

  lemma StepPicks(man: seq<Line>, autos: seq<Line>, prev: CenterRun, r: CenterRun, p: Option<nat>)
    requires |man| > 0 && PicksOk(man[..|man| - 1], autos, prev) && AutoOk(autos, prev)
    requires r.picks == prev.picks + [p]
    requires p.Some? ==> p.value < |prev.auto| && !prev.auto[p.value].matched
    ensures PicksOk(man, autos, r)
  {
    var n := |man| - 1;
    if p.Some? {
      assert !autos[p.value].matched && Some(p.value) !in prev.picks;
    }
    forall i, j | 0 <= i < j < |man| && r.picks[i].Some?
      ensures r.picks[i] != r.picks[j]
    {
      if j == n {
        assert r.picks[i] == prev.picks[i];
        assert prev.picks[i] in prev.picks;
      }
    }
  }

  lemma StepAuto(autos: seq<Line>, prev: CenterRun, r: CenterRun, p: Option<nat>)
    requires AutoOk(autos, prev)
    requires r.picks == prev.picks + [p]
    requires p.None? ==> r.auto == prev.auto
    requires p.Some? ==> p.value < |prev.auto| && !prev.auto[p.value].matched && r.auto == Flag(prev.auto, p.value)
    ensures AutoOk(autos, r)
  {
    var n := |prev.picks|;
    assert r.picks[..n] == prev.picks;
    if p.Some? {
      FlagCount(prev.auto, p.value);
    }
    forall k | 0 <= k < |autos|
      ensures Some(k) in r.picks <==> Some(k) in prev.picks || p == Some(k)
    {
      if Some(k) in r.picks {
        var i :| 0 <= i < |r.picks| && r.picks[i] == Some(k);
        if i < n {
          assert prev.picks[i] == Some(k);
        }
      }
    }
  }

  /** The loop over manual lines (functions.py:89-105). */
  function CenterLoop(man: seq<Line>, autos: seq<Line>, maxd: real, dist: Dist): (r: CenterRun)
    ensures |r.picks| == |man|
  {
    if |man| == 0 then CenterRun([], autos, [])
    else CenterStep(CenterLoop(man[..|man| - 1], autos, maxd, dist), man[|man| - 1], maxd, dist)
  }

  /** The loop keeps every promise of `CenterOk`. */
  lemma {:induction false} CenterLoopOk(man: seq<Line>, autos: seq<Line>, maxd: real, dist: Dist)
    ensures CenterOk(man, autos, CenterLoop(man, autos, maxd, dist))
  {
    if |man| > 0 {
      var n := |man| - 1;
      CenterLoopOk(man[..n], autos, maxd, dist);
      CenterStepOk(man, autos, CenterLoop(man[..n], autos, maxd, dist), maxd, dist);
    }
  }

  /** The number of manual lines that were paired. */
  function Paired(picks: seq<Option<nat>>): nat
  {
    if |picks| == 0 then 0
    else Paired(picks[..|picks| - 1]) + (if picks[|picks| - 1].Some? then 1 else 0)
  }

  /** Each manual line claims the auto `Pick` finds among the autos left
      unmatched by the manual lines before it. */
  lemma CenterLoopPicks(man: seq<Line>, autos: seq<Line>, maxd: real, dist: Dist, i: nat)
    requires i < |man|
    ensures CenterLoop(man, autos, maxd, dist).picks[i] == Pick(man[i], CenterLoop(man[..i], autos, maxd, dist).auto, maxd, dist)
  {
    CenterPickAt(man, autos, maxd, dist, i);
    CenterLoopLast(man[..i + 1], autos, maxd, dist);
    PrefixLast(man, i);
  }

  /** Pick `i` of the whole loop is the last pick of the loop over the
      first `i + 1` lines. */
  lemma CenterPickAt(man: seq<Line>, autos: seq<Line>, maxd: real, dist: Dist, i: nat)
    requires i < |man|
    ensures CenterLoop(man, autos, maxd, dist).picks[i] == CenterLoop(man[..i + 1], autos, maxd, dist).picks[i]
  {
    CenterLoopPrefix(man, autos, maxd, dist, i + 1);
  }

  /** The last pick of the loop is `Pick` against the autos the earlier
      lines left. */
  lemma CenterLoopLast(w: seq<Line>, autos: seq<Line>, maxd: real, dist: Dist)
    requires |w| > 0
    ensures CenterLoop(w, autos, maxd, dist).picks[|w| - 1]
            == Pick(w[|w| - 1], CenterLoop(w[..|w| - 1], autos, maxd, dist).auto, maxd, dist)
  {
    CenterLoopUnfold(w, autos, maxd, dist);
  }

  lemma PrefixLast<T>(s: seq<T>, i: nat)
    requires i < |s|
    ensures |s[..i + 1]| - 1 == i && s[..i + 1][i] == s[i] && s[..i + 1][..i] == s[..i]
  {
  }

  /** The picks of the first `n` manual lines do not depend on the lines
      after them. */
  lemma {:induction false} CenterLoopPrefix(man: seq<Line>, autos: seq<Line>, maxd: real, dist: Dist, n: nat)
    requires n <= |man|
    ensures CenterLoop(man[..n], autos, maxd, dist).picks == CenterLoop(man, autos, maxd, dist).picks[..n]
    decreases |man| - n
  {
    if n < |man| {
      var pre := man[..|man| - 1];
      CenterLoopPrefix(pre, autos, maxd, dist, n);
      assert pre[..n] == man[..n];
      CenterLoopUnfold(man, autos, maxd, dist);
      SnocPrefix(CenterLoop(pre, autos, maxd, dist).picks, Pick(man[|man| - 1], CenterLoop(pre, autos, maxd, dist).auto, maxd, dist), n);
    } else {
      assert man[..n] == man;
    }
  }

  lemma SnocPrefix<T>(a: seq<T>, x: T, n: nat)
    requires n <= |a|
    ensures (a + [x])[..n] == a[..n]
  {
  }

  lemma CenterLoopUnfold(man: seq<Line>, autos: seq<Line>, maxd: real, dist: Dist)
    requires |man| > 0
    ensures CenterLoop(man, autos, maxd, dist).picks
            == CenterLoop(man[..|man| - 1], autos, maxd, dist).picks
               + [Pick(man[|man| - 1], CenterLoop(man[..|man| - 1], autos, maxd, dist).auto, maxd, dist)]
  {
  }

  /** `get_matches_avg_center`: reset every manual flag, then run the loop. */
  function CenterMatch(man: seq<Line>, autos: seq<Line>, maxd: real, dist: Dist): (r: CenterRun)
    ensures Grows(autos, r.auto)
    ensures |r.man| == |man| && |r.picks| == |man|
    ensures forall i :: 0 <= i < |man| ==> r.man[i] == man[i].(matched := r.picks[i].Some?)
    ensures CountMatched(r.auto) - CountMatched(autos) == CountMatched(r.man)
  {
    var reset := seq(|man|, i requires 0 <= i < |man| => man[i].(matched := false));
    var r := CenterLoop(reset, autos, maxd, dist);
    CenterLoopOk(reset, autos, maxd, dist);
    PairedCount(reset, r.man, r.picks);
    r
  }

  /** With every flag cleared beforehand, the matched manual lines are
      exactly the paired ones. */
  lemma {:induction false} PairedCount(before: seq<Line>, after: seq<Line>, picks: seq<Option<nat>>)
    requires |before| == |after| == |picks|
    requires forall i :: 0 <= i < |before| ==> !before[i].matched
    requires forall i :: 0 <= i < |before| ==> after[i] == before[i].(matched := picks[i].Some?)
    ensures CountMatched(after) == Paired(picks)
  {
    if |before| > 0 {
      var n := |before| - 1;
      PairedCount(before[..n], after[..n], picks[..n]);
    }
  }

  // ---------------------------------------------------------------------
  // Matching by mean pixel distance

  /** At most this many autos are compared pixel by pixel. */
  const ClosestLimit: nat := 10

  /** `np.around(d, 3)`, scaled by 1000 so that keys are integers: numpy
      rounds halves to even. Distinct keys keep their order. */
  function Key(d: real): int
  {
    RoundHalfEven(d * 1000.0)
  }

  /** The rounded centre distances from `m` to every auto. */
  function CenterKeys(m: Line, autos: seq<Line>, dist: Dist): (ks: seq<int>)
    ensures |ks| == |autos|
    ensures forall k :: 0 <= k < |autos| ==> ks[k] == Key(dist(Center(m), Center(autos[k])))
  {
    seq(|autos|, k requires 0 <= k < |autos| => Key(dist(Center(m), Center(autos[k]))))
  }

  /** The last position holding `x`: the auto a dictionary key ends up with
      after later autos overwrite earlier ones. */
  function LastIndex(s: seq<int>, x: int): (k: nat)
    requires x in s
    ensures k < |s| && s[k] == x
    ensures forall j :: k < j < |s| ==> s[j] != x
  {
    if s[|s| - 1] == x then |s| - 1 else LastIndex(s[..|s| - 1], x)
  }

  /** The distinct values of a sorted sequence, in ascending order. */
  function Uniq(s: seq<int>): (u: seq<int>)
    requires Sorted(s)
    ensures forall i, j :: 0 <= i < j < |u| ==> u[i] < u[j]
    ensures forall x :: x in u <==> x in s
  {
    if |s| == 0 then []
    else
      var n := |s| - 1;
      assert Sorted(s[..n]) by {
        forall i, j | 0 <= i < j < n ensures s[..n][i] <= s[..n][j] {
          assert s[..n][i] == s[i] && s[..n][j] == s[j];
        }
      }
      var u := Uniq(s[..n]);
      forall i | 0 <= i < |u| ensures u[i] <= s[n] {
        assert u[i] in u;
        var j :| 0 <= j < n && s[..n][j] == u[i];
        assert s[j] == u[i];
      }
      assert s == s[..n] + [s[n]];
      if |u| > 0 && u[|u| - 1] == s[n] then u else u + [s[n]]
  }

  /** `sorted(distances.keys())[:10]`: the smallest distinct keys, at most
      ten, ascending. */
  function Smallest(ks: seq<int>): (top: seq<int>)
    ensures |top| <= ClosestLimit
    ensures forall t :: 0 <= t < |top| ==> top[t] in ks
    ensures forall t, u :: 0 <= t < u < |top| ==> top[t] < top[u]
    ensures forall x :: x in ks && (|top| < ClosestLimit || x <= top[|top| - 1]) ==> x in top
  {
    var sorted := Sort(ks);
    SortSameElements(ks, sorted);
    var u := Uniq(sorted);
    var top := if |u| <= ClosestLimit then u else u[..ClosestLimit];
    SmallestKeys(ks, u, top);
    SmallestCovers(ks, u, top);
    top
  }

  /** Every key kept is a key of `ks`. */
  lemma SmallestKeys(ks: seq<int>, u: seq<int>, top: seq<int>)
    requires forall x :: x in u ==> x in ks
    requires top == if |u| <= ClosestLimit then u else u[..ClosestLimit]
    ensures forall t :: 0 <= t < |top| ==> top[t] in ks
  {
    forall t | 0 <= t < |top| ensures top[t] in ks {
      assert top[t] == u[t] && u[t] in u;
    }
  }

  /** No key of `ks` below the cut is missed. */
  lemma SmallestCovers(ks: seq<int>, u: seq<int>, top: seq<int>)
    requires forall x :: x in ks ==> x in u
    requires forall t, v :: 0 <= t < v < |u| ==> u[t] < u[v]
    requires top == if |u| <= ClosestLimit then u else u[..ClosestLimit]
    ensures forall x :: x in ks && (|top| < ClosestLimit || x <= top[|top| - 1]) ==> x in top
  {
    forall x | x in ks && (|top| < ClosestLimit || x <= top[|top| - 1])
      ensures x in top
    {
      var v :| 0 <= v < |u| && u[v] == x;
      if |u| > ClosestLimit {
        assert x <= u[ClosestLimit - 1];
      }
      assert v < |top| && top[v] == x;
    }
  }

  lemma SortSameElements(ks: seq<int>, sorted: seq<int>)
    requires multiset(sorted) == multiset(ks)
    ensures forall x :: x in sorted <==> x in ks
  {
    forall x
      ensures x in sorted <==> x in ks
    {
      assert x in sorted <==> x in multiset(sorted);
      assert x in ks <==> x in multiset(ks);
    }
  }

  /** The shortlist as auto positions: for each of the smallest keys, the
      last auto with that key (later autos overwrite earlier ones in the
      dictionary). */
  function Shortlist(ks: seq<int>): (sl: seq<nat>)
    ensures |sl| <= ClosestLimit
    ensures forall t :: 0 <= t < |sl| ==> sl[t] < |ks|
  {
    var top := Smallest(ks);
    seq(|top|, t requires 0 <= t < |top| => LastIndex(ks, top[t]))
  }

  /** The shortlist holds the last auto of each of the smallest distinct
      keys, in ascending key order, and every key no larger than its last
      one (every key at all when it is short) is represented. */
  lemma ShortlistSpec(ks: seq<int>)
    ensures forall t, j :: 0 <= t < |Shortlist(ks)| && Shortlist(ks)[t] < j < |ks| ==> ks[j] != ks[Shortlist(ks)[t]]
    ensures forall t, u :: 0 <= t < u < |Shortlist(ks)| ==> ks[Shortlist(ks)[t]] < ks[Shortlist(ks)[u]]
    ensures forall j :: 0 <= j < |ks| && (|Shortlist(ks)| < ClosestLimit || ks[j] <= ks[Shortlist(ks)[|Shortlist(ks)| - 1]]) ==>
              exists t :: 0 <= t < |Shortlist(ks)| && ks[Shortlist(ks)[t]] == ks[j]
  {
    var top := Smallest(ks);
    var sl := Shortlist(ks);
    ShortlistKeys(ks);
    forall j | 0 <= j < |ks| && (|sl| < ClosestLimit || ks[j] <= ks[sl[|sl| - 1]])
      ensures exists t :: 0 <= t < |sl| && ks[sl[t]] == ks[j]
    {
      assert ks[j] in top;
      var t :| 0 <= t < |top| && top[t] == ks[j];
      assert ks[sl[t]] == ks[j];
    }
  }

  /** Each shortlisted position holds its key, and holds it last. */
  lemma ShortlistKeys(ks: seq<int>)
    ensures |Shortlist(ks)| == |Smallest(ks)|
    ensures forall t :: 0 <= t < |Shortlist(ks)| ==> ks[Shortlist(ks)[t]] == Smallest(ks)[t]
    ensures forall t, j :: 0 <= t < |Shortlist(ks)| && Shortlist(ks)[t] < j < |ks| ==> ks[j] != ks[Shortlist(ks)[t]]
  {
    var top := Smallest(ks);
    var sl := Shortlist(ks);
    forall t | 0 <= t < |sl| ensures ks[sl[t]] == top[t] && forall j :: sl[t] < j < |ks| ==> ks[j] != top[t] {
      assert sl[t] == LastIndex(ks, top[t]);
    }
  }

  /** `zip(line['x'], line['y'])`: the coordinates of a line. */
  function Pts(l: Line): (ps: seq<Point>)
    ensures |ps| <= |l.xs| && |ps| <= |l.ys|
  {
    var n := if |l.xs| <= |l.ys| then |l.xs| else |l.ys|;
    seq(n, i requires 0 <= i < n => Point(l.xs[i], l.ys[i]))
  }

  /** `x` is the distance between some coordinate of `ps` and some of `qs`. */
  ghost predicate IsPairDist(ps: seq<Point>, qs: seq<Point>, dist: Dist, x: real)
  {
    exists i, j :: 0 <= i < |ps| && 0 <= j < |qs| && x == dist(ps[i], qs[j])
  }

  /** Every distance from a coordinate of `ps` to one of `qs`, `ps` in the
      outer loop: the pair `(ps[i], qs[j])` sits at position `i * |qs| + j`. */
  function PairDists(ps: seq<Point>, qs: seq<Point>, dist: Dist): (ds: seq<real>)
    ensures |ds| == |ps| * |qs|
    ensures forall i, j :: 0 <= i < |ps| && 0 <= j < |qs| ==>
              PairAt(i, j, |ps|, |qs|) && ds[i * |qs| + j] == dist(ps[i], qs[j])
    ensures forall t :: 0 <= t < |ds| ==> IsPairDist(ps, qs, dist, ds[t])
  {
    if |ps| == 0 then []
    else
      var n := |ps| - 1;
      var init := PairDists(ps[..n], qs, dist);
      var row := seq(|qs|, j requires 0 <= j < |qs| => dist(ps[n], qs[j]));
      PairDistsSnoc(ps, qs, dist, init, row);
      init + row
  }

  /** Position `i * q + j` of pair `(i, j)` lies before `n * q`. */
  predicate PairAt(i: int, j: int, n: int, q: int)
  {
    0 <= i * q + j < n * q
  }

  lemma PairAtBelow(i: int, j: int, n: int, q: int)
    requires 0 <= i < n && 0 <= j < q
    ensures PairAt(i, j, n, q) && PairAt(i, j, i + 1, q)
  {
    PosProduct(i + 1, q);
    if n - i - 1 > 0 {
      PosProduct(n - i - 1, q);
    }
    assert (i + 1) * q == i * q + q;
    assert n * q == (i + 1) * q + (n - i - 1) * q;
  }

  /** The step of `PairDists`: the row of the last coordinate follows the
      rows of the others. */
  lemma PairDistsSnoc(ps: seq<Point>, qs: seq<Point>, dist: Dist, init: seq<real>, row: seq<real>)
    requires |ps| > 0
    requires var n := |ps| - 1;
      && |init| == n * |qs|
      && (forall i, j :: 0 <= i < n && 0 <= j < |qs| ==>
            PairAt(i, j, n, |qs|) && init[i * |qs| + j] == dist(ps[..n][i], qs[j]))
      && (forall t :: 0 <= t < |init| ==> IsPairDist(ps[..n], qs, dist, init[t]))
    requires row == seq(|qs|, j requires 0 <= j < |qs| => dist(ps[|ps| - 1], qs[j]))
    ensures |init + row| == |ps| * |qs|
    ensures forall i, j :: 0 <= i < |ps| && 0 <= j < |qs| ==>
              PairAt(i, j, |ps|, |qs|) && (init + row)[i * |qs| + j] == dist(ps[i], qs[j])
    ensures forall t :: 0 <= t < |init + row| ==> IsPairDist(ps, qs, dist, (init + row)[t])
  {
    var n := |ps| - 1;
    assert |init + row| == n * |qs| + |qs| == |ps| * |qs|;
    forall i, j | 0 <= i < |ps| && 0 <= j < |qs|
      ensures PairAt(i, j, |ps|, |qs|) && (init + row)[i * |qs| + j] == dist(ps[i], qs[j])
    {
      PairAtBelow(i, j, |ps|, |qs|);
      if i < n {
        assert PairAt(i, j, n, |qs|) && init[i * |qs| + j] == dist(ps[..n][i], qs[j]);
        assert ps[..n][i] == ps[i];
      } else {
        assert i * |qs| + j - |init| == j;
      }
    }
    forall t | 0 <= t < |init| + |row|
      ensures IsPairDist(ps, qs, dist, (init + row)[t])
    {
      if t < |init| {
        assert IsPairDist(ps[..n], qs, dist, init[t]);
        var i, j :| 0 <= i < n && 0 <= j < |qs| && init[t] == dist(ps[..n][i], qs[j]);
        assert ps[..n][i] == ps[i];
        assert (init + row)[t] == dist(ps[i], qs[j]);
      } else {
        assert (init + row)[t] == dist(ps[n], qs[t - |init|]);
      }
    }
  }

  /** `np.mean(distances)` over all pairs; `None` for `nan`, the mean of no
      pairs, which no comparison accepts. */
  function PairMean(m: Line, a: Line, dist: Dist): Option<real>
  {
    var ds := PairDists(Pts(m), Pts(a), dist);
    if |ds| == 0 then None else Some(Mean(ds))
  }

  /** The mean pixel distance lies within any bounds on the pairwise
      distances. */
  lemma PairMeanBounds(m: Line, a: Line, dist: Dist, lo: real, hi: real)
    requires forall i, j :: 0 <= i < |Pts(m)| && 0 <= j < |Pts(a)| ==> lo <= dist(Pts(m)[i], Pts(a)[j]) <= hi
    ensures PairMean(m, a, dist).Some? <==> |Pts(m)| > 0 && |Pts(a)| > 0
    ensures PairMean(m, a, dist).Some? ==> lo <= PairMean(m, a, dist).value <= hi
  {
    var ds := PairDists(Pts(m), Pts(a), dist);
    if |ds| > 0 {
      forall t | 0 <= t < |ds|
        ensures lo <= ds[t] <= hi
      {
        assert IsPairDist(Pts(m), Pts(a), dist, ds[t]);
        var i, j :| 0 <= i < |Pts(m)| && 0 <= j < |Pts(a)| && ds[t] == dist(Pts(m)[i], Pts(a)[j]);
      }
      MeanBounds(ds, lo, hi);
    }
    if |Pts(m)| > 0 && |Pts(a)| > 0 {
      PosProduct(|Pts(m)|, |Pts(a)|);
    }
  }

  lemma PosProduct(a: nat, b: nat)
    requires 0 < a && 0 < b
    ensures 0 < a * b
  {
  }

  /** The mean pixel distance from `m` to each shortlisted auto, in
      shortlist order. */
  function ShortMeans(m: Line, autos: seq<Line>, dist: Dist): (vals: seq<Option<real>>)
    ensures |vals| == |Shortlist(CenterKeys(m, autos, dist))|
    ensures forall t :: 0 <= t < |vals| ==>
              vals[t] == PairMean(m, autos[Shortlist(CenterKeys(m, autos, dist))[t]], dist)
  {
    var sl := Shortlist(CenterKeys(m, autos, dist));
    seq(|sl|, t requires 0 <= t < |sl| => PairMean(m, autos[sl[t]], dist))
  }

  /** `k` is a shortlisted auto (or the first auto equal to one) whose mean
      pixel distance to `m` is within `maxd`. */
  ghost predicate FromShortlist(m: Line, autos: seq<Line>, maxd: real, dist: Dist, k: nat)
  {
    var sl := Shortlist(CenterKeys(m, autos, dist));
    && k < |autos|
    && exists t :: 0 <= t < |sl| && autos[k] == autos[sl[t]] && Admits(PairMean(m, autos[sl[t]], dist), maxd)
  }

  /** The auto a manual line settles on (functions.py:139-167): among the
      shortlisted autos, the first of least mean pixel distance within
      `maxd`, located again by `autos.index`, i.e. the first auto equal to it. */
  function LineChoice(m: Line, autos: seq<Line>, maxd: real, dist: Dist): (k: Option<nat>)
    ensures k.Some? ==> FromShortlist(m, autos, maxd, dist, k.value)
  {
    var sl := Shortlist(CenterKeys(m, autos, dist));
    match FirstMin(ShortMeans(m, autos, dist), maxd)
    case None => None
    case Some(t) =>
      var k := FirstIndex(autos, autos[sl[t]]);
      assert autos[k] == autos[sl[t]];
      Some(k)
  }

  /** `LineChoice` finds nothing exactly when no shortlisted auto is within
      `maxd`. */
  lemma LineChoiceNone(m: Line, autos: seq<Line>, maxd: real, dist: Dist)
    ensures LineChoice(m, autos, maxd, dist).None? <==>
            forall t :: 0 <= t < |ShortMeans(m, autos, dist)| ==> !Admits(ShortMeans(m, autos, dist)[t], maxd)
  {
  }

  /** The auto `LineChoice` settles on is within `maxd` and no shortlisted
      auto within `maxd` is closer by mean pixel distance. It equals the
      shortlisted auto at some position `t` whose mean is strictly below
      every admissible mean before it (the strict `<` keeps the first of
      equal means), and no earlier auto equals it (`autos.index`). */
  lemma LineChoiceLeast(m: Line, autos: seq<Line>, maxd: real, dist: Dist)
    requires LineChoice(m, autos, maxd, dist).Some?
    ensures var k := LineChoice(m, autos, maxd, dist).value;
            var vals := ShortMeans(m, autos, dist);
            && k < |autos|
            && Admits(PairMean(m, autos[k], dist), maxd)
            && forall t :: 0 <= t < |vals| && Admits(vals[t], maxd) ==> PairMean(m, autos[k], dist).value <= vals[t].value
    ensures var k := LineChoice(m, autos, maxd, dist).value;
            var vals := ShortMeans(m, autos, dist);
            var sl := Shortlist(CenterKeys(m, autos, dist));
            && (forall j :: 0 <= j < k ==> autos[j] != autos[k])
            && exists t :: 0 <= t < |vals| && autos[k] == autos[sl[t]] && Admits(vals[t], maxd)
                 && forall u :: 0 <= u < t && Admits(vals[u], maxd) ==> vals[t].value < vals[u].value
  {
    var vals := ShortMeans(m, autos, dist);
    var t := LineChoiceAt(m, autos, maxd, dist);
    LineChoiceMin(m, autos, maxd, dist, vals, t);
  }

  /** The shortlist position `LineChoice` read its auto from: the first
      least admissible mean. */
  lemma LineChoiceAt(m: Line, autos: seq<Line>, maxd: real, dist: Dist) returns (t: nat)
    requires LineChoice(m, autos, maxd, dist).Some?
    ensures FirstMin(ShortMeans(m, autos, dist), maxd) == Some(t)
    ensures var k := LineChoice(m, autos, maxd, dist).value;
            var sl := Shortlist(CenterKeys(m, autos, dist));
            && t < |sl| && k < |autos| && autos[k] == autos[sl[t]]
            && (forall j :: 0 <= j < k ==> autos[j] != autos[k])
  {
    var sl := Shortlist(CenterKeys(m, autos, dist));
    t := FirstMin(ShortMeans(m, autos, dist), maxd).value;
    assert autos[LineChoice(m, autos, maxd, dist).value] == autos[sl[t]];
  }

  /** The mean at the first least admissible position, read through any
      line equal to the shortlisted one. */
  lemma LineChoiceMin(m: Line, autos: seq<Line>, maxd: real, dist: Dist, vals: seq<Option<real>>, t: nat)
    requires vals == ShortMeans(m, autos, dist)
    requires FirstMin(vals, maxd) == Some(t)
    ensures t < |vals| && Admits(vals[t], maxd)
    ensures forall u :: 0 <= u < |vals| && Admits(vals[u], maxd) ==> vals[t].value <= vals[u].value
    ensures forall u :: 0 <= u < t && Admits(vals[u], maxd) ==> vals[t].value < vals[u].value
    ensures vals[t] == PairMean(m, autos[Shortlist(CenterKeys(m, autos, dist))[t]], dist)
  {
  }

  /** The flags after a manual line settled on `c`: the pair is flagged only
      when both lines are still unmatched; then exactly one manual and one
      auto flag are raised. */
  function Raise(m: Line, autos: seq<Line>, c: Option<nat>): (r: (Line, seq<Line>))
    requires c.Some? ==> c.value < |autos|
    ensures r.0 == m.(matched := r.0.matched) && (m.matched ==> r.0.matched)
    ensures Grows(autos, r.1)
    ensures r.0.matched == m.matched ==> r.1 == autos
    ensures r.0.matched != m.matched ==>
              && c.Some? && !autos[c.value].matched
              && r.1 == Flag(autos, c.value)
              && CountMatched(r.1) == CountMatched(autos) + 1
  {
    if c.Some? && !m.matched && !autos[c.value].matched then
      FlagCount(autos, c.value);
      (m.(matched := true), Flag(autos, c.value))
    else (m, autos)
  }

  /** One manual line against one auto file. */
  function LineStep(m: Line, autos: seq<Line>, maxd: real, dist: Dist): (r: (Line, seq<Line>))
  {
    Raise(m, autos, LineChoice(m, autos, maxd, dist))
  }

  lemma GrowsTrans(a: seq<Line>, b: seq<Line>, c: seq<Line>)
    requires Grows(a, b) && Grows(b, c)
    ensures Grows(a, c)
  {
  }

  /** The loop over the manual lines of one file against one auto file: only
      flags change, none is lowered, and as many manual flags as auto flags
      are raised. */
  function LineMatch(man: seq<Line>, autos: seq<Line>, maxd: real, dist: Dist): (r: (seq<Line>, seq<Line>))
    ensures Grows(man, r.0) && Grows(autos, r.1)
    ensures CountMatched(r.0) - CountMatched(man) == CountMatched(r.1) - CountMatched(autos)
  {
    if |man| == 0 then ([], autos)
    else
      var n := |man| - 1;
      var prev := LineMatch(man[..n], autos, maxd, dist);
      var step := LineStep(man[n], prev.1, maxd, dist);
      MatchSnoc(man, autos, prev.0, prev.1, step.0, step.1);
      (prev.0 + [step.0], step.1)
  }

  /** One more manual line keeps `LineMatch`'s contract, whatever the step
      did, as long as it raised one flag on each side or none. */
  lemma MatchSnoc(man: seq<Line>, autos: seq<Line>, p0: seq<Line>, p1: seq<Line>, y: Line, s1: seq<Line>)
    requires |man| > 0
    requires Grows(man[..|man| - 1], p0) && Grows(autos, p1)
    requires CountMatched(p0) - CountMatched(man[..|man| - 1]) == CountMatched(p1) - CountMatched(autos)
    requires y == man[|man| - 1].(matched := y.matched) && (man[|man| - 1].matched ==> y.matched)
    requires Grows(p1, s1)
    requires y.matched == man[|man| - 1].matched ==> s1 == p1
    requires y.matched != man[|man| - 1].matched ==> CountMatched(s1) == CountMatched(p1) + 1
    ensures Grows(man, p0 + [y]) && Grows(autos, s1)
    ensures CountMatched(p0 + [y]) - CountMatched(man) == CountMatched(s1) - CountMatched(autos)
  {
    GrowsLast(man, p0, y);
    GrowsTrans(autos, p1, s1);
  }

  /** A manual line appended with its flag possibly raised keeps `Grows`
      and adds the raised flag to the count. */
  lemma GrowsLast(man: seq<Line>, p0: seq<Line>, y: Line)
    requires |man| > 0 && Grows(man[..|man| - 1], p0)
    requires y == man[|man| - 1].(matched := y.matched) && (man[|man| - 1].matched ==> y.matched)
    ensures Grows(man, p0 + [y])
    ensures CountMatched(p0 + [y]) - CountMatched(man) ==
      CountMatched(p0) - CountMatched(man[..|man| - 1]) + (if y.matched == man[|man| - 1].matched then 0 else 1)
  {
    var n := |man| - 1;
    var b := p0 + [y];
    assert b[..n] == p0;
    GrowsLastLines(man, p0, y);
  }

  lemma GrowsLastLines(man: seq<Line>, p0: seq<Line>, y: Line)
    requires |man| > 0 && Grows(man[..|man| - 1], p0)
    requires y == man[|man| - 1].(matched := y.matched) && (man[|man| - 1].matched ==> y.matched)
    ensures Grows(man, p0 + [y])
  {
    var n := |man| - 1;
    var b := p0 + [y];
    forall i | 0 <= i < |man|
      ensures b[i] == man[i].(matched := b[i].matched) && (man[i].matched ==> b[i].matched)
    {
      if i < n {
        assert b[i] == p0[i] && man[i] == man[..n][i];
      }
    }
  }

  /** Lines with their flags taken from `b`. */
  lemma {:induction false} GrowsCount(a: seq<Line>, b: seq<Line>)
    requires Grows(a, b)
    ensures CountMatched(a) <= CountMatched(b)
  {
    if |a| > 0 {
      GrowsCount(a[..|a| - 1], b[..|b| - 1]);
    }
  }

  /** The number of raised flags over several files. */
  function Total(fs: seq<seq<Line>>): nat
  {
    if |fs| == 0 then 0 else Total(fs[..|fs| - 1]) + CountMatched(fs[|fs| - 1])
  }

  /** `Grows` file by file. */
  ghost predicate GrowsAll(a: seq<seq<Line>>, b: seq<seq<Line>>)
  {
    |a| == |b| && forall k :: 0 <= k < |a| ==> Grows(a[k], b[k])
  }

  /** One manual file against every auto file in turn; the manual flags
      carry over from one auto file to the next. */
  function LineMatchFile(man: seq<Line>, autoFiles: seq<seq<Line>>, maxd: real, dist: Dist): (r: (seq<Line>, seq<seq<Line>>))
    ensures Grows(man, r.0) && GrowsAll(autoFiles, r.1)
    ensures CountMatched(r.0) - CountMatched(man) == Total(r.1) - Total(autoFiles)
  {
    if |autoFiles| == 0 then (man, [])
    else
      var n := |autoFiles| - 1;
      var prev := LineMatchFile(man, autoFiles[..n], maxd, dist);
      var step := LineMatch(prev.0, autoFiles[n], maxd, dist);
      FileStep(man, autoFiles, prev.0, prev.1, step.0, step.1);
      (step.0, prev.1 + [step.1])
  }

  /** `get_matches_avg_line`: every manual file against every auto file; the
      auto flags carry over from one manual file to the next. Every flag
      raised on a manual line is matched by one raised on an auto line. */
  function LineMatchAll(manFiles: seq<seq<Line>>, autoFiles: seq<seq<Line>>, maxd: real, dist: Dist): (r: (seq<seq<Line>>, seq<seq<Line>>))
    ensures GrowsAll(manFiles, r.0) && GrowsAll(autoFiles, r.1)
    ensures Total(r.0) - Total(manFiles) == Total(r.1) - Total(autoFiles)
  {
    if |manFiles| == 0 then ([], autoFiles)
    else
      var n := |manFiles| - 1;
      var prev := LineMatchAll(manFiles[..n], autoFiles, maxd, dist);
      var step := LineMatchFile(manFiles[n], prev.1, maxd, dist);
      AllStep(manFiles, autoFiles, prev.0, prev.1, step.0, step.1);
      (prev.0 + [step.0], step.1)
  }

  lemma GrowsAllTrans(a: seq<seq<Line>>, b: seq<seq<Line>>, c: seq<seq<Line>>)
    requires GrowsAll(a, b) && GrowsAll(b, c)
    ensures GrowsAll(a, c)
  {
    forall k | 0 <= k < |a|
      ensures Grows(a[k], c[k])
    {
      GrowsTrans(a[k], b[k], c[k]);
    }
  }

  /** A file appended to `b` keeps `GrowsAll` against `a` with its last
      file, and adds its flags to the total. */
  lemma GrowsAllSnoc(a: seq<seq<Line>>, b: seq<seq<Line>>, y: seq<Line>)
    requires |a| > 0 && GrowsAll(a[..|a| - 1], b) && Grows(a[|a| - 1], y)
    ensures GrowsAll(a, b + [y])
    ensures Total(a) == Total(a[..|a| - 1]) + CountMatched(a[|a| - 1])
    ensures Total(b + [y]) == Total(b) + CountMatched(y)
  {
    var n := |a| - 1;
    var c := b + [y];
    assert c[..|b|] == b;
    assert Total(c) == Total(b) + CountMatched(y);
    forall k | 0 <= k < |a|
      ensures Grows(a[k], c[k])
    {
      GrowsAt(a, b, y, k);
    }
  }

  lemma GrowsAt(a: seq<seq<Line>>, b: seq<seq<Line>>, y: seq<Line>, k: int)
    requires 0 <= k < |a| && GrowsAll(a[..|a| - 1], b) && Grows(a[|a| - 1], y)
    ensures Grows(a[k], (b + [y])[k])
  {
    if k < |a| - 1 {
      assert a[..|a| - 1][k] == a[k] && (b + [y])[k] == b[k];
    } else {
      assert (b + [y])[k] == y;
    }
  }

  /** One auto file more in `LineMatchFile`. */
  lemma FileStep(man: seq<Line>, autoFiles: seq<seq<Line>>, prev0: seq<Line>, prev1: seq<seq<Line>>, step0: seq<Line>, step1: seq<Line>)
    requires |autoFiles| > 0
    requires Grows(man, prev0) && GrowsAll(autoFiles[..|autoFiles| - 1], prev1)
    requires CountMatched(prev0) - CountMatched(man) == Total(prev1) - Total(autoFiles[..|autoFiles| - 1])
    requires Grows(prev0, step0) && Grows(autoFiles[|autoFiles| - 1], step1)
    requires CountMatched(step0) - CountMatched(prev0) == CountMatched(step1) - CountMatched(autoFiles[|autoFiles| - 1])
    ensures Grows(man, step0) && GrowsAll(autoFiles, prev1 + [step1])
    ensures CountMatched(step0) - CountMatched(man) == Total(prev1 + [step1]) - Total(autoFiles)
  {
    GrowsTrans(man, prev0, step0);
    GrowsAllSnoc(autoFiles, prev1, step1);
  }

  /** One manual file more in `LineMatchAll`. */
  lemma AllStep(manFiles: seq<seq<Line>>, autoFiles: seq<seq<Line>>, prev0: seq<seq<Line>>, prev1: seq<seq<Line>>, step0: seq<Line>, step1: seq<seq<Line>>)
    requires |manFiles| > 0
    requires GrowsAll(manFiles[..|manFiles| - 1], prev0) && GrowsAll(autoFiles, prev1)
    requires Total(prev0) - Total(manFiles[..|manFiles| - 1]) == Total(prev1) - Total(autoFiles)
    requires Grows(manFiles[|manFiles| - 1], step0) && GrowsAll(prev1, step1)
    requires CountMatched(step0) - CountMatched(manFiles[|manFiles| - 1]) == Total(step1) - Total(prev1)
    ensures GrowsAll(manFiles, prev0 + [step0]) && GrowsAll(autoFiles, step1)
    ensures Total(prev0 + [step0]) - Total(manFiles) == Total(step1) - Total(autoFiles)
  {
    GrowsAllTrans(autoFiles, prev1, step1);
    GrowsAllSnoc(manFiles, prev0, step0);
  }
}
