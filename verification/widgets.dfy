/** The pure parts of the analysis tab: which keys an analysis run produces
    and in what order, how a feature dictionary is read from and written to
    rows, and the per-key averages shown after a run. */
module Widgets {
  import opened Base
  import opened Seqs
  import opened Geometry
  import opened Features

  // ---------------------------------------------------------------------
  // The enabled measurements

  /** The tab's check boxes and the custom layers in the order they were
      added. */
  datatype Options = Options(breadth: bool, length: bool, cust: seq<string>)

  /** `current_state`: the keys an analysis run fills in, in the order they
      are saved and averaged. */
  function CurrentState(o: Options): (keys: seq<string>)
    ensures |keys| == (if o.breadth then 1 else 0) + (if o.length then 1 else 0) + |o.cust|
    ensures o.breadth ==> keys[0] == "breadth"
    ensures o.length ==> keys[if o.breadth then 1 else 0] == "length"
    ensures keys[|keys| - |o.cust|..] == o.cust
  {
    (if o.breadth then ["breadth"] else []) + (if o.length then ["length"] else []) + o.cust
  }

  /** A key is listed exactly when its box is ticked or a custom layer
      carries its name. */
  lemma CurrentStateMembers(o: Options, key: string)
    ensures key in CurrentState(o) <==>
              (key == "breadth" && o.breadth) || (key == "length" && o.length) || key in o.cust
  {
    var keys := CurrentState(o);
    var k := |keys| - |o.cust|;
    assert keys == keys[..k] + o.cust;
    if key in keys[..k] {
      assert k <= 2;
      assert keys[..k] == (if o.breadth then ["breadth"] else []) + (if o.length then ["length"] else []);
    }
  }

  // ---------------------------------------------------------------------
  // Loading

  /** Tracer output handed over directly: feature `k` becomes id `k`, holding
      only its coordinates. An empty list is not taken (the file dialog opens
      instead, which is not part of this model). */
  function LoadExternal(ex: seq<seq<Point>>): (r: Option<FeatureMap>)
    ensures r.Some? <==> |ex| > 0
    ensures r.Some? ==> WellKeyed(r.value) && Ids(r.value) == seq(|ex|, k => k)
    ensures r.Some? ==> |r.value| == |ex| && forall k :: 0 <= k < |ex| ==> Points(r.value[k].coords) == ex[k]
    ensures r.Some? ==> forall k, j :: 0 <= k < |ex| && 0 <= j < |r.value[k].coords| ==> r.value[k].coords[j].fields == map[]
  {
    if |ex| == 0 then None
    else
      FromTracingsInverse(ex);
      Some(FromTracings(ex))
  }

  /** One CSV row as the loader reads it: `float(row[0])`, `float(row[1])`,
      `float(row[2])`; further columns are ignored. */
  datatype InRow = InRow(key: real, x: real, y: real)

  /** The loader's state: the dictionary so far and the current feature id. */
  datatype Loading = Loading(m: FeatureMap, cur: int)

  /** The loader's invariant: distinct ids, the current id present, and id 0
      first. */
  ghost predicate Good(s: Loading)
  {
    WellKeyed(s.m) && s.cur in Ids(s.m) && |s.m| > 0 && s.m[0].id == 0
  }

  /** `f_num = 0; f_data[0] = []`. */
  function Start(): (s: Loading)
    ensures Good(s)
  {
    Loading([Entry(0, [])], 0)
  }

  /** One row: a row whose truncated key is the current id extends the current
      feature; any other row starts a fresh one-coordinate list under its key,
      replacing any earlier list with that key in place. */
  function LoadStep(s: Loading, row: InRow): (r: Loading)
    requires Good(s)
    ensures Good(r)
    ensures r.cur == Trunc(row.key)
    ensures Trunc(row.key) != s.cur ==> Lookup(r.m, r.cur) == Some([Bare(Point(row.x, row.y))])
    ensures Trunc(row.key) == s.cur ==> Lookup(r.m, r.cur) == Some(Lookup(s.m, s.cur).value + [Bare(Point(row.x, row.y))])
    ensures forall id :: id != r.cur ==> Lookup(r.m, id) == Lookup(s.m, id)
  {
    var k := Trunc(row.key);
    var c := Bare(Point(row.x, row.y));
    var coords := if k == s.cur then Lookup(s.m, s.cur).value + [c] else [c];
    var m := Put(s.m, k, coords);
    forall id | id != k
      ensures Lookup(m, id) == Lookup(s.m, id)
    {
      PutLookup(s.m, k, coords, id);
    }
    PutLookup(s.m, k, coords, k);
    Loading(m, k)
  }

  /** The loader over rows in file order. */
  function LoadFold(s: Loading, rows: seq<InRow>): (r: Loading)
    requires Good(s)
    ensures Good(r)
    decreases |rows|
  {
    if |rows| == 0 then s else LoadFold(LoadStep(s, rows[0]), rows[1..])
  }

  /** `open_data` on a CSV file whose rows hold no header. */
  function LoadCsv(rows: seq<InRow>): FeatureMap
  {
    LoadFold(Start(), rows).m
  }

  lemma {:induction false} LoadFoldAppend(s: Loading, a: seq<InRow>, b: seq<InRow>)
    requires Good(s)
    ensures LoadFold(s, a + b) == LoadFold(LoadFold(s, a), b)
    decreases |a|
  {
    if |a| == 0 {
      assert a + b == b;
    } else {
      assert (a + b)[0] == a[0] && (a + b)[1..] == a[1..] + b;
      LoadFoldAppend(LoadStep(s, a[0]), a[1..], b);
    }
  }

  /** The last row is the last step. */
  lemma LoadFoldLast(s: Loading, pre: seq<InRow>, row: InRow)
    requires Good(s)
    ensures LoadFold(s, pre + [row]) == LoadStep(LoadFold(s, pre), row)
  {
    LoadFoldAppend(s, pre, [row]);
    LoadFoldOne(LoadFold(s, pre), row);
  }

  lemma LoadFoldOne(s: Loading, row: InRow)
    requires Good(s)
    ensures LoadFold(s, [row]) == LoadStep(s, row)
  {
    assert [row][1..] == [];
  }

  // ---------------------------------------------------------------------
  // Saving

  /** One saved data row: `[f_num, x, y]` and the values of the enabled keys. */
  datatype OutRow = OutRow(fnum: int, x: real, y: real, vals: seq<real>)

  /** Every coordinate of every feature holds every key. */
  predicate HasKeys(m: FeatureMap, keys: seq<string>)
  {
    forall i, j, t :: 0 <= i < |m| && 0 <= j < |m[i].coords| && 0 <= t < |keys| ==> keys[t] in m[i].coords[j].fields
  }

  /** The rows of one feature, in coordinate order. */
  function EntryRows(e: Entry, keys: seq<string>): (rows: seq<OutRow>)
    requires forall j, t :: 0 <= j < |e.coords| && 0 <= t < |keys| ==> keys[t] in e.coords[j].fields
    ensures |rows| == |e.coords|
    ensures forall j :: 0 <= j < |rows| ==>
              && rows[j].fnum == e.id
              && Point(rows[j].x, rows[j].y) == e.coords[j].coord
              && |rows[j].vals| == |keys|
              && forall t :: 0 <= t < |keys| ==> rows[j].vals[t] == e.coords[j].fields[keys[t]]
  {
    seq(|e.coords|, j requires 0 <= j < |e.coords| =>
      var c := e.coords[j];
      OutRow(e.id, c.coord.x, c.coord.y, seq(|keys|, t requires 0 <= t < |keys| => c.fields[keys[t]])))
  }

  /** The number of coordinates over all features. */
  function CoordCount(m: FeatureMap): nat
  {
    if |m| == 0 then 0 else CoordCount(m[..|m| - 1]) + |m[|m| - 1].coords|
  }

  function AllRows(m: FeatureMap, keys: seq<string>): (rows: seq<OutRow>)
    requires HasKeys(m, keys)
    ensures |rows| == CoordCount(m)
  {
    if |m| == 0 then []
    else
      var n := |m| - 1;
      assert HasKeys(m[..n], keys);
      AllRows(m[..n], keys) + EntryRows(m[n], keys)
  }

  /** `save_results` past the header: one row per coordinate, feature by
      feature; a coordinate without one of the enabled keys raises
      `KeyError`. */
  function SaveRows(m: FeatureMap, keys: seq<string>): (r: Result<seq<OutRow>>)
    ensures r.Ok? <==> HasKeys(m, keys)
    ensures r.Fail? ==> r.error == KeyError
    ensures r.Ok? ==> |r.value| == CoordCount(m)
  {
    if HasKeys(m, keys) then Ok(AllRows(m, keys)) else Fail(KeyError)
  }

  /** A saved row read back by the loader: the id is written as an integer
      and coordinates as their exact decimal form, so both parse back
      unchanged. */
  function Reread(rows: seq<OutRow>): (ins: seq<InRow>)
    ensures |ins| == |rows|
    ensures forall j :: 0 <= j < |rows| ==> ins[j] == InRow(rows[j].fnum as real, rows[j].x, rows[j].y)
  {
    seq(|rows|, j requires 0 <= j < |rows| => InRow(rows[j].fnum as real, rows[j].x, rows[j].y))
  }

  /** A feature dictionary with only the coordinates kept. */
  function Bared(m: FeatureMap): (b: FeatureMap)
    ensures |b| == |m|
    ensures forall i :: 0 <= i < |m| ==> b[i] == Entry(m[i].id, BareAll(Points(m[i].coords)))
  {
    seq(|m|, i requires 0 <= i < |m| => Entry(m[i].id, BareAll(Points(m[i].coords))))
  }

  /** What the loader can read back: distinct ids, id 0 first (the loader
      always starts with it), and every other feature non-empty (an empty one
      writes no row). */
  ghost predicate Loadable(m: FeatureMap)
  {
    && WellKeyed(m) && |m| > 0 && m[0].id == 0
    && forall i :: 0 < i < |m| ==> |m[i].coords| > 0
  }

  /** The rows the loader reads for the points `ps` of feature `k`. */
  function RowsOf(k: int, ps: seq<Point>): (rows: seq<InRow>)
    ensures |rows| == |ps|
    ensures forall j :: 0 <= j < |ps| ==> rows[j] == InRow(k as real, ps[j].x, ps[j].y)
  {
    seq(|ps|, j requires 0 <= j < |ps| => InRow(k as real, ps[j].x, ps[j].y))
  }

  /** The rows the loader reads for a whole dictionary, feature by feature. */
  function PointRows(m: FeatureMap): seq<InRow>
  {
    if |m| == 0 then [] else PointRows(m[..|m| - 1]) + RowsOf(m[|m| - 1].id, Points(m[|m| - 1].coords))
  }

  /** Saved rows read back are the dictionary's points under their ids. */
  lemma {:induction false} RereadRows(m: FeatureMap, keys: seq<string>)
    requires HasKeys(m, keys)
    ensures Reread(AllRows(m, keys)) == PointRows(m)
  {
    if |m| > 0 {
      var n := |m| - 1;
      assert HasKeys(m[..n], keys);
      RereadRows(m[..n], keys);
      var a := AllRows(m[..n], keys);
      var b := EntryRows(m[n], keys);
      assert Reread(a + b) == Reread(a) + Reread(b);
      assert Reread(b) == RowsOf(m[n].id, Points(m[n].coords));
    }
  }

  /** A row of the current feature extends its list. */
  lemma ExtendLast(ms: FeatureMap, k: int, cs: seq<Coord>, p: Point)
    requires Good(Loading(ms + [Entry(k, cs)], k))
    ensures LoadStep(Loading(ms + [Entry(k, cs)], k), InRow(k as real, p.x, p.y))
            == Loading(ms + [Entry(k, cs + [Bare(p)])], k)
  {
    var m := ms + [Entry(k, cs)];
    TruncOfInt(k);
    LookupAt(m, |ms|);
    assert Lookup(m, k) == Some(cs);
    forall i | 0 <= i < |ms|
      ensures ms[i].id != k
    {
      assert m[i] == ms[i] && m[|ms|].id == k;
    }
    PutLast(ms, k, cs, cs + [Bare(p)]);
  }

  /** Replacing the list of the last entry, whose id no other entry has. */
  lemma PutLast(ms: FeatureMap, k: int, cs: seq<Coord>, cs2: seq<Coord>)
    requires forall i :: 0 <= i < |ms| ==> ms[i].id != k
    ensures Put(ms + [Entry(k, cs)], k, cs2) == ms + [Entry(k, cs2)]
  {
    var m := ms + [Entry(k, cs)];
    assert Ids(m)[|ms|] == k;
    var r := Put(m, k, cs2);
    var want := ms + [Entry(k, cs2)];
    forall i | 0 <= i < |m|
      ensures r[i] == want[i]
    {
      if i < |ms| {
        assert m[i] == ms[i];
      }
    }
  }

  /** A row with a new id starts a feature at the end. */
  lemma StartNew(ms: FeatureMap, cur: int, k: int, p: Point)
    requires Good(Loading(ms, cur)) && k !in Ids(ms)
    ensures LoadStep(Loading(ms, cur), InRow(k as real, p.x, p.y)) == Loading(ms + [Entry(k, [Bare(p)])], k)
  {
    TruncOfInt(k);
  }

  /** The rows of a feature with a new id append that feature. */
  lemma {:induction false} LoadRunNew(ms: FeatureMap, cur: int, k: int, ps: seq<Point>)
    requires Good(Loading(ms, cur)) && k !in Ids(ms) && |ps| > 0
    ensures LoadFold(Loading(ms, cur), RowsOf(k, ps)) == Loading(ms + [Entry(k, BareAll(ps))], k)
  {
    var s := Loading(ms, cur);
    var n := |ps| - 1;
    RowsSnoc(k, ps);
    LoadFoldLast(s, RowsOf(k, ps[..n]), InRow(k as real, ps[n].x, ps[n].y));
    if n == 0 {
      assert LoadFold(s, RowsOf(k, ps[..0])) == s;
      StartNew(ms, cur, k, ps[0]);
      assert BareAll(ps) == BareAll(ps[..0]) + [Bare(ps[0])] == [Bare(ps[0])];
    } else {
      LoadRunNew(ms, cur, k, ps[..n]);
      ExtendLast(ms, k, BareAll(ps[..n]), ps[n]);
    }
  }

  /** The rows of a feature end with the row of its last point. */
  lemma RowsSnoc(k: int, ps: seq<Point>)
    requires |ps| > 0
    ensures RowsOf(k, ps) == RowsOf(k, ps[..|ps| - 1]) + [InRow(k as real, ps[|ps| - 1].x, ps[|ps| - 1].y)]
  {
  }

  /** The rows of feature 0 fill the list the loader starts with. */
  lemma {:induction false} LoadRunZero(ps: seq<Point>)
    ensures LoadFold(Start(), RowsOf(0, ps)) == Loading([Entry(0, BareAll(ps))], 0)
  {
    if |ps| > 0 {
      var n := |ps| - 1;
      var cs := BareAll(ps[..n]);
      LoadRunZero(ps[..n]);
      RowsSnoc(0, ps);
      ZeroStep(cs, ps[n]);
      LoadRunStep(Start(), RowsOf(0, ps[..n]), InRow(0 as real, ps[n].x, ps[n].y),
        Loading([Entry(0, cs)], 0), Loading([Entry(0, cs + [Bare(ps[n])])], 0));
    }
  }

  /** A row of feature 0 while it is the only feature. */
  lemma ZeroStep(cs: seq<Coord>, p: Point)
    ensures Good(Loading([Entry(0, cs)], 0))
    ensures LoadStep(Loading([Entry(0, cs)], 0), InRow(0 as real, p.x, p.y)) == Loading([Entry(0, cs + [Bare(p)])], 0)
  {
    assert [] + [Entry(0, cs)] == [Entry(0, cs)];
    assert [] + [Entry(0, cs + [Bare(p)])] == [Entry(0, cs + [Bare(p)])];
    assert Ids([Entry(0, cs)])[0] == 0;
    ExtendLast([], 0, cs, p);
  }

  /** Loading `pre + [row]`, from what loading `pre` gives. */
  lemma LoadRunStep(s: Loading, pre: seq<InRow>, row: InRow, x: Loading, want: Loading)
    requires Good(s) && Good(x) && LoadFold(s, pre) == x && LoadStep(x, row) == want
    ensures LoadFold(s, pre + [row]) == want
  {
    LoadFoldLast(s, pre, row);
  }

  /** Loading a dictionary's rows rebuilds it, coordinates only. */
  lemma {:induction false} LoadPointRows(m: FeatureMap)
    requires Loadable(m)
    ensures LoadFold(Start(), PointRows(m)) == Loading(Bared(m), m[|m| - 1].id)
  {
    var n := |m| - 1;
    if n == 0 {
      LoadFirst(m);
    } else {
      var pre := m[..n];
      var k := m[n].id;
      var pts := Points(m[n].coords);
      assert Loadable(pre);
      LoadPointRows(pre);
      assert PointRows(m) == PointRows(pre) + RowsOf(k, pts);
      FreshKey(m);
      LoadNext(PointRows(pre), pre, m[n - 1].id, k, pts);
      BaredSnoc(m);
    }
  }

  lemma LoadFirst(m: FeatureMap)
    requires Loadable(m) && |m| == 1
    ensures LoadFold(Start(), PointRows(m)) == Loading(Bared(m), m[0].id)
  {
    var pts := Points(m[0].coords);
    assert PointRows(m) == PointRows(m[..0]) + RowsOf(0, pts) == RowsOf(0, pts);
    LoadRunZero(pts);
    assert Bared(m) == [Entry(0, BareAll(pts))];
  }

  /** The last feature's id is new to the features before it, and non-empty. */
  lemma FreshKey(m: FeatureMap)
    requires Loadable(m) && |m| > 1
    ensures m[|m| - 1].id !in Ids(Bared(m[..|m| - 1]))
    ensures |Points(m[|m| - 1].coords)| > 0
  {
    var n := |m| - 1;
    assert Ids(Bared(m[..n])) == Ids(m[..n]);
  }

  /** The rows of one more feature, after those of the features before it. */
  lemma LoadNext(head: seq<InRow>, pre: FeatureMap, cur: int, k: int, pts: seq<Point>)
    requires Good(Loading(Bared(pre), cur)) && k !in Ids(Bared(pre)) && |pts| > 0
    requires LoadFold(Start(), head) == Loading(Bared(pre), cur)
    ensures LoadFold(Start(), head + RowsOf(k, pts)) == Loading(Bared(pre) + [Entry(k, BareAll(pts))], k)
  {
    LoadFoldAppend(Start(), head, RowsOf(k, pts));
    LoadRunNew(Bared(pre), cur, k, pts);
  }

  /** The data rows `save_results` writes, read back by `open_data`, give
      back every feature under its id with its coordinates in order (the
      other keys are not read). */
  lemma SaveLoad(m: FeatureMap, keys: seq<string>)
    requires Loadable(m) && HasKeys(m, keys)
    ensures SaveRows(m, keys).Ok?
    ensures LoadCsv(Reread(SaveRows(m, keys).value)) == Bared(m)
  {
    RereadRows(m, keys);
    LoadPointRows(m);
  }

  lemma BaredSnoc(m: FeatureMap)
    requires |m| > 0
    ensures Bared(m) == Bared(m[..|m| - 1]) + [Entry(m[|m| - 1].id, BareAll(Points(m[|m| - 1].coords)))]
  {
    var n := |m| - 1;
    var a := Bared(m);
    var b := Bared(m[..n]) + [Entry(m[n].id, BareAll(Points(m[n].coords)))];
    assert |a| == |b|;
    forall i | 0 <= i < |a|
      ensures a[i] == b[i]
    {
      if i < n {
        assert m[..n][i] == m[i];
      }
    }
  }

  // ---------------------------------------------------------------------
  // Averages

  /** The values of `key` over all coordinates, feature by feature (a
      coordinate without the key, which `Averages` rules out first, counts
      as 0). */
  function KeyValues(m: FeatureMap, key: string): (vals: seq<real>)
    ensures |vals| == CoordCount(m)
  {
    if |m| == 0 then []
    else
      var e := m[|m| - 1];
      KeyValues(m[..|m| - 1], key)
        + seq(|e.coords|, j requires 0 <= j < |e.coords| =>
                if key in e.coords[j].fields then e.coords[j].fields[key] else 0.0)
  }

  /** A tally divided by the coordinate count. */
  function Share(total: real, n: nat): (a: real)
    requires n > 0
    ensures Shares(a, n, total)
  {
    total / n as real
  }

  /** `a` is `total` shared over `n`. */
  ghost predicate Shares(a: real, n: nat, total: real)
  {
    a * n as real == total
  }

  /** `a` is `times` copies of `total` shared over `n` coordinates. */
  ghost predicate IsAverage(a: real, n: nat, times: nat, total: real)
  {
    Shares(a, n, times as real * total)
  }

  /** The average of one key: its tally, once per listing, over the
      coordinate count. */
  function AvgOf(m: FeatureMap, keys: seq<string>, key: string): (a: real)
    requires CoordCount(m) > 0
    ensures IsAverage(a, CoordCount(m), multiset(keys)[key], Sum(KeyValues(m, key)))
  {
    var times := multiset(keys)[key];
    var total := Sum(KeyValues(m, key));
    Share(times as real * total, CoordCount(m))
  }

  /** One average per distinct key, in first-listed order. */
  function AvgList(m: FeatureMap, keys: seq<string>): (avgs: seq<(string, real)>)
    requires CoordCount(m) > 0
    ensures forall i, j :: 0 <= i < j < |avgs| ==> avgs[i].0 != avgs[j].0
    ensures forall t :: 0 <= t < |keys| ==> Named(avgs, keys[t])
    ensures forall i :: 0 <= i < |avgs| ==> avgs[i].0 in keys && avgs[i].1 == AvgOf(m, keys, avgs[i].0)
  {
    var u := Dedup(keys);
    var avgs := seq(|u|, i requires 0 <= i < |u| => (u[i], AvgOf(m, keys, u[i])));
    NamedAfter(keys, u, avgs);
    avgs
  }

  /** Some average is named `key`. */
  ghost predicate Named(avgs: seq<(string, real)>, key: string)
  {
    exists i :: 0 <= i < |avgs| && avgs[i].0 == key
  }

  /** Pairs named after the distinct keys `u` of `keys` are named after
      each key exactly once. */
  lemma NamedAfter(keys: seq<string>, u: seq<string>, ps: seq<(string, real)>)
    requires forall i, j :: 0 <= i < j < |u| ==> u[i] != u[j]
    requires forall t :: 0 <= t < |keys| ==> keys[t] in u
    requires forall i :: 0 <= i < |u| ==> u[i] in keys
    requires |ps| == |u| && forall i :: 0 <= i < |u| ==> ps[i].0 == u[i]
    ensures forall i, j :: 0 <= i < j < |ps| ==> ps[i].0 != ps[j].0
    ensures forall t :: 0 <= t < |keys| ==> Named(ps, keys[t])
    ensures forall i :: 0 <= i < |ps| ==> ps[i].0 in keys
  {
    forall t | 0 <= t < |keys|
      ensures Named(ps, keys[t])
    {
      var w :| 0 <= w < |u| && u[w] == keys[t];
      assert ps[w].0 == keys[t];
    }
    forall i, j | 0 <= i < j < |ps|
      ensures ps[i].0 != ps[j].0
    {
      assert ps[i].0 == u[i] && ps[j].0 == u[j];
    }
    forall i | 0 <= i < |ps|
      ensures ps[i].0 in keys
    {
      assert ps[i].0 == u[i];
    }
  }

  /** The averages `run_analysis` shows, one per distinct enabled key in
      first-listed order. A key listed twice is tallied twice per
      coordinate. Skipping falsy values adds nothing, as the only falsy real
      is zero. A coordinate lacking a key raises `KeyError` while tallying;
      with keys but no coordinates the division raises `ZeroDivisionError`. */
  function Averages(m: FeatureMap, keys: seq<string>): (r: Result<seq<(string, real)>>)
    ensures r.Ok? <==> HasKeys(m, keys) && (CoordCount(m) > 0 || |keys| == 0)
    ensures r.Fail? ==> r.error == if HasKeys(m, keys) then ZeroDivision else KeyError
    ensures r.Ok? ==> forall i, j :: 0 <= i < j < |r.value| ==> r.value[i].0 != r.value[j].0
    ensures r.Ok? ==> forall t :: 0 <= t < |keys| ==> Named(r.value, keys[t])
    ensures r.Ok? ==> forall i :: 0 <= i < |r.value| ==> r.value[i].0 in keys
    ensures r.Ok? ==> forall i :: 0 <= i < |r.value| ==>
              IsAverage(r.value[i].1, CoordCount(m), multiset(keys)[r.value[i].0], Sum(KeyValues(m, r.value[i].0)))
  {
    if !HasKeys(m, keys) then Fail(KeyError)
    else if CoordCount(m) == 0 then (if |keys| == 0 then Ok([]) else Fail(ZeroDivision))
    else Ok(AvgList(m, keys))
  }

  /** A key listed once averages to the mean of its values over all
      coordinates, so it lies within any bounds on them. */
  lemma AverageIsMean(m: FeatureMap, keys: seq<string>, i: nat, lo: real, hi: real)
    requires Averages(m, keys).Ok? && i < |Averages(m, keys).value|
    requires multiset(keys)[Averages(m, keys).value[i].0] == 1
    requires CoordCount(m) > 0
    requires forall v :: v in KeyValues(m, Averages(m, keys).value[i].0) ==> lo <= v <= hi
    ensures Averages(m, keys).value[i].1 == Mean(KeyValues(m, Averages(m, keys).value[i].0))
    ensures lo <= Averages(m, keys).value[i].1 <= hi
  {
    var r := Averages(m, keys).value;
    var vals := KeyValues(m, r[i].0);
    var a := r[i].1;
    assert IsAverage(a, |vals|, 1, Sum(vals));
    MeanOfAverage(a, vals);
    forall t | 0 <= t < |vals|
      ensures lo <= vals[t] <= hi
    {
      assert vals[t] in vals;
    }
    MeanBounds(vals, lo, hi);
  }

  // ---------------------------------------------------------------------
  // The feature-count label

  /** `max(f_data.keys())`: the largest id; `max` of no ids raises
      `ValueError`. */
  function MaxKey(m: FeatureMap): (r: Result<int>)
    ensures r.Ok? <==> |m| > 0
    ensures r.Fail? ==> r.error == ValueError
    ensures r.Ok? ==> r.value in Ids(m) && forall i :: 0 <= i < |m| ==> m[i].id <= r.value
  {
    if |m| == 0 then Fail(ValueError)
    else
      var n := |m| - 1;
      var rest := MaxKey(m[..n]);
      var best := if rest.Ok? && rest.value > m[n].id then rest.value else m[n].id;
      assert Ids(m) == Ids(m[..n]) + [m[n].id];
      Ok(best)
  }

  /** For tracer output the label shows one less than the number of
      features, since ids count from 0. */
  lemma MaxKeyOfTracings(ts: seq<seq<Point>>)
    requires |ts| > 0
    ensures MaxKey(FromTracings(ts)) == Ok(|ts| - 1)
  {
    var m := FromTracings(ts);
    var r := MaxKey(m);
    assert m[|ts| - 1].id == |ts| - 1;
    assert r.value in Ids(m);
  }

  /** A value that is the whole sum shared over the count is the mean. */
  lemma MeanOfAverage(a: real, vals: seq<real>)
    requires |vals| > 0 && IsAverage(a, |vals|, 1, Sum(vals))
    ensures a == Mean(vals)
  {
    var k := |vals| as real;
    var b := Mean(vals);
    assert b * k == Sum(vals);
    assert (a - b) * k == 0.0;
  }
}
