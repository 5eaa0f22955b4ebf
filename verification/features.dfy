/** The feature dictionary `{f_num: [{'coord': (x, y), name: value, ...}, ...]}`
    that the analysis, the sequence tracer and the analysis widget pass around.
    Python dicts keep insertion order, so the dictionary is a sequence of
    entries with distinct ids; the keys of one coordinate dictionary other
    than `'coord'` are a map, since nothing in the core observes their order. */
module Features {
  import opened Base
  import opened Geometry

  /** One coordinate dictionary: its `'coord'` tuple and its other keys. */
  datatype Coord = Coord(coord: Point, fields: map<string, real>)

  /** One `f_num: [coordinate dict, ...]` item. */
  datatype Entry = Entry(id: int, coords: seq<Coord>)

  type FeatureMap = seq<Entry>

  function Ids(m: FeatureMap): (ids: seq<int>)
    ensures |ids| == |m|
    ensures forall i :: 0 <= i < |m| ==> ids[i] == m[i].id
  {
    if |m| == 0 then [] else Ids(m[..|m| - 1]) + [m[|m| - 1].id]
  }

  /** Dictionary keys are distinct. */
  ghost predicate WellKeyed(m: FeatureMap)
  {
    forall i, j :: 0 <= i < j < |m| ==> m[i].id != m[j].id
  }

  /** The coordinates of one feature, in order. */
  function Points(cs: seq<Coord>): (ps: seq<Point>)
    ensures |ps| == |cs|
    ensures forall j :: 0 <= j < |cs| ==> ps[j] == cs[j].coord
  {
    if |cs| == 0 then [] else Points(cs[..|cs| - 1]) + [cs[|cs| - 1].coord]
  }

  /** Two maps hold the same features and the same coordinates, in the same
      order; only the non-`'coord'` keys may differ. */
  ghost predicate SameShape(m: FeatureMap, n: FeatureMap)
  {
    && |m| == |n|
    && forall i :: 0 <= i < |m| ==>
         && m[i].id == n[i].id
         && Points(m[i].coords) == Points(n[i].coords)
  }

  /** A fresh coordinate dictionary `{"coord": (float(x), float(y))}`. */
  function Bare(p: Point): Coord
  {
    Coord(p, map[])
  }

  function BareAll(ps: seq<Point>): (cs: seq<Coord>)
    ensures |cs| == |ps|
    ensures forall j :: 0 <= j < |ps| ==> cs[j] == Bare(ps[j])
  {
    if |ps| == 0 then [] else BareAll(ps[..|ps| - 1]) + [Bare(ps[|ps| - 1])]
  }

  /** The conversion of tracer output (a list of features, each a list of
      `(x, y)`) into a feature dictionary: feature `k` is stored under id `k`. */
  function FromTracings(ts: seq<seq<Point>>): (m: FeatureMap)
    ensures |m| == |ts|
    ensures forall k :: 0 <= k < |m| ==> m[k].id == k
    ensures forall k :: 0 <= k < |m| ==> m[k].coords == BareAll(ts[k])
  {
    if |ts| == 0 then []
    else FromTracings(ts[..|ts| - 1]) + [Entry(|ts| - 1, BareAll(ts[|ts| - 1]))]
  }

  /** The tracings are recovered from the converted dictionary, its ids are
      distinct, and every coordinate dictionary holds nothing but `'coord'`. */
  lemma FromTracingsInverse(ts: seq<seq<Point>>)
    ensures |FromTracings(ts)| == |ts|
    ensures forall k :: 0 <= k < |ts| ==> Points(FromTracings(ts)[k].coords) == ts[k]
    ensures WellKeyed(FromTracings(ts))
    ensures Ids(FromTracings(ts)) == seq(|ts|, k => k)
    ensures forall k, j :: 0 <= k < |ts| && 0 <= j < |ts[k]| ==>
              FromTracings(ts)[k].coords[j].fields == map[]
  {
    var m := FromTracings(ts);
    forall k | 0 <= k < |ts|
      ensures Points(m[k].coords) == ts[k]
    {
      assert m[k].coords == BareAll(ts[k]);
    }
  }

  /** `d[id] = v` on an insertion-ordered dict: an existing key keeps its
      place and gets the new value, a new key goes to the end. */
  function Put(m: FeatureMap, id: int, coords: seq<Coord>): (r: FeatureMap)
    ensures id in Ids(m) ==> |r| == |m|
    ensures id !in Ids(m) ==> r == m + [Entry(id, coords)]
    ensures forall i :: 0 <= i < |m| ==>
              r[i] == (if m[i].id == id then Entry(id, coords) else m[i])
  {
    if id in Ids(m) then
      seq(|m|, i requires 0 <= i < |m| => if m[i].id == id then Entry(id, coords) else m[i])
    else m + [Entry(id, coords)]
  }

  /** `d.get(id)`: the list stored under `id`, if any. */
  function Lookup(m: FeatureMap, id: int): (r: Option<seq<Coord>>)
    ensures r.Some? <==> id in Ids(m)
  {
    if |m| == 0 then None
    else
      assert Ids(m) == [m[0].id] + Ids(m[1..]);
      if m[0].id == id then Some(m[0].coords) else Lookup(m[1..], id)
  }

  /** With distinct keys, looking up the key of entry `i` finds entry `i`. */
  lemma {:induction false} LookupAt(m: FeatureMap, i: int)
    requires WellKeyed(m) && 0 <= i < |m|
    ensures Lookup(m, m[i].id) == Some(m[i].coords)
  {
    if i > 0 {
      LookupAt(m[1..], i - 1);
    }
  }

  /** `Put` keeps the keys distinct and makes `id` hold the new list, leaving
      every other key's value unchanged. */
  lemma PutLookup(m: FeatureMap, id: int, coords: seq<Coord>, other: int)
    requires WellKeyed(m)
    ensures WellKeyed(Put(m, id, coords))
    ensures Lookup(Put(m, id, coords), id) == Some(coords)
    ensures other != id ==> Lookup(Put(m, id, coords), other) == Lookup(m, other)
  {
    var r := Put(m, id, coords);
    assert Ids(r) == Ids(m) || Ids(r) == Ids(m) + [id];
    assert WellKeyed(r);
    var k :| 0 <= k < |r| && r[k].id == id;
    LookupAt(r, k);
    if other != id && other in Ids(m) {
      var j :| 0 <= j < |m| && m[j].id == other;
      LookupAt(m, j);
      LookupAt(r, j);
    }
  }
}
