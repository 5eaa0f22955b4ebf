/** Sequence primitives with Python's semantics: subscripts, `list.count`,
    `np.argmin`, `max(s, key=s.count)`, filtering and ascending sorts. */
module Seqs {
  import opened Base

  /** Python/numpy subscript of a length-`n` axis: negative indices count
      from the back, anything outside [-n, n) raises IndexError (None). */
  function PyIndex(n: nat, i: int): (r: Option<nat>)
    ensures r.Some? <==> -(n as int) <= i < n
    ensures r.Some? ==> r.value < n && (r.value - i) % n == 0
  {
    if 0 <= i < n then Some(i)
    else if -(n as int) <= i < 0 then Some(n + i)
    else None
  }

  /** `s[i]` with Python's semantics. */
  function PyGet<T>(s: seq<T>, i: int): (r: Option<T>)
    ensures r.Some? <==> -|s| <= i < |s|
    ensures 0 <= i < |s| ==> r == Some(s[i])
    ensures -|s| <= i < 0 ==> r == Some(s[|s| + i])
  {
    match PyIndex(|s|, i)
    case Some(k) => Some(s[k])
    case None => None
  }

  /** `s.index(x)`: the first position holding `x`. */
  function FirstIndex<T(==)>(s: seq<T>, x: T): (k: nat)
    requires x in s
    ensures k < |s| && s[k] == x
    ensures forall j :: 0 <= j < k ==> s[j] != x
  {
    if s[0] == x then 0 else 1 + FirstIndex(s[1..], x)
  }

  function Sum(s: seq<real>): real
  {
    if |s| == 0 then 0.0 else Sum(s[..|s| - 1]) + s[|s| - 1]
  }

  function SumInt(s: seq<int>): int
  {
    if |s| == 0 then 0 else SumInt(s[..|s| - 1]) + s[|s| - 1]
  }

  lemma {:induction false} SumAppend(s: seq<real>, t: seq<real>)
    ensures Sum(s + t) == Sum(s) + Sum(t)
    decreases |t|
  {
    if |t| == 0 {
      assert s + t == s;
    } else {
      assert (s + t)[..|s + t| - 1] == s + t[..|t| - 1];
      SumAppend(s, t[..|t| - 1]);
    }
  }

  /** A sum of non-negative terms is non-negative. */
  lemma {:induction false} SumNonNegative(s: seq<real>)
    requires forall i :: 0 <= i < |s| ==> 0.0 <= s[i]
    ensures 0.0 <= Sum(s)
    decreases |s|
  {
    if |s| > 0 {
      SumNonNegative(s[..|s| - 1]);
    }
  }

  /** `np.mean` of a non-empty list. */
  function Mean(s: seq<real>): real
    requires |s| > 0
  {
    Sum(s) / |s| as real
  }

  lemma {:induction false} SumBounds(s: seq<real>, lo: real, hi: real)
    requires forall i :: 0 <= i < |s| ==> lo <= s[i] <= hi
    ensures lo * |s| as real <= Sum(s) <= hi * |s| as real
  {
    if |s| > 0 {
      var n := |s| - 1;
      var k := n as real;
      SumBounds(s[..n], lo, hi);
      assert Sum(s) == Sum(s[..n]) + s[n];
      assert lo * (k + 1.0) == lo * k + lo;
      assert hi * (k + 1.0) == hi * k + hi;
    }
  }

  /** A mean lies between any lower and upper bound of its values. */
  lemma MeanBounds(s: seq<real>, lo: real, hi: real)
    requires |s| > 0
    requires forall i :: 0 <= i < |s| ==> lo <= s[i] <= hi
    ensures lo <= Mean(s) <= hi
  {
    SumBounds(s, lo, hi);
    var n := |s| as real;
    assert Mean(s) * n == Sum(s);
  }

  /** The positions of `s` from `i` on whose entry satisfies `keep`, in
      increasing order. */
  function KeptFrom<T>(s: seq<T>, keep: T -> bool, i: nat): (idx: seq<nat>)
    requires i <= |s|
    ensures |idx| <= |s| - i
    ensures forall t :: 0 <= t < |idx| ==> i <= idx[t] < |s| && keep(s[idx[t]])
    ensures forall t, u :: 0 <= t < u < |idx| ==> idx[t] < idx[u]
    ensures forall j :: i <= j < |s| && keep(s[j]) ==> j in idx
    decreases |s| - i
  {
    if i == |s| then []
    else
      var rest := KeptFrom(s, keep, i + 1);
      KeptCovers(s, keep, i, rest);
      if keep(s[i]) then
        KeptPrepend(s, keep, i, rest);
        [i] + rest
      else rest
  }

  /** A kept position `i` in front of the kept positions beyond it. */
  lemma KeptPrepend<T>(s: seq<T>, keep: T -> bool, i: nat, rest: seq<nat>)
    requires i < |s| && keep(s[i])
    requires forall t :: 0 <= t < |rest| ==> i + 1 <= rest[t] < |s| && keep(s[rest[t]])
    requires forall t, u :: 0 <= t < u < |rest| ==> rest[t] < rest[u]
    ensures forall t :: 0 <= t < |[i] + rest| ==> i <= ([i] + rest)[t] < |s| && keep(s[([i] + rest)[t]])
    ensures forall t, u :: 0 <= t < u < |[i] + rest| ==> ([i] + rest)[t] < ([i] + rest)[u]
  {
    KeptRises(i, rest);
    var idx := [i] + rest;
    forall t | 0 <= t < |idx|
      ensures i <= idx[t] < |s| && keep(s[idx[t]])
    {
      if t > 0 {
        assert idx[t] == rest[t - 1];
      }
    }
  }

  /** Putting `i` in front of positions beyond `i` keeps them increasing. */
  lemma KeptRises(i: nat, rest: seq<nat>)
    requires forall t :: 0 <= t < |rest| ==> i < rest[t]
    requires forall t, u :: 0 <= t < u < |rest| ==> rest[t] < rest[u]
    ensures forall t, u :: 0 <= t < u < |[i] + rest| ==> ([i] + rest)[t] < ([i] + rest)[u]
  {
    var idx := [i] + rest;
    forall t, u | 0 <= t < u < |idx|
      ensures idx[t] < idx[u]
    {
      assert idx[u] == rest[u - 1];
      if t > 0 {
        assert idx[t] == rest[t - 1];
      }
    }
  }

  /** A kept position at or beyond `i` is `i` itself or one of `rest`. */
  lemma KeptCovers<T>(s: seq<T>, keep: T -> bool, i: nat, rest: seq<nat>)
    requires i < |s|
    requires forall j :: i + 1 <= j < |s| && keep(s[j]) ==> j in rest
    ensures var idx := if keep(s[i]) then [i] + rest else rest;
      forall j :: i <= j < |s| && keep(s[j]) ==> j in idx
  {
    var idx := if keep(s[i]) then [i] + rest else rest;
    forall j | i <= j < |s| && keep(s[j])
      ensures j in idx
    {
      if j == i {
        assert idx[0] == i;
      } else {
        var t :| 0 <= t < |rest| && rest[t] == j;
        assert idx[|idx| - |rest| + t] == j;
      }
    }
  }

  /** The positions of `s` whose entry satisfies `keep`, in increasing
      order: the index map of a filter that keeps order and repeats. */
  function Kept<T>(s: seq<T>, keep: T -> bool): (idx: seq<nat>)
    ensures |idx| <= |s|
    ensures forall t :: 0 <= t < |idx| ==> idx[t] < |s| && keep(s[idx[t]])
    ensures forall t, u :: 0 <= t < u < |idx| ==> idx[t] < idx[u]
    ensures forall j :: 0 <= j < |s| && keep(s[j]) ==> j in idx
  {
    KeptFrom(s, keep, 0)
  }

  /** When every entry is kept, every position is. */
  lemma KeptAll<T>(s: seq<T>, keep: T -> bool)
    requires forall j :: 0 <= j < |s| ==> keep(s[j])
    ensures |Kept(s, keep)| == |s|
  {
    KeptFromAll(s, keep, 0);
  }

  lemma {:induction false} KeptFromAll<T>(s: seq<T>, keep: T -> bool, i: nat)
    requires i <= |s|
    requires forall j :: 0 <= j < |s| ==> keep(s[j])
    ensures |KeptFrom(s, keep, i)| == |s| - i
    decreases |s| - i
  {
    if i < |s| {
      KeptFromAll(s, keep, i + 1);
    }
  }

  /** The entries of `s` from `i` on that satisfy `keep`, in order. */
  function FilterFrom<T>(s: seq<T>, keep: T -> bool, i: nat): (r: seq<T>)
    requires i <= |s|
    ensures |r| == |KeptFrom(s, keep, i)|
    ensures forall t :: 0 <= t < |r| ==> r[t] == s[KeptFrom(s, keep, i)[t]]
    decreases |s| - i
  {
    if i == |s| then []
    else
      var rest := FilterFrom(s, keep, i + 1);
      if keep(s[i]) then
        FilterPrepend(s, i, rest, KeptFrom(s, keep, i + 1));
        [s[i]] + rest
      else rest
  }

  /** Laying `s[i]` in front of a filter keeps the filter's index map in
      step with `[i] + ridx`. */
  lemma FilterPrepend<T>(s: seq<T>, i: nat, rest: seq<T>, ridx: seq<nat>)
    requires i < |s| && |rest| == |ridx|
    requires forall t :: 0 <= t < |ridx| ==> ridx[t] < |s| && rest[t] == s[ridx[t]]
    ensures forall t :: 0 <= t < |rest| + 1 ==> ([i] + ridx)[t] < |s| && ([s[i]] + rest)[t] == s[([i] + ridx)[t]]
  {
    forall t | 0 <= t < |rest| + 1
      ensures ([i] + ridx)[t] < |s| && ([s[i]] + rest)[t] == s[([i] + ridx)[t]]
    {
      if t > 0 {
        assert ([i] + ridx)[t] == ridx[t - 1] && ([s[i]] + rest)[t] == rest[t - 1];
      }
    }
  }

  /** `[x for x in s if keep(x)]`: the elements of `s` that satisfy `keep`,
      in their original order. */
  function Filter<T>(s: seq<T>, keep: T -> bool): (r: seq<T>)
    ensures |r| <= |s|
    ensures forall i :: 0 <= i < |r| ==> r[i] in s && keep(r[i])
    ensures forall i :: 0 <= i < |s| && keep(s[i]) ==> s[i] in r
    ensures |r| == |Kept(s, keep)|
    ensures forall t :: 0 <= t < |r| ==> r[t] == s[Kept(s, keep)[t]]
  {
    var r := FilterFrom(s, keep, 0);
    KeptMembers(s, keep, r);
    r
  }

  /** A sequence laid out by the index map of `keep` holds exactly the
      kept entries of `s`. */
  lemma KeptMembers<T>(s: seq<T>, keep: T -> bool, r: seq<T>)
    requires |r| == |Kept(s, keep)|
    requires forall t :: 0 <= t < |r| ==> r[t] == s[Kept(s, keep)[t]]
    ensures forall i :: 0 <= i < |r| ==> r[i] in s && keep(r[i])
    ensures forall i :: 0 <= i < |s| && keep(s[i]) ==> s[i] in r
  {
    var idx := Kept(s, keep);
    forall i | 0 <= i < |s| && keep(s[i])
      ensures s[i] in r
    {
      var t :| 0 <= t < |idx| && idx[t] == i;
      assert r[t] == s[i];
    }
  }

  /** `Filter` keeps every copy of a kept value and no copy of a dropped one. */
  lemma FilterCount<T>(s: seq<T>, keep: T -> bool)
    ensures forall x :: multiset(Filter(s, keep))[x] == if keep(x) then multiset(s)[x] else 0
  {
    FilterFromCount(s, keep, 0);
    assert s[0..] == s;
  }

  lemma {:induction false} FilterFromCount<T>(s: seq<T>, keep: T -> bool, i: nat)
    requires i <= |s|
    ensures forall x :: multiset(FilterFrom(s, keep, i))[x] == if keep(x) then multiset(s[i..])[x] else 0
    decreases |s| - i
  {
    if i < |s| {
      assert s[i..] == [s[i]] + s[i + 1..];
      FilterFromCount(s, keep, i + 1);
    }
  }

  /** `np.delete(s, np.where(s == x))`: every entry equal to `x` goes, and
      the others stay in order. */
  function Remove<T(==)>(s: seq<T>, x: T): (r: seq<T>)
    ensures multiset(r) == multiset(s)[x := 0]
    ensures |r| == |s| - multiset(s)[x]
    ensures |r| == |Kept(s, Differs(x))|
    ensures forall t :: 0 <= t < |r| ==> r[t] == s[Kept(s, Differs(x))[t]]
  {
    RemoveCount(s, x);
    Filter(s, Differs(x))
  }

  lemma RemoveCount<T>(s: seq<T>, x: T)
    ensures multiset(Filter(s, Differs(x))) == multiset(s)[x := 0]
    ensures |Filter(s, Differs(x))| == |s| - multiset(s)[x]
  {
    FilterCount(s, Differs(x));
    assert multiset(Filter(s, Differs(x))) == multiset(s)[x := 0];
    RemoveSize(s, x, 0);
    assert s[0..] == s;
  }

  lemma {:induction false} RemoveSize<T>(s: seq<T>, x: T, i: nat)
    requires i <= |s|
    ensures |FilterFrom(s, Differs(x), i)| == |s| - i - multiset(s[i..])[x]
    decreases |s| - i
  {
    if i < |s| {
      assert s[i..] == [s[i]] + s[i + 1..];
      RemoveSize(s, x, i + 1);
    }
  }

  /** The test `y != x`, as a value. */
  function Differs<T(==)>(x: T): T -> bool
  {
    y => y != x
  }

  /** `np.argmin`: the first index of a least element. */
  function ArgMin(d: seq<real>): (k: nat)
    requires |d| > 0
    ensures k < |d|
    ensures forall j :: 0 <= j < |d| ==> d[k] <= d[j]
    ensures forall j :: 0 <= j < k ==> d[k] < d[j]
  {
    ArgMinFrom(d, 1, 0)
  }

  function ArgMinFrom(d: seq<real>, i: nat, best: nat): (k: nat)
    requires 0 < i <= |d| && best < i
    requires forall j :: 0 <= j < i ==> d[best] <= d[j]
    requires forall j :: 0 <= j < best ==> d[best] < d[j]
    ensures k < |d|
    ensures forall j :: 0 <= j < |d| ==> d[k] <= d[j]
    ensures forall j :: 0 <= j < k ==> d[k] < d[j]
    decreases |d| - i
  {
    if i == |d| then best
    else if d[i] < d[best] then ArgMinFrom(d, i + 1, i)
    else ArgMinFrom(d, i + 1, best)
  }

  /** `max(s, key=s.count)`: Python's `max` keeps the first element whose
      key is maximal, so the result is the earliest most frequent entry. */
  function ModeIndex<T(==)>(s: seq<T>): (k: nat)
    requires |s| > 0
    ensures k < |s|
    ensures forall j :: 0 <= j < |s| ==> multiset(s)[s[j]] <= multiset(s)[s[k]]
    ensures forall j :: 0 <= j < k ==> multiset(s)[s[j]] < multiset(s)[s[k]]
  {
    ModeFrom(s, 1, 0)
  }

  function ModeFrom<T(==)>(s: seq<T>, i: nat, best: nat): (k: nat)
    requires 0 < i <= |s| && best < i
    requires forall j :: 0 <= j < i ==> multiset(s)[s[j]] <= multiset(s)[s[best]]
    requires forall j :: 0 <= j < best ==> multiset(s)[s[j]] < multiset(s)[s[best]]
    ensures k < |s|
    ensures forall j :: 0 <= j < |s| ==> multiset(s)[s[j]] <= multiset(s)[s[k]]
    ensures forall j :: 0 <= j < k ==> multiset(s)[s[j]] < multiset(s)[s[k]]
    decreases |s| - i
  {
    if i == |s| then best
    else if multiset(s)[s[i]] > multiset(s)[s[best]] then ModeFrom(s, i + 1, i)
    else ModeFrom(s, i + 1, best)
  }

  function Mode<T(==)>(s: seq<T>): T
    requires |s| > 0
  {
    s[ModeIndex(s)]
  }

  /** Dropping the last element keeps the first occurrence of an earlier value. */
  lemma {:induction false} FirstIndexInit<T>(s: seq<T>, x: T)
    requires |s| > 0 && x in s[..|s| - 1]
    ensures FirstIndex(s, x) == FirstIndex(s[..|s| - 1], x)
  {
    if s[0] != x {
      assert s[1..][..|s| - 2] == s[..|s| - 1][1..];
      FirstIndexInit(s[1..], x);
    }
  }

  /** pandas' `Series.unique()`: the distinct values in order of first appearance. */
  function Dedup<T(==)>(s: seq<T>): (u: seq<T>)
    ensures forall i, j :: 0 <= i < j < |u| ==> u[i] != u[j]
    ensures forall i :: 0 <= i < |s| ==> s[i] in u
    ensures forall i :: 0 <= i < |u| ==> u[i] in s
  {
    if |s| == 0 then []
    else
      var init := s[..|s| - 1];
      var last := s[|s| - 1];
      var u := Dedup(init);
      assert forall i :: 0 <= i < |s| - 1 ==> s[i] == init[i];
      assert forall i :: 0 <= i < |u| ==> u[i] in s;
      if last in u then u
      else
        assert last !in init;
        u + [last]
  }

  /** `unique()` lists the values in the order of their first appearance. */
  lemma {:induction false} DedupFirstAppearance<T>(s: seq<T>)
    ensures forall i, j :: 0 <= i < j < |Dedup(s)| ==> FirstIndex(s, Dedup(s)[i]) < FirstIndex(s, Dedup(s)[j])
  {
    if |s| > 0 {
      var init := s[..|s| - 1];
      var u := Dedup(init);
      DedupFirstAppearance(init);
      DedupOrder(s, u);
      if s[|s| - 1] !in u {
        assert s[|s| - 1] !in init;
        assert FirstIndex(s, s[|s| - 1]) == |s| - 1;
      }
    }
  }

  lemma DedupOrder<T>(s: seq<T>, u: seq<T>)
    requires |s| > 0
    requires forall i :: 0 <= i < |u| ==> u[i] in s[..|s| - 1]
    requires forall i, j :: 0 <= i < j < |u| ==> FirstIndex(s[..|s| - 1], u[i]) < FirstIndex(s[..|s| - 1], u[j])
    ensures forall i :: 0 <= i < |u| ==> FirstIndex(s, u[i]) < |s| - 1
    ensures forall i, j :: 0 <= i < j < |u| ==> FirstIndex(s, u[i]) < FirstIndex(s, u[j])
  {
    forall i | 0 <= i < |u|
      ensures FirstIndex(s, u[i]) == FirstIndex(s[..|s| - 1], u[i])
    {
      FirstIndexInit(s, u[i]);
    }
  }

  ghost predicate Sorted(s: seq<int>)
  {
    forall i, j :: 0 <= i < j < |s| ==> s[i] <= s[j]
  }

  function Insert(x: int, s: seq<int>): (r: seq<int>)
    requires Sorted(s)
    ensures Sorted(r)
    ensures multiset(r) == multiset(s) + multiset{x}
    ensures |r| == |s| + 1
  {
    if |s| == 0 then [x]
    else if x <= s[0] then [x] + s
    else
      var t := Insert(x, s[1..]);
      InsertTail(x, s, t);
      [s[0]] + t
  }

  lemma InsertTail(x: int, s: seq<int>, t: seq<int>)
    requires Sorted(s) && |s| > 0 && s[0] < x
    requires Sorted(t) && multiset(t) == multiset(s[1..]) + multiset{x}
    ensures Sorted([s[0]] + t)
    ensures multiset([s[0]] + t) == multiset(s) + multiset{x}
  {
    assert s == [s[0]] + s[1..];
    forall i | 0 <= i < |t|
      ensures s[0] <= t[i]
    {
      assert t[i] in multiset(t);
      if t[i] != x {
        assert t[i] in multiset(s[1..]);
      }
    }
  }

  /** Ascending sort (`list.sort()` / `ndarray.sort()`): a sorted permutation. */
  function Sort(s: seq<int>): (r: seq<int>)
    ensures Sorted(r)
    ensures multiset(r) == multiset(s)
    ensures |r| == |s|
  {
    if |s| == 0 then []
    else
      assert s == s[..|s| - 1] + [s[|s| - 1]];
      Insert(s[|s| - 1], Sort(s[..|s| - 1]))
  }

  /** A sorted sequence is determined by its multiset: `Sort` has exactly one possible result. */
  lemma {:induction false} SortedUnique(a: seq<int>, b: seq<int>)
    requires Sorted(a) && Sorted(b) && multiset(a) == multiset(b)
    ensures a == b
    decreases |a|
  {
    assert |a| == |multiset(a)| == |b|;
    if |a| > 0 {
      assert a[0] in multiset(b);
      assert b[0] in multiset(a);
      assert a[0] == b[0] by {
        var i :| 0 <= i < |b| && b[i] == a[0];
        var j :| 0 <= j < |a| && a[j] == b[0];
        assert b[0] <= a[0] && a[0] <= b[0];
      }
      assert a == [a[0]] + a[1..];
      assert b == [b[0]] + b[1..];
      assert multiset(a[1..]) == multiset(a) - multiset{a[0]};
      assert multiset(b[1..]) == multiset(b) - multiset{b[0]};
      SortedUnique(a[1..], b[1..]);
    }
  }
}
