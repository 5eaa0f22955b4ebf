/** The lifetime statistics drawn from the tracker's results: the lifetimes
    of tracks still active at the last frame, and the merging of completed
    tracks that sit close together in space and do not overlap in time. */
module LifetimeStats {
  import opened Seqs
  import opened Geometry

  /** The frame the tracker stopped at. */
  const LastFrame: int := 120

  /** Completed tracks are merged only with tracks whose centres are nearer
      than this. */
  const MaxCompletedDistance: real := 10.0

  // ---------------------------------------------------------------------
  // Active tracks

  /** `120 - active.start_frame`. */
  function Lives(starts: seq<int>): (ls: seq<int>)
    ensures |ls| == |starts|
    ensures forall i :: 0 <= i < |starts| ==> ls[i] == LastFrame - starts[i]
  {
    seq(|starts|, i requires 0 <= i < |starts| => LastFrame - starts[i])
  }

  /** The lifetimes of the active tracks, without those that started on the
      last frame, ascending: every positive lifetime as often as it occurs,
      nothing else. */
  function ActiveLives(starts: seq<int>): (r: seq<int>)
    ensures Sorted(r)
    ensures forall x :: multiset(r)[x] == if x > 0 then multiset(Lives(starts))[x] else 0
  {
    var kept := Filter(Lives(starts), x => x > 0);
    FilterCount(Lives(starts), x => x > 0);
    Sort(kept)
  }

  /** Any ascending list of exactly the positive lifetimes is the one
      `ActiveLives` computes. */
  lemma ActiveLivesUnique(starts: seq<int>, s: seq<int>)
    requires Sorted(s)
    requires forall x :: multiset(s)[x] == if x > 0 then multiset(Lives(starts))[x] else 0
    ensures s == ActiveLives(starts)
  {
    var r := ActiveLives(starts);
    assert multiset(s) == multiset(r);
    SortedUnique(s, r);
  }

  // ---------------------------------------------------------------------
  // Completed tracks

  /** A completed track: its first and last frame and the mean of its
      per-frame centres. */
  datatype Completed = Completed(start: int, end: int, centre: Point)

  /** One row of `dists_full`: a track's distance from the track being
      merged, and its frames. */
  datatype Cand = Cand(d: real, start: int, stop: int)

  /** `max(x.start, y.start) < min(x.stop, y.stop)` on two ranges. */
  predicate Overlaps(a0: int, a1: int, b0: int, b1: int)
  {
    (if a0 < b0 then b0 else a0) < (if a1 < b1 then a1 else b1)
  }

  /** Frame `t` lies in `range(lo, hi)`. */
  predicate InRange(t: int, lo: int, hi: int)
  {
    lo <= t < hi
  }

  /** Two ranges overlap exactly when they share a frame; so the test is
      symmetric. */
  lemma OverlapsShared(a0: int, a1: int, b0: int, b1: int)
    ensures Overlaps(a0, a1, b0, b1) <==> exists t :: InRange(t, a0, a1) && InRange(t, b0, b1)
    ensures Overlaps(a0, a1, b0, b1) <==> Overlaps(b0, b1, a0, a1)
  {
    var lo := if a0 < b0 then b0 else a0;
    if Overlaps(a0, a1, b0, b1) {
      assert InRange(lo, a0, a1) && InRange(lo, b0, b1);
    }
  }

  /** The row of `dists_full` for track `other`. */
  function CandOf(row: Completed, other: Completed, dist: Dist): Cand
  {
    Cand(dist(row.centre, other.centre), other.start, other.end)
  }

  /** Strictly between 0 and the merge distance. */
  predicate Near(c: Cand)
  {
    0.0 < c.d < MaxCompletedDistance
  }

  /** The tracks that are candidates for merging with `row`: the rows of
      `dists_full` that survive the distance filter, each as often as it
      occurs. The sort by distance before the filter is not modelled: it
      changes neither which rows are removed below nor their sum. */
  function Candidates(row: Completed, rows: seq<Completed>, dist: Dist): (cs: seq<Cand>)
    ensures forall c :: c in cs ==> Near(c)
    ensures forall c :: multiset(cs)[c] ==
              if Near(c) then multiset(seq(|rows|, j requires 0 <= j < |rows| => CandOf(row, rows[j], dist)))[c] else 0
  {
    var all := seq(|rows|, j requires 0 <= j < |rows| => CandOf(row, rows[j], dist));
    FilterCount(all, Near);
    Filter(all, Near)
  }

  /** With a distance that is zero from a point to itself, a track is never
      its own candidate. */
  lemma NotOwnCandidate(row: Completed, rows: seq<Completed>, dist: Dist)
    requires dist(row.centre, row.centre) == 0.0
    ensures CandOf(row, row, dist) !in Candidates(row, rows, dist)
  {
  }

  /** `(row_sup != row_sub).all()`: the two rows differ in every field. */
  predicate Differ(p: Cand, q: Cand)
  {
    p.d != q.d && p.start != q.start && p.stop != q.stop
  }

  /** A pair recorded in `overlaprows`. */
  predicate OverlapPair(p: Cand, q: Cand)
  {
    Overlaps(p.start, p.stop, q.start, q.stop) && Differ(p, q)
  }

  /** `olr_unique`: the overlapping pairs' distances, each pair sorted. */
  function OverlapDists(cs: seq<Cand>): (pairs: set<(real, real)>)
    ensures forall pr :: pr in pairs ==> pr.0 < pr.1
    ensures forall p, q :: p in cs && q in cs && OverlapPair(p, q) ==>
              (if p.d < q.d then (p.d, q.d) else (q.d, p.d)) in pairs
    ensures forall pr :: pr in pairs ==>
              exists p, q :: p in cs && q in cs && OverlapPair(p, q) && pr == (if p.d < q.d then (p.d, q.d) else (q.d, p.d))
  {
    set p, q | p in cs && q in cs && OverlapPair(p, q) :: if p.d < q.d then (p.d, q.d) else (q.d, p.d)
  }

  /** The candidates left once, for each overlapping pair, every candidate at
      the pair's larger distance is dropped. */
  function Prune(cs: seq<Cand>): (kept: seq<Cand>)
    ensures forall c :: multiset(kept)[c] ==
              if forall pr :: pr in OverlapDists(cs) ==> pr.1 != c.d then multiset(cs)[c] else 0
  {
    var pairs := OverlapDists(cs);
    var keep := (c: Cand) => forall pr :: pr in pairs ==> pr.1 != c.d;
    FilterCount(cs, keep);
    Filter(cs, keep)
  }

  /** After pruning no two candidates that differ in distance, start and
      stop overlap: of every such overlapping pair the more distant one is
      gone. Candidates sharing a field are never compared, see
      `PruneKeepsSharedStart`. */
  lemma PruneNoOverlap(cs: seq<Cand>)
    ensures forall p, q :: p in Prune(cs) && q in Prune(cs) ==> !OverlapPair(p, q)
  {
    var kept := Prune(cs);
    forall p, q | p in kept && q in kept
      ensures !OverlapPair(p, q)
    {
      assert multiset(kept)[p] > 0 && multiset(kept)[q] > 0;
      assert p in cs && q in cs;
    }
  }

  /** Two candidates that share their start frame are not an overlap pair,
      as `(row_sup != row_sub).all()` fails for them: both survive pruning
      although their frames overlap. */
  lemma PruneKeepsSharedStart()
    ensures var p := Cand(1.0, 0, 5);
            var q := Cand(2.0, 0, 6);
            && Overlaps(p.start, p.stop, q.start, q.stop)
            && p in Prune([p, q]) && q in Prune([p, q])
  {
    var p := Cand(1.0, 0, 5);
    var q := Cand(2.0, 0, 6);
    var cs := [p, q];
    forall a, b | a in cs && b in cs
      ensures !OverlapPair(a, b)
    {
      assert a.start == 0 && b.start == 0;
    }
    assert OverlapDists(cs) == {};
    assert multiset(Prune(cs))[p] == multiset(cs)[p] > 0;
    assert multiset(Prune(cs))[q] == multiset(cs)[q] > 0;
  }

  /** The frames spanned by the candidates, summed. */
  function Span(cs: seq<Cand>): int
  {
    if |cs| == 0 then 0 else Span(cs[..|cs| - 1]) + (cs[|cs| - 1].stop - cs[|cs| - 1].start)
  }

  /** The lifetime a completed track contributes: the summed spans of its
      pruned candidates when there are any, else its own span. */
  datatype Outcome = Merged(life: int) | Isolated(life: int)

  function RowOutcome(row: Completed, rows: seq<Completed>, dist: Dist): (o: Outcome)
    ensures o.Isolated? <==> Prune(Candidates(row, rows, dist)) == []
    ensures o.Isolated? ==> o.life == row.end - row.start
    ensures o.Merged? ==> o.life == Span(Prune(Candidates(row, rows, dist)))
  {
    var kept := Prune(Candidates(row, rows, dist));
    if |kept| > 0 then Merged(Span(kept)) else Isolated(row.end - row.start)
  }

  /** The lifetimes of the outcomes of one kind, in row order. */
  function LivesOf(os: seq<Outcome>, merged: bool): (ls: seq<int>)
    ensures |ls| <= |os|
  {
    if |os| == 0 then []
    else
      var n := |os| - 1;
      LivesOf(os[..n], merged) + (if os[n].Merged? == merged then [os[n].life] else [])
  }

  /** The lifetimes of all outcomes, in row order. */
  function AllLives(os: seq<Outcome>): (ls: seq<int>)
    ensures |ls| == |os|
    ensures forall i :: 0 <= i < |os| ==> ls[i] == os[i].life
  {
    if |os| == 0 then [] else AllLives(os[..|os| - 1]) + [os[|os| - 1].life]
  }

  /** Every outcome lands in exactly one of the two lists. */
  lemma {:induction false} LivesOfSplit(os: seq<Outcome>)
    ensures |LivesOf(os, true)| + |LivesOf(os, false)| == |os|
    ensures multiset(LivesOf(os, true)) + multiset(LivesOf(os, false)) == multiset(AllLives(os))
  {
    if |os| > 0 {
      LivesOfSplit(os[..|os| - 1]);
    }
  }

  /** `comp_life_match` and `comp_life_nomatch`: the merged and the isolated
      lifetimes of all completed tracks, each list ascending. Together they
      hold one lifetime per track. */
  function CompletedLives(rows: seq<Completed>, dist: Dist): (r: (seq<int>, seq<int>))
    ensures Sorted(r.0) && Sorted(r.1)
    ensures |r.0| + |r.1| == |rows|
    ensures multiset(r.0) + multiset(r.1) == multiset(AllLives(Outcomes(rows, dist)))
    ensures multiset(r.0) == multiset(LivesOf(Outcomes(rows, dist), true))
    ensures multiset(r.1) == multiset(LivesOf(Outcomes(rows, dist), false))
  {
    var os := Outcomes(rows, dist);
    LivesOfSplit(os);
    (Sort(LivesOf(os, true)), Sort(LivesOf(os, false)))
  }

  /** The outcome of every completed track, in row order. */
  function Outcomes(rows: seq<Completed>, dist: Dist): (os: seq<Outcome>)
    ensures |os| == |rows|
    ensures forall i :: 0 <= i < |rows| ==> os[i] == RowOutcome(rows[i], rows, dist)
  {
    seq(|rows|, i requires 0 <= i < |rows| => RowOutcome(rows[i], rows, dist))
  }

  /** Each track's lifetime is in the list of its kind. */
  lemma {:induction false} LivesOfMember(os: seq<Outcome>, i: nat)
    requires i < |os|
    ensures os[i].life in LivesOf(os, os[i].Merged?)
  {
    var n := |os| - 1;
    if i < n {
      LivesOfMember(os[..n], i);
    }
  }

  /** A track without surviving candidates lands in the isolated list with
      its own span (`RowOutcome`); any other lands in the merged list with its
      candidates' summed spans. */
  lemma CompletedMember(rows: seq<Completed>, dist: Dist, i: nat)
    requires i < |rows|
    ensures Outcomes(rows, dist)[i].Merged? ==> Outcomes(rows, dist)[i].life in CompletedLives(rows, dist).0
    ensures Outcomes(rows, dist)[i].Isolated? ==> Outcomes(rows, dist)[i].life in CompletedLives(rows, dist).1
  {
    var os := Outcomes(rows, dist);
    var r := CompletedLives(rows, dist);
    LivesOfMember(os, i);
    assert os[i].life in multiset(LivesOf(os, os[i].Merged?));
  }
}
