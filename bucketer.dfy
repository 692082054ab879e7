/**
 * The distance bucketer `geo_point` (milli/src/search/criteria/geo.rs).
 *
 * The R-tree's nearest-neighbour enumeration from the reference point is a
 * sequence of `GeoPoint`s, each carrying a document id and its distance to
 * the reference point already rounded to whole meters.  A candidate set is a
 * `set<nat>`.  The bucketer walks the enumeration, removes every id it finds
 * from the working candidate set, classifies each removed id against the
 * ring schedule, and pushes a singleton bucket for every visited point
 * (candidate or not), as the source does at line 179.
 */
module Bucketer {
  import opened Options
  import opened RingSchedule

  /** One item of the nearest-neighbour enumeration. */
  datatype GeoPoint = GeoPoint(id: nat, dist: nat)

  /** The loop state of `geo_point`: `results`, `candidates`, `current_thickness`. */
  datatype Scan = Scan(results: seq<set<nat>>, remaining: set<nat>, ring: nat)

  /** How a run of the loop ends: with its final state and the number of points consumed, or in a panic of `unwrap`. */
  datatype Outcome = Done(scan: Scan, consumed: nat) | Panicked

  function Start(candidates: set<nat>): Scan
  {
    Scan([], candidates, 0)
  }

  /** The enumeration yields points in non-decreasing distance order. */
  ghost predicate Sorted(points: seq<GeoPoint>)
  {
    forall a, b :: 0 <= a < b < |points| ==> points[a].dist <= points[b].dist
  }

  /** Every distance lies below usize::MAX. */
  ghost predicate BelowMax(points: seq<GeoPoint>)
  {
    forall k :: 0 <= k < |points| ==> points[k].dist < USIZE_MAX
  }

  /** The ids of a sequence of points. */
  function Ids(points: seq<GeoPoint>): set<nat>
  {
    if |points| == 0 then {} else Ids(points[..|points| - 1]) + {points[|points| - 1].id}
  }

  /** The union of a sequence of buckets. */
  function Union(buckets: seq<set<nat>>): set<nat>
  {
    if |buckets| == 0 then {} else Union(buckets[..|buckets| - 1]) + buckets[|buckets| - 1]
  }

  /** The sequence in the opposite order: `into_iter().rev()`. */
  function Reverse<T>(s: seq<T>): (r: seq<T>)
    ensures |r| == |s|
    ensures forall k :: 0 <= k < |s| ==> r[k] == s[|s| - 1 - k]
  {
    if |s| == 0 then [] else [s[|s| - 1]] + Reverse(s[..|s| - 1])
  }

  /** The candidate set left after the first `n` points have been visited. */
  function Remaining(points: seq<GeoPoint>, candidates: set<nat>, n: nat): set<nat>
    requires n <= |points|
  {
    candidates - Ids(points[..n])
  }

  /** Adds `id` to the last bucket. */
  function AddToLast(results: seq<set<nat>>, id: nat): (r: seq<set<nat>>)
    requires |results| > 0
    ensures |r| == |results| && r[..|r| - 1] == results[..|results| - 1]
    ensures r[|r| - 1] == results[|results| - 1] + {id}
  {
    results[..|results| - 1] + [results[|results| - 1] + {id}]
  }

  /**
   * Lines 161-177: if the id is still a candidate it is removed and
   * classified against the current ring; a point outside the current ring
   * opens a new bucket and moves the ring cursor forward, a point inside it
   * joins the last bucket (or opens the first).  `None` is the panic of
   * `unwrap` when no later ring contains the distance.
   */
  function Classify(st: Scan, p: GeoPoint): (r: Option<Scan>)
    requires st.ring < |Thickness|
    ensures r.Some? ==> st.ring <= r.value.ring < |Thickness|
    ensures r.Some? ==> r.value.remaining == st.remaining - {p.id}
    ensures r.Some? && p.id in st.remaining ==> InRing(r.value.ring, p.dist)
    ensures p.id !in st.remaining ==> r == Some(st)
    ensures r.None? <==> p.id in st.remaining && FirstRing(st.ring, p.dist).None?
    ensures r.Some? && p.id in st.remaining && !InRing(st.ring, p.dist) ==>
      st.ring < r.value.ring && r.value.results == st.results + [{p.id}]
    ensures r.Some? && p.id in st.remaining && InRing(st.ring, p.dist) ==>
      r.value.ring == st.ring &&
      r.value.results == if st.results == [] then [{p.id}] else AddToLast(st.results, p.id)
  {
    if p.id !in st.remaining then Some(st)
    else
      var remaining := st.remaining - {p.id};
      if !InRing(st.ring, p.dist) then
        match FirstRing(st.ring + 1, p.dist)
        case None => None
        case Some(k) => Some(Scan(st.results + [{p.id}], remaining, k))
      else if st.results == [] then
        Some(Scan([{p.id}], remaining, st.ring))
      else
        Some(Scan(AddToLast(st.results, p.id), remaining, st.ring))
  }

  /** One iteration of the `for` loop: classify, then push `{id}` unconditionally (line 179). */
  function Step(st: Scan, p: GeoPoint): (r: Option<Scan>)
    requires st.ring < |Thickness|
    ensures r.Some? ==> st.ring <= r.value.ring < |Thickness|
    ensures r.Some? ==> r.value.remaining == st.remaining - {p.id}
    ensures r.Some? ==> |st.results| < |r.value.results| && r.value.results[|r.value.results| - 1] == {p.id}
    ensures r.None? <==> Classify(st, p).None?
  {
    match Classify(st, p)
    case None => None
    case Some(c) => Some(c.(results := c.results + [{p.id}]))
  }

  /**
   * The loop from point `i` on: stop after a point that empties the
   * candidate set, or when the enumeration ends.
   */
  function Walk(points: seq<GeoPoint>, i: nat, st: Scan): (r: Outcome)
    requires i <= |points| && st.ring < |Thickness|
    ensures r.Done? ==> i <= r.consumed <= |points| && (i < |points| ==> i < r.consumed)
    ensures r.Done? ==> |st.results| + (r.consumed - i) <= |r.scan.results|
    decreases |points| - i
  {
    if i == |points| then Done(st, i)
    else
      match Step(st, points[i])
      case None => Panicked
      case Some(next) =>
        if next.remaining == {} then Done(next, i + 1) else Walk(points, i + 1, next)
  }

  /** Unfolds the loop once at point `i`. */
  lemma WalkUnfold(points: seq<GeoPoint>, i: nat, st: Scan)
    requires i < |points| && st.ring < |Thickness|
    ensures Step(st, points[i]).None? ==> Walk(points, i, st) == Panicked
    ensures Step(st, points[i]).Some? ==>
      var next := Step(st, points[i]).value;
      Walk(points, i, st) == if next.remaining == {} then Done(next, i + 1) else Walk(points, i + 1, next)
  {
  }

  /** What `geo_point` returns, `None` standing for a panic. */
  function DistanceBuckets(points: seq<GeoPoint>, candidates: set<nat>, ascending: bool): (r: Option<seq<set<nat>>>)
    ensures r.Some? ==> (|r.value| == 0 <==> |points| == 0)
  {
    match Walk(points, 0, Start(candidates))
    case Panicked => None
    case Done(s, _) => Some(if ascending then s.results else Reverse(s.results))
  }

  /**
   * Lines 161-177 on the loop's variables: remove the id from the working
   * set and, if it was there, classify it; `ok` is false where `unwrap`
   * panics.
   */
  method ClassifyPoint(results: seq<set<nat>>, remaining: set<nat>, current: nat, p: GeoPoint)
    returns (ok: bool, results': seq<set<nat>>, remaining': set<nat>, current': nat)
    requires current < |Thickness|
    ensures Classify(Scan(results, remaining, current), p)
      == if ok then Some(Scan(results', remaining', current')) else None
  {
    results', remaining', current' := results, remaining, current;
    ok := true;
    if p.id in remaining {
      remaining' := remaining - {p.id};
      if !InRing(current, p.dist) {
        results' := results + [{p.id}];
        var found, k := FindRing(current + 1, p.dist);
        if !found {
          ok := false;
          return;
        }
        current' := k;
      } else if results == [] {
        results' := results + [{p.id}];
        assert results' == [{p.id}];
      } else {
        results' := results[..|results| - 1] + [results[|results| - 1] + {p.id}];
      }
    }
  }

  /** `geo_point`, as the loop the source runs. */
  method BucketByDistance(points: seq<GeoPoint>, candidates: set<nat>, ascending: bool) returns (r: Option<seq<set<nat>>>)
    ensures r == DistanceBuckets(points, candidates, ascending)
  {
    var results: seq<set<nat>> := [];
    var remaining := candidates;
    var current: nat := 0;
    var i: nat := 0;
    while i < |points|
      invariant i <= |points| && current < |Thickness|
      invariant Walk(points, i, Scan(results, remaining, current)) == Walk(points, 0, Start(candidates))
    {
      WalkUnfold(points, i, Scan(results, remaining, current));
      var p := points[i];
      var ok;
      ok, results, remaining, current := ClassifyPoint(results, remaining, current, p);
      if !ok {
        return None;
      }
      results := results + [{p.id}];
      i := i + 1;
      if remaining == {} {
        r := Some(if ascending then results else Reverse(results));
        return;
      }
    }
    r := Some(if ascending then results else Reverse(results));
  }

  // ---------------------------------------------------------------------
  // Helper facts about Ids, Union and Reverse

  lemma IdsPush(points: seq<GeoPoint>, i: nat)
    requires i < |points|
    ensures Ids(points[..i + 1]) == Ids(points[..i]) + {points[i].id}
  {
    assert points[..i + 1][..i] == points[..i];
  }

  lemma {:induction false} IdsOfPrefix(points: seq<GeoPoint>, n: nat)
    requires n <= |points|
    ensures Ids(points[..n]) <= Ids(points)
    decreases |points| - n
  {
    if n < |points| {
      IdsPush(points, n);
      IdsOfPrefix(points, n + 1);
    } else {
      assert points[..n] == points;
    }
  }

  lemma UnionPush(buckets: seq<set<nat>>, b: set<nat>)
    ensures Union(buckets + [b]) == Union(buckets) + b
  {
    assert (buckets + [b])[..|buckets|] == buckets;
  }

  lemma UnionAddToLast(buckets: seq<set<nat>>, id: nat)
    requires |buckets| > 0
    ensures Union(AddToLast(buckets, id)) == Union(buckets) + {id}
  {
  }

  /** Every bucket of a sequence lies inside the sequence's union. */
  lemma {:induction false} BucketInUnion(buckets: seq<set<nat>>, k: nat)
    requires k < |buckets|
    ensures buckets[k] <= Union(buckets)
  {
    if k < |buckets| - 1 {
      BucketInUnion(buckets[..|buckets| - 1], k);
    }
  }

  // ---------------------------------------------------------------------
  // What the loop keeps true

  /**
   * `st` is the loop state after the first `i` points: the candidates seen
   * so far are gone from the working set, the buckets are non-empty and
   * together hold exactly the ids visited, and every visited point pushed
   * one or two buckets.
   */
  ghost predicate Tracks(points: seq<GeoPoint>, candidates: set<nat>, i: nat, st: Scan)
  {
    i <= |points| && st.ring < |Thickness| &&
    st.remaining == Remaining(points, candidates, i) &&
    Union(st.results) == Ids(points[..i]) &&
    (forall k :: 0 <= k < |st.results| ==> st.results[k] != {}) &&
    i <= |st.results| <= 2 * i
  }

  /** Classifying a candidate adds its id to the union of the buckets, adds at most one bucket, and keeps every bucket non-empty. */
  lemma ClassifyKeeps(st: Scan, p: GeoPoint)
    requires st.ring < |Thickness| && Classify(st, p).Some?
    requires forall k :: 0 <= k < |st.results| ==> st.results[k] != {}
    ensures var c := Classify(st, p).value;
      Union(c.results) == Union(st.results) + (if p.id in st.remaining then {p.id} else {}) &&
      (forall k :: 0 <= k < |c.results| ==> c.results[k] != {}) &&
      |st.results| <= |c.results| <= |st.results| + 1
  {
    var c := Classify(st, p).value;
    if p.id in st.remaining {
      if !InRing(st.ring, p.dist) {
        UnionPush(st.results, {p.id});
      } else if st.results == [] {
        assert c.results == [] + [{p.id}];
        UnionPush([], {p.id});
      } else {
        UnionAddToLast(st.results, p.id);
      }
    }
  }

  lemma StepTracks(points: seq<GeoPoint>, candidates: set<nat>, i: nat, st: Scan)
    requires Tracks(points, candidates, i, st) && i < |points|
    requires Step(st, points[i]).Some?
    ensures Tracks(points, candidates, i + 1, Step(st, points[i]).value)
  {
    var p := points[i];
    var c := Classify(st, p).value;
    IdsPush(points, i);
    ClassifyKeeps(st, p);
    UnionPush(c.results, {p.id});
    assert Union(Step(st, p).value.results) == Ids(points[..i + 1]);
  }

  /**
   * From a tracked state reached without the working set becoming empty,
   * the loop either panics or ends tracked.
   */
  lemma {:induction false} WalkTracks(points: seq<GeoPoint>, candidates: set<nat>, i: nat, st: Scan)
    requires Tracks(points, candidates, i, st)
    requires i > 0 ==> st.remaining != {}
    requires i > 1 ==> Remaining(points, candidates, i - 1) != {}
    ensures EndsTracked(points, candidates, Walk(points, i, st))
    decreases |points| - i
  {
    if i < |points| && Step(st, points[i]).Some? {
      var next := Step(st, points[i]).value;
      StepTracks(points, candidates, i, st);
      WalkUnfold(points, i, st);
      if next.remaining != {} {
        WalkTracks(points, candidates, i + 1, next);
      }
    }
  }

  /**
   * A run that does not panic ends after `n` points in a tracked state, at
   * the end of the enumeration or with an empty working set, and if it
   * visited more than one point, the working set was still non-empty before
   * the last one.
   */
  ghost predicate EndsTracked(points: seq<GeoPoint>, candidates: set<nat>, o: Outcome)
  {
    o.Done? ==>
      o.consumed <= |points| && Tracks(points, candidates, o.consumed, o.scan) &&
      (o.consumed == |points| || o.scan.remaining == {}) &&
      (o.consumed > 1 ==> Remaining(points, candidates, o.consumed - 1) != {})
  }

  /** The working set only shrinks as points are visited. */
  lemma {:induction false} RemainingShrinks(points: seq<GeoPoint>, candidates: set<nat>, j: nat, k: nat)
    requires j <= k <= |points|
    ensures Remaining(points, candidates, k) <= Remaining(points, candidates, j)
    decreases k - j
  {
    if j < k {
      IdsPush(points, k - 1);
      RemainingShrinks(points, candidates, j, k - 1);
    }
  }

  /**
   * The ascending output of `geo_point` when it does not panic: the loop
   * consumed `n` points and stopped as soon as the candidate set became
   * empty or the enumeration ended; each candidate among those points was
   * removed; every bucket is non-empty; the buckets hold exactly the ids of
   * the visited points (so every located candidate is in some bucket, and
   * nothing else than visited ids is); and there are between `n` and `2n`
   * buckets.
   */
  lemma AscendingBuckets(points: seq<GeoPoint>, candidates: set<nat>)
    ensures Walk(points, 0, Start(candidates)).Done? ==>
      var s := Walk(points, 0, Start(candidates)).scan;
      var n := Walk(points, 0, Start(candidates)).consumed;
      n <= |points| && (|points| > 0 ==> n >= 1) &&
      (n == |points| || s.remaining == {}) &&
      (forall j :: 0 < j < n ==> Remaining(points, candidates, j) != {}) &&
      s.remaining == candidates - Ids(points[..n]) &&
      (forall k :: 0 <= k < |s.results| ==> s.results[k] != {}) &&
      Union(s.results) == Ids(points[..n]) &&
      n <= |s.results| <= 2 * n
  {
    assert Tracks(points, candidates, 0, Start(candidates));
    WalkTracks(points, candidates, 0, Start(candidates));
    var o := Walk(points, 0, Start(candidates));
    if o.Done? {
      forall j | 0 < j < o.consumed
        ensures Remaining(points, candidates, j) != {}
      {
        RemainingShrinks(points, candidates, j, o.consumed - 1);
      }
    }
  }

  // ---------------------------------------------------------------------
  // The ring lookup never fails on a well-formed enumeration

  lemma {:induction false} WalkNeverPanics(points: seq<GeoPoint>, i: nat, st: Scan)
    requires i <= |points| && st.ring < |Thickness|
    requires Sorted(points) && BelowMax(points)
    requires i < |points| ==> Lower(st.ring) <= points[i].dist
    ensures Walk(points, i, st).Done?
    decreases |points| - i
  {
    if i < |points| {
      var p := points[i];
      if p.id in st.remaining && !InRing(st.ring, p.dist) {
        TransitionFindsRing(st.ring, p.dist);
      }
      var next := Step(st, p).value;
      if next.remaining != {} {
        if i + 1 < |points| {
          assert Lower(next.ring) <= p.dist <= points[i + 1].dist by {
            if p.id !in st.remaining {
              assert next.ring == st.ring;
            }
          }
        }
        WalkNeverPanics(points, i + 1, next);
      }
    }
  }

  /**
   * On an enumeration in non-decreasing distance order whose distances are
   * below usize::MAX, the `unwrap` after the ring search never panics.
   */
  lemma NeverPanics(points: seq<GeoPoint>, candidates: set<nat>, ascending: bool)
    requires Sorted(points) && BelowMax(points)
    ensures DistanceBuckets(points, candidates, ascending).Some?
  {
    WalkNeverPanics(points, 0, Start(candidates));
  }

  /**
   * A candidate at distance usize::MAX lies in no ring, so the search
   * panics: the claim in the comment at line 167 holds only for distances
   * below usize::MAX.
   */
  lemma PanicsAtMax(id: nat)
    ensures DistanceBuckets([GeoPoint(id, USIZE_MAX)], {id}, true).None?
  {
    MaxIsInNoRing(1);
  }

  /**
   * The enumeration's order is the R-tree's own, while the rings are chosen
   * by the rounded distance of line 163.  A candidate nearer than one
   * already classified lies before the current ring, which the forward-only
   * search never revisits, so `unwrap` panics.
   */
  lemma PanicsOutOfOrder()
    ensures DistanceBuckets([GeoPoint(1, 150), GeoPoint(2, 50)], {1, 2}, true).None?
  {
    var ps := [GeoPoint(1, 150), GeoPoint(2, 50)];
    assert !InRing(0, 150) && FirstRing(1, 150) == Some(1);
    assert {1, 2} - {1} == {2};
    assert [] + [{1}] + [{1}] == [{1}, {1}];
    assert Step(Start({1, 2}), ps[0]) == Some(Scan([{1}, {1}], {2}, 1));
    assert !InRing(1, 50) && FirstRing(2, 50).None?;
    assert Walk(ps, 1, Scan([{1}, {1}], {2}, 1)) == Panicked;
  }

  /**
   * With no candidate left to place, the loop still visits the first point,
   * pushes its singleton (line 179), and stops (lines 180-181): the output is
   * that one bucket, whatever the id.
   */
  lemma NoCandidatesFirstPoint(points: seq<GeoPoint>, ascending: bool)
    ensures DistanceBuckets(points, {}, ascending) == Some(if |points| == 0 then [] else [{points[0].id}])
  {
    if |points| == 0 {
      assert Walk(points, 0, Start({})) == Done(Start({}), 0);
    } else {
      var x := points[0].id;
      assert Classify(Start({}), points[0]) == Some(Start({}));
      assert [] + [{x}] == [{x}];
      assert Walk(points, 0, Start({})) == Done(Scan([{x}], {}, 0), 1);
      assert Reverse([{x}]) == [{x}];
    }
  }

  /** Every bucket of a non-panicking run is non-empty and made of enumerated ids, in either order. */
  lemma BucketsOfEnumeration(points: seq<GeoPoint>, candidates: set<nat>, ascending: bool)
    requires DistanceBuckets(points, candidates, ascending).Some?
    ensures var rs := DistanceBuckets(points, candidates, ascending).value;
      forall k :: 0 <= k < |rs| ==> rs[k] != {} && rs[k] <= Ids(points)
  {
    AscendingBuckets(points, candidates);
    var o := Walk(points, 0, Start(candidates));
    var rs := DistanceBuckets(points, candidates, ascending).value;
    IdsOfPrefix(points, o.consumed);
    forall k | 0 <= k < |rs|
      ensures rs[k] != {} && rs[k] <= Ids(points)
    {
      var a := if ascending then k else |rs| - 1 - k;
      BucketInUnion(o.scan.results, a);
    }
  }

  /**
   * Descending order is the ascending bucket sequence reversed: the same
   * buckets, bucket for bucket, in the opposite order.
   */
  lemma DescendingMirrorsAscending(points: seq<GeoPoint>, candidates: set<nat>)
    ensures DistanceBuckets(points, candidates, false).Some? == DistanceBuckets(points, candidates, true).Some?
    ensures DistanceBuckets(points, candidates, true).Some? ==>
      var asc := DistanceBuckets(points, candidates, true).value;
      var desc := DistanceBuckets(points, candidates, false).value;
      |desc| == |asc| && forall k :: 0 <= k < |asc| ==> desc[k] == asc[|asc| - 1 - k]
  {
  }

  // ---------------------------------------------------------------------
  // Nearest first: how the buckets are ordered and grouped

  /** No id occurs at two positions of the enumeration (one point per document). */
  ghost predicate DistinctIds(points: seq<GeoPoint>)
  {
    forall a, b :: 0 <= a < b < |points| ==> points[a].id != points[b].id
  }

  /** With distinct ids, an id among the first `n` points belongs to a point before `n`. */
  lemma {:induction false} IdsBefore(points: seq<GeoPoint>, n: nat, b: nat)
    requires DistinctIds(points) && n <= |points| && b < |points|
    requires points[b].id in Ids(points[..n])
    ensures b < n
  {
    if n > 0 && points[b].id != points[n - 1].id {
      IdsPush(points, n - 1);
      IdsBefore(points, n - 1, b);
    }
  }

  /**
   * `after` comes from `before` by visiting a point with id `x`: no bucket
   * loses an id, and `x` is the only id added, to the last old bucket or to
   * new buckets.
   */
  ghost predicate Grows(before: seq<set<nat>>, after: seq<set<nat>>, x: nat)
  {
    |before| <= |after| &&
    (forall k :: 0 <= k < |before| ==> before[k] <= after[k]) &&
    (forall k :: 0 <= k < |after| ==>
      after[k] <= (if k < |before| then before[k] else {}) + (if k + 1 >= |before| then {x} else {}))
  }

  lemma StepGrows(st: Scan, p: GeoPoint)
    requires st.ring < |Thickness| && Step(st, p).Some?
    ensures Grows(st.results, Step(st, p).value.results, p.id)
  {
  }

  /** The buckets list ids in the order in which their points are visited. */
  ghost predicate InVisitOrder(points: seq<GeoPoint>, results: seq<set<nat>>)
  {
    forall k1, k2, a, b :: 0 <= k1 < k2 < |results| && 0 <= a < |points| && 0 <= b < |points| ==>
      points[a].id in results[k1] && points[b].id in results[k2] ==> a <= b
  }

  /** All ids of one bucket have their distances in the same ring. */
  ghost predicate OneRingEach(points: seq<GeoPoint>, results: seq<set<nat>>)
  {
    forall k, a, b :: 0 <= k < |results| && 0 <= a < |points| && 0 <= b < |points| ==>
      points[a].id in results[k] && points[b].id in results[k] ==> RingOf(points[a].dist) == RingOf(points[b].dist)
  }

  /** The ids of the last bucket lie at or past the start of the current ring. */
  ghost predicate LastAboveRing(points: seq<GeoPoint>, st: Scan)
    requires st.ring < |Thickness|
  {
    |st.results| > 0 ==>
      forall a :: 0 <= a < |points| && points[a].id in st.results[|st.results| - 1] ==> Lower(st.ring) <= points[a].dist
  }

  /**
   * What the loop keeps on a sorted enumeration with distinct ids, besides
   * `Tracks`: the current ring starts at or below the next distance, the
   * last bucket lies at or past the current ring's start, the buckets list
   * ids in visiting order, and each bucket stays within one ring.
   */
  ghost predicate Arranged(points: seq<GeoPoint>, candidates: set<nat>, i: nat, st: Scan)
  {
    Tracks(points, candidates, i, st) &&
    (i < |points| ==> Lower(st.ring) <= points[i].dist) &&
    LastAboveRing(points, st) &&
    InVisitOrder(points, st.results) &&
    OneRingEach(points, st.results)
  }

  /** Two ids of the buckets after one more visit keep the order of their points. */
  lemma OrderAfterVisit(points: seq<GeoPoint>, before: seq<set<nat>>, after: seq<set<nat>>, i: nat,
                        k1: nat, k2: nat, a: nat, b: nat)
    requires DistinctIds(points) && i < |points|
    requires InVisitOrder(points, before) && Grows(before, after, points[i].id)
    requires Union(after) == Ids(points[..i + 1])
    requires k1 < k2 < |after| && a < |points| && b < |points|
    requires points[a].id in after[k1] && points[b].id in after[k2]
    ensures a <= b
  {
    BucketInUnion(after, k1);
    BucketInUnion(after, k2);
    IdsBefore(points, i + 1, a);
    IdsBefore(points, i + 1, b);
    if b < i {
      assert points[b].id != points[i].id;
      assert k2 < |before| && points[b].id in before[k2];
      assert points[a].id in before[k1];
    }
  }

  lemma StepKeepsOrder(points: seq<GeoPoint>, candidates: set<nat>, i: nat, st: Scan)
    requires DistinctIds(points)
    requires Tracks(points, candidates, i, st) && i < |points| && Step(st, points[i]).Some?
    requires InVisitOrder(points, st.results)
    ensures InVisitOrder(points, Step(st, points[i]).value.results)
  {
    var after := Step(st, points[i]).value.results;
    StepTracks(points, candidates, i, st);
    StepGrows(st, points[i]);
    forall k1, k2, a, b | 0 <= k1 < k2 < |after| && 0 <= a < |points| && 0 <= b < |points| &&
      points[a].id in after[k1] && points[b].id in after[k2]
      ensures a <= b
    {
      OrderAfterVisit(points, st.results, after, i, k1, k2, a, b);
    }
  }

  /**
   * A candidate that joins the last bucket does so with ids of its own ring:
   * on a sorted enumeration those ids lie between the ring's start and the
   * candidate's distance.
   */
  lemma JoinSameRing(points: seq<GeoPoint>, candidates: set<nat>, i: nat, st: Scan, a: nat)
    requires Sorted(points) && DistinctIds(points)
    requires Tracks(points, candidates, i, st) && i < |points| && LastAboveRing(points, st)
    requires InRing(st.ring, points[i].dist) && |st.results| > 0
    requires a < |points| && points[a].id in st.results[|st.results| - 1] + {points[i].id}
    ensures RingOf(points[a].dist) == st.ring
  {
    if points[a].id != points[i].id {
      BucketInUnion(st.results, |st.results| - 1);
      IdsBefore(points, i, a);
    } else if a != i {
      assert false;
    }
    RingOfUnique(st.ring, points[a].dist);
  }

  lemma StepKeepsRings(points: seq<GeoPoint>, candidates: set<nat>, i: nat, st: Scan)
    requires Sorted(points) && DistinctIds(points)
    requires Arranged(points, candidates, i, st) && i < |points| && Step(st, points[i]).Some?
    ensures OneRingEach(points, Step(st, points[i]).value.results)
  {
    var p := points[i];
    var before := st.results;
    var after := Step(st, p).value.results;
    var joins := p.id in st.remaining && InRing(st.ring, p.dist) && before != [];
    StepGrows(st, p);
    forall k, a, b | 0 <= k < |after| && 0 <= a < |points| && 0 <= b < |points| &&
      points[a].id in after[k] && points[b].id in after[k]
      ensures RingOf(points[a].dist) == RingOf(points[b].dist)
    {
      if k + 1 < |before| {
        assert points[a].id in before[k] && points[b].id in before[k];
      } else if k >= |before| {
        assert points[a].id == p.id == points[b].id;
        assert a == b;
      } else if joins {
        JoinSameRing(points, candidates, i, st, a);
        JoinSameRing(points, candidates, i, st, b);
      } else {
        assert after[k] == before[k];
      }
    }
  }

  lemma StepArranged(points: seq<GeoPoint>, candidates: set<nat>, i: nat, st: Scan)
    requires Sorted(points) && DistinctIds(points)
    requires Arranged(points, candidates, i, st) && i < |points| && Step(st, points[i]).Some?
    ensures Arranged(points, candidates, i + 1, Step(st, points[i]).value)
  {
    var p := points[i];
    var next := Step(st, p).value;
    StepTracks(points, candidates, i, st);
    StepKeepsOrder(points, candidates, i, st);
    StepKeepsRings(points, candidates, i, st);
    assert Lower(next.ring) <= p.dist;
    assert LastAboveRing(points, next);
  }

  lemma {:induction false} WalkArranged(points: seq<GeoPoint>, candidates: set<nat>, i: nat, st: Scan)
    requires Sorted(points) && DistinctIds(points)
    requires Arranged(points, candidates, i, st)
    ensures var o := Walk(points, i, st);
      o.Done? ==> Arranged(points, candidates, o.consumed, o.scan)
    decreases |points| - i
  {
    if i < |points| && Step(st, points[i]).Some? {
      var next := Step(st, points[i]).value;
      StepArranged(points, candidates, i, st);
      WalkUnfold(points, i, st);
      if next.remaining != {} {
        WalkArranged(points, candidates, i + 1, next);
      }
    }
  }

  /**
   * Ascending buckets come nearest first: on an enumeration in distance
   * order with one point per id, an id in an earlier bucket is no farther
   * than an id in a later bucket, and the ids of one bucket lie in one ring.
   */
  lemma NearestFirst(points: seq<GeoPoint>, candidates: set<nat>)
    requires Sorted(points) && DistinctIds(points)
    ensures DistanceBuckets(points, candidates, true).Some? ==>
      var asc := DistanceBuckets(points, candidates, true).value;
      (forall k1, k2, a, b :: 0 <= k1 < k2 < |asc| && 0 <= a < |points| && 0 <= b < |points| ==>
        points[a].id in asc[k1] && points[b].id in asc[k2] ==> points[a].dist <= points[b].dist) &&
      (forall k, a, b :: 0 <= k < |asc| && 0 <= a < |points| && 0 <= b < |points| ==>
        points[a].id in asc[k] && points[b].id in asc[k] ==> RingOf(points[a].dist) == RingOf(points[b].dist))
  {
    assert Tracks(points, candidates, 0, Start(candidates));
    assert Arranged(points, candidates, 0, Start(candidates));
    WalkArranged(points, candidates, 0, Start(candidates));
  }

  /** Descending buckets come farthest first, each within one ring. */
  lemma FarthestFirst(points: seq<GeoPoint>, candidates: set<nat>)
    requires Sorted(points) && DistinctIds(points)
    ensures DistanceBuckets(points, candidates, false).Some? ==>
      var desc := DistanceBuckets(points, candidates, false).value;
      (forall k1, k2, a, b :: 0 <= k1 < k2 < |desc| && 0 <= a < |points| && 0 <= b < |points| ==>
        points[a].id in desc[k1] && points[b].id in desc[k2] ==> points[b].dist <= points[a].dist) &&
      (forall k, a, b :: 0 <= k < |desc| && 0 <= a < |points| && 0 <= b < |points| ==>
        points[a].id in desc[k] && points[b].id in desc[k] ==> RingOf(points[a].dist) == RingOf(points[b].dist))
  {
    NearestFirst(points, candidates);
    DescendingMirrorsAscending(points, candidates);
    if DistanceBuckets(points, candidates, false).Some? {
      var asc := DistanceBuckets(points, candidates, true).value;
      var desc := DistanceBuckets(points, candidates, false).value;
      forall k1, k2, a, b | 0 <= k1 < k2 < |desc| && 0 <= a < |points| && 0 <= b < |points| &&
        points[a].id in desc[k1] && points[b].id in desc[k2]
        ensures points[b].dist <= points[a].dist
      {
        assert points[b].id in asc[|asc| - 1 - k2] && points[a].id in asc[|asc| - 1 - k1];
      }
      forall k, a, b | 0 <= k < |desc| && 0 <= a < |points| && 0 <= b < |points| &&
        points[a].id in desc[k] && points[b].id in desc[k]
        ensures RingOf(points[a].dist) == RingOf(points[b].dist)
      {
        assert points[a].id in asc[|asc| - 1 - k] && points[b].id in asc[|asc| - 1 - k];
      }
    }
  }

  /**
   * Points `j - 1` and `j` were both still candidates when visited, and
   * their distances lie in the same ring.
   */
  ghost predicate SameRingNeighbours(points: seq<GeoPoint>, candidates: set<nat>, j: nat)
    requires 0 < j < |points|
  {
    points[j - 1].id in Remaining(points, candidates, j - 1) &&
    points[j].id in Remaining(points, candidates, j) &&
    RingOf(points[j - 1].dist) == RingOf(points[j].dist)
  }

  /** Some bucket holds both `x` and `y`. */
  ghost predicate Together(results: seq<set<nat>>, x: nat, y: nat)
  {
    exists k :: 0 <= k < |results| && x in results[k] && y in results[k]
  }

  /**
   * What the loop keeps, besides `Tracks`: the last bucket is the singleton
   * of the last visited point; after a candidate, the current ring contains
   * its distance; and every two same-ring neighbours seen so far share a
   * bucket.
   */
  ghost predicate Chained(points: seq<GeoPoint>, candidates: set<nat>, i: nat, st: Scan)
  {
    Tracks(points, candidates, i, st) &&
    (i > 0 ==> |st.results| > 0 && st.results[|st.results| - 1] == {points[i - 1].id}) &&
    (i > 0 && points[i - 1].id in Remaining(points, candidates, i - 1) ==> InRing(st.ring, points[i - 1].dist)) &&
    NeighboursTogether(points, candidates, i, st.results)
  }

  /** Every two same-ring neighbours among the first `n` points share a bucket. */
  ghost predicate NeighboursTogether(points: seq<GeoPoint>, candidates: set<nat>, n: nat, results: seq<set<nat>>)
    requires n <= |points|
  {
    forall j :: 0 < j < n && SameRingNeighbours(points, candidates, j) ==>
      Together(results, points[j - 1].id, points[j].id)
  }

  /** A candidate in the ring of the candidate just before it joins that one's singleton bucket. */
  lemma NeighbourJoins(points: seq<GeoPoint>, candidates: set<nat>, i: nat, st: Scan)
    requires Chained(points, candidates, i, st) && 0 < i < |points| && Step(st, points[i]).Some?
    requires SameRingNeighbours(points, candidates, i)
    ensures Together(Step(st, points[i]).value.results, points[i - 1].id, points[i].id)
  {
    var p := points[i];
    var k := |st.results| - 1;
    RingOfUnique(st.ring, points[i - 1].dist);
    assert InRing(st.ring, p.dist);
    var c := Classify(st, p).value;
    assert c.results == AddToLast(st.results, p.id);
    assert Step(st, p).value.results[k] == {points[i - 1].id, p.id};
  }

  lemma StepChained(points: seq<GeoPoint>, candidates: set<nat>, i: nat, st: Scan)
    requires Chained(points, candidates, i, st) && i < |points| && Step(st, points[i]).Some?
    ensures Chained(points, candidates, i + 1, Step(st, points[i]).value)
  {
    var after := Step(st, points[i]).value.results;
    StepTracks(points, candidates, i, st);
    StepGrows(st, points[i]);
    forall j | 0 < j < i + 1 && SameRingNeighbours(points, candidates, j)
      ensures Together(after, points[j - 1].id, points[j].id)
    {
      if j == i {
        NeighbourJoins(points, candidates, i, st);
      } else {
        var k :| 0 <= k < |st.results| && points[j - 1].id in st.results[k] && points[j].id in st.results[k];
        assert points[j - 1].id in after[k] && points[j].id in after[k];
      }
    }
  }

  lemma {:induction false} WalkChained(points: seq<GeoPoint>, candidates: set<nat>, i: nat, st: Scan)
    requires Chained(points, candidates, i, st)
    ensures var o := Walk(points, i, st);
      o.Done? ==> Chained(points, candidates, o.consumed, o.scan)
    decreases |points| - i
  {
    if i < |points| && Step(st, points[i]).Some? {
      var next := Step(st, points[i]).value;
      StepChained(points, candidates, i, st);
      WalkUnfold(points, i, st);
      if next.remaining != {} {
        WalkChained(points, candidates, i + 1, next);
      }
    }
  }

  /** A point that was still a candidate when reached is among the points the loop visits. */
  lemma CandidateVisited(points: seq<GeoPoint>, candidates: set<nat>, j: nat)
    requires j < |points| && points[j].id in Remaining(points, candidates, j)
    requires Walk(points, 0, Start(candidates)).Done?
    ensures j < Walk(points, 0, Start(candidates)).consumed
  {
    var o := Walk(points, 0, Start(candidates));
    assert Tracks(points, candidates, 0, Start(candidates));
    WalkTracks(points, candidates, 0, Start(candidates));
    if o.consumed <= j {
      RemainingShrinks(points, candidates, o.consumed, j);
    }
  }

  lemma WalkNeighbours(points: seq<GeoPoint>, candidates: set<nat>)
    requires Walk(points, 0, Start(candidates)).Done?
    ensures NeighboursTogether(points, candidates, |points|, Walk(points, 0, Start(candidates)).scan.results)
  {
    var o := Walk(points, 0, Start(candidates));
    assert Tracks(points, candidates, 0, Start(candidates));
    WalkChained(points, candidates, 0, Start(candidates));
    assert NeighboursTogether(points, candidates, o.consumed, o.scan.results);
    forall j | 0 < j < |points| && SameRingNeighbours(points, candidates, j)
      ensures Together(o.scan.results, points[j - 1].id, points[j].id)
    {
      CandidateVisited(points, candidates, j);
    }
  }

  lemma TogetherReversed(results: seq<set<nat>>, x: nat, y: nat)
    requires Together(results, x, y)
    ensures Together(Reverse(results), x, y)
  {
    var k :| 0 <= k < |results| && x in results[k] && y in results[k];
    assert Reverse(results)[|results| - 1 - k] == results[k];
  }

  /**
   * Lines 174-175: a candidate whose distance lies in the ring of the
   * candidate visited just before it shares a bucket with that candidate.
   */
  lemma NeighboursShareBucket(points: seq<GeoPoint>, candidates: set<nat>, ascending: bool)
    ensures DistanceBuckets(points, candidates, ascending).Some? ==>
      forall j :: 0 < j < |points| && SameRingNeighbours(points, candidates, j) ==>
        Together(DistanceBuckets(points, candidates, ascending).value, points[j - 1].id, points[j].id)
  {
    var o := Walk(points, 0, Start(candidates));
    if o.Done? {
      WalkNeighbours(points, candidates);
      if !ascending {
        forall j | 0 < j < |points| && SameRingNeighbours(points, candidates, j)
          ensures Together(Reverse(o.scan.results), points[j - 1].id, points[j].id)
        {
          TogetherReversed(o.scan.results, points[j - 1].id, points[j].id);
        }
      }
    }
  }

  // The five-document run, one iteration per helper lemma.

  function RunPoints(): seq<GeoPoint>
  {
    [GeoPoint(1, 10), GeoPoint(2, 150), GeoPoint(3, 150000), GeoPoint(4, 150050), GeoPoint(5, 9800000)]
  }

  lemma RunStep0()
    ensures Step(Start({1, 2, 3, 4, 5}), GeoPoint(1, 10)) == Some(Scan([{1}, {1}], {2, 3, 4, 5}, 0))
  {
    assert {1, 2, 3, 4, 5} - {1} == {2, 3, 4, 5};
    assert InRing(0, 10);
    assert [{1}] + [{1}] == [{1}, {1}];
  }

  lemma RunStep1()
    ensures Step(Scan([{1}, {1}], {2, 3, 4, 5}, 0), GeoPoint(2, 150))
      == Some(Scan([{1}, {1}, {2}, {2}], {3, 4, 5}, 1))
  {
    assert {2, 3, 4, 5} - {2} == {3, 4, 5};
    assert !InRing(0, 150);
    assert FirstRing(1, 150) == Some(1);
    assert [{1}, {1}] + [{2}] + [{2}] == [{1}, {1}, {2}, {2}];
  }

  lemma RunStep2()
    ensures Step(Scan([{1}, {1}, {2}, {2}], {3, 4, 5}, 1), GeoPoint(3, 150000))
      == Some(Scan([{1}, {1}, {2}, {2}, {3}, {3}], {4, 5}, 7))
  {
    assert {3, 4, 5} - {3} == {4, 5};
    assert !InRing(1, 150000);
    assert FirstRing(2, 150000) == Some(7);
    assert [{1}, {1}, {2}, {2}] + [{3}] + [{3}] == [{1}, {1}, {2}, {2}, {3}, {3}];
  }

  lemma RunStep3()
    ensures Step(Scan([{1}, {1}, {2}, {2}, {3}, {3}], {4, 5}, 7), GeoPoint(4, 150050))
      == Some(Scan([{1}, {1}, {2}, {2}, {3}, {3, 4}, {4}], {5}, 7))
  {
    assert {4, 5} - {4} == {5};
    assert {3} + {4} == {3, 4};
    assert InRing(7, 150050);
    assert AddToLast([{1}, {1}, {2}, {2}, {3}, {3}], 4) == [{1}, {1}, {2}, {2}, {3}, {3, 4}];
    assert [{1}, {1}, {2}, {2}, {3}, {3, 4}] + [{4}] == [{1}, {1}, {2}, {2}, {3}, {3, 4}, {4}];
  }

  lemma RunStep4()
    ensures Step(Scan([{1}, {1}, {2}, {2}, {3}, {3, 4}, {4}], {5}, 7), GeoPoint(5, 9800000))
      == Some(Scan([{1}, {1}, {2}, {2}, {3}, {3, 4}, {4}, {5}, {5}], {}, 11))
  {
    assert {5} - {5} == {};
    assert !InRing(7, 9800000);
    assert FirstRing(8, 9800000) == Some(11);
    assert [{1}, {1}, {2}, {2}, {3}, {3, 4}, {4}] + [{5}] + [{5}]
      == [{1}, {1}, {2}, {2}, {3}, {3, 4}, {4}, {5}, {5}];
  }

  /**
   * Five candidates at 10 m, 150 m, 150 km, 150.05 km and 9800 km.  Because
   * a singleton is pushed for every visited point, the ascending output has
   * nine buckets rather than one bucket per occupied ring, and ids 1, 2, 3,
   * 4 and 5 each occur in two consecutive buckets.
   */
  lemma FiveDocumentRun()
    ensures DistanceBuckets(RunPoints(), {1, 2, 3, 4, 5}, true)
      == Some([{1}, {1}, {2}, {2}, {3}, {3, 4}, {4}, {5}, {5}])
  {
    var ps := RunPoints();
    RunStep0();
    RunStep1();
    RunStep2();
    RunStep3();
    RunStep4();
    var s1 := Scan([{1}, {1}], {2, 3, 4, 5}, 0);
    var s2 := Scan([{1}, {1}, {2}, {2}], {3, 4, 5}, 1);
    var s3 := Scan([{1}, {1}, {2}, {2}, {3}, {3}], {4, 5}, 7);
    var s4 := Scan([{1}, {1}, {2}, {2}, {3}, {3, 4}, {4}], {5}, 7);
    var s5 := Scan([{1}, {1}, {2}, {2}, {3}, {3, 4}, {4}, {5}, {5}], {}, 11);
    assert Walk(ps, 4, s4) == Done(s5, 5);
    assert Walk(ps, 3, s3) == Walk(ps, 4, s4);
    assert Walk(ps, 2, s2) == Walk(ps, 3, s3);
    assert Walk(ps, 1, s1) == Walk(ps, 2, s2);
    assert Walk(ps, 0, Start({1, 2, 3, 4, 5})) == Walk(ps, 1, s1);
  }
}
