# Geo-distance ranking criterion, modelled in Dafny

This project models the geo-distance stage of milli's chain of ranking criteria
(`milli/src/search/criteria/geo.rs`). It has two parts:

- **The distance bucketer `geo_point`.** It walks the R-tree's nearest-neighbour enumeration from the
  reference point. Each id that is still a candidate is removed from the working set and
  classified against a fixed schedule of 13 half-open distance rings (0–100 m, 100–500 m, …,
  10 000 km–`usize::MAX`). It then either opens a new bucket or joins the last one. After that it
  pushes a singleton bucket for the visited point, whether or not the point was a candidate. In
  descending order the bucket sequence is reversed.
- **The `Geo` criterion and its `next`.** This is a pull-based state machine. It serves pending
  buckets minus the excluded ids. When none are left, it pulls a batch from its parent and resolves
  it to a candidate set: explicit candidates, else the query tree, else every document id. It then
  narrows that set by the filter, adds the batch's statistic to `bucket_candidates`, skips batches
  that resolve to nothing, and rebuilds the pending buckets with `geo_point`.

Files:

- `options.dfy`: `Option`.
- `ring_schedule.dfy`: the ring table, and the forward search over the range iterator.
- `bucketer.dfy`: `geo_point`. It has a specification (`Classify`, `Step`, `Walk`, `DistanceBuckets`), the loop
  `BucketByDistance` proved equal to it, and lemmas about it.
- `geo_criterion.dfy`: the criterion's data types and the parent criterion as a stream with a cursor.
  It also holds the `Geo` class, whose `Next` is proved equal to the functional specification `NextSpec`, and
  lemmas about `NextSpec`.

Modelling choices:

- A point of the enumeration is `GeoPoint(id, dist)`. `dist` is the distance to the reference point,
  already rounded to whole meters and cast to `usize`. The reference point therefore does not appear
  on its own.
- `usize::MAX` is 2^64 − 1.
- `RoaringBitmap` is `set<nat>`.
- The R-tree is `Option<seq<GeoPoint>>`, which is its enumeration from the reference point. It lives in
  the index; the criterion's `rtree` field is that value, read once at construction.
- The `unwrap` at line 169 panics when no ring from the current one on contains the distance. The
  model returns `None` there. The R-tree orders points by its own metric on the stored coordinates
  (line 160), while line 163 classifies them by `distance_between_two_points`. Nothing in the code
  ties the two orders together. `NeverPanics` proves there is no panic when the enumeration is in
  non-decreasing order of the rounded distance and every distance is below `usize::MAX`.
  `PanicsOutOfOrder` shows the panic when that order fails, and `PanicsAtMax` shows it at
  `usize::MAX`. `Geo`'s invariant assumes both conditions of the enumeration.
- Line 179 is modelled as written: every visited point pushes `{id}`, whether or not it was a
  candidate. So a candidate can sit in two consecutive buckets, and a non-candidate can sit in a
  bucket. The buckets therefore do not partition the candidates, and the model does not claim that
  they do. `FiveDocumentRun` shows the effect: nine buckets, where one bucket per occupied ring would
  give four.
- The same line means an empty candidate set still yields one bucket: the loop visits the nearest
  point, pushes its singleton and stops (`NoCandidatesFirstPoint`). `Geo` reaches this when every
  resolved id is excluded (line 111), and then serves an id the parent never offered
  (`ForeignIdServed`).
- Line 175 calls `insert` through `results.last()`, which is a shared reference, and every arm of the
  match at lines 164-177 carries a guard. So the text does not say on its own which bucket changes,
  or that the three guards cover every case. The model takes the evident intent: the three guards are
  exhaustive, and a candidate inside the current ring is inserted into the last bucket.
- Order of the buckets: on an enumeration in distance order with one point per id, ascending buckets
  come nearest first and each bucket lies in one ring (`NearestFirst`). Two consecutively visited
  candidates in the same ring share a bucket (`NeighboursShareBucket`).

## Model

| member | source | states |
|---|---|---|
| RingSchedule.ScheduleShape | milli/src/search/criteria/geo.rs:136-158 | the schedule has 13 non-empty half-open rings; the first starts at 0, each ends where the next begins, and the last ends at usize::MAX |
| RingSchedule.LaterRingsAbove | milli/src/search/criteria/geo.rs:137-157 | a later ring starts at or past the end of any earlier ring, so the rings do not overlap |
| RingSchedule.FirstRing | milli/src/search/criteria/geo.rs:153-169 | the search from a ring index returns the first later-or-equal ring containing the distance, or nothing when no such ring exists |
| RingSchedule.FindRing | milli/src/search/criteria/geo.rs:168-169 | the iterator's `find` loop stops at the first ring from its position that contains the distance, and fails exactly when none does |
| RingSchedule.Covered | milli/src/search/criteria/geo.rs:137-169 | every distance from a ring's lower bound up to usize::MAX lies in that ring or a later one, so the search succeeds |
| RingSchedule.RingOf | milli/src/search/criteria/geo.rs:137-157 | a distance below usize::MAX lies in a ring, and in the ring this names; distances from usize::MAX on lie in none |
| RingSchedule.RingOfUnique | milli/src/search/criteria/geo.rs:137-157 | a distance lies in exactly one ring: any ring containing it is the one `RingOf` names |
| RingSchedule.TransitionFindsRing | milli/src/search/criteria/geo.rs:165-169 | a distance outside the current ring but not below its start is found in a strictly later ring, which contains it |
| RingSchedule.MaxIsInNoRing | milli/src/search/criteria/geo.rs:150-169 | usize::MAX itself lies in no ring, since the last range is half-open |
| Bucketer.AddToLast | milli/src/search/criteria/geo.rs:175 | inserting into the last bucket keeps the number of buckets and every earlier bucket, and adds the id to the last one |
| Bucketer.Reverse | milli/src/search/criteria/geo.rs:185-189 | `rev()` keeps the length and puts element k at position n-1-k |
| Bucketer.Classify | milli/src/search/criteria/geo.rs:161-177 | a non-candidate leaves the state alone; a candidate is removed from the working set; outside the current ring it opens a new bucket `{id}` and moves to a strictly later ring that contains it; inside it, it joins the last bucket (or opens the first) and the ring stays; a panic happens exactly when no ring from the cursor on contains it |
| Bucketer.ClassifyPoint | milli/src/search/criteria/geo.rs:161-177 | the classification on the loop's variables gives exactly the specified new state, or reports the panic of `unwrap` |
| Bucketer.ClassifyKeeps | milli/src/search/criteria/geo.rs:164-177 | classifying a candidate adds its id to the union of the buckets and adds at most one bucket; a non-candidate adds nothing; no bucket is ever empty |
| Bucketer.Step | milli/src/search/criteria/geo.rs:160-179 | one iteration removes the id from the working set, keeps the ring cursor forward-only, adds at least one bucket, and always ends with the bucket `{id}` last |
| Bucketer.Walk | milli/src/search/criteria/geo.rs:160-183 | the loop visits at least one point when any is left and never more than there are, and pushes at least one bucket per visited point |
| Bucketer.DistanceBuckets | milli/src/search/criteria/geo.rs:129-190 | `geo_point` returns no bucket exactly when the enumeration is empty, whatever the candidates |
| Bucketer.BucketByDistance | milli/src/search/criteria/geo.rs:129-190 | the loop returns what the specification of `geo_point` gives, the panic included |
| Bucketer.StepTracks | milli/src/search/criteria/geo.rs:160-179 | one iteration keeps the loop invariant: the working set is the candidates minus the visited ids, the buckets are non-empty and their union is the set of visited ids, and there are between n and 2n buckets after n points |
| Bucketer.WalkTracks | milli/src/search/criteria/geo.rs:160-183 | the loop keeps that invariant to its end; it stops after the point that empties the working set or at the end of the enumeration, and the set was still non-empty before the last visited point |
| Bucketer.RemainingShrinks | milli/src/search/criteria/geo.rs:161 | the working set only shrinks as points are visited |
| Bucketer.AscendingBuckets | milli/src/search/criteria/geo.rs:160-183 | after n visited points the working set is the candidates minus their ids; at least one point is visited when the enumeration is not empty, even with no candidate; the loop stopped as soon as the set was empty; every bucket is non-empty; the buckets hold exactly the visited ids; there are at least n and at most 2n buckets |
| Bucketer.CandidateVisited | milli/src/search/criteria/geo.rs:160-183 | a point that is still a candidate when reached is visited: the loop does not stop before it |
| Bucketer.StepGrows | milli/src/search/criteria/geo.rs:164-179 | one iteration never removes an id from a bucket, and adds only the visited id, to the last bucket or to new ones |
| Bucketer.StepArranged | milli/src/search/criteria/geo.rs:160-179 | on a sorted enumeration with one point per id, one iteration keeps buckets in visiting order and each bucket within one ring |
| Bucketer.WalkArranged | milli/src/search/criteria/geo.rs:160-183 | the loop keeps those two facts to its end |
| Bucketer.NearestFirst | milli/src/search/criteria/geo.rs:160-186 | on a sorted enumeration with one point per id, an id in an earlier ascending bucket is no farther than an id in a later one, and the ids of one bucket lie in one ring |
| Bucketer.FarthestFirst | milli/src/search/criteria/geo.rs:185-189 | in descending order an id in an earlier bucket is no nearer than an id in a later one, and each bucket lies in one ring |
| Bucketer.NeighbourJoins | milli/src/search/criteria/geo.rs:171-179 | a candidate in the ring of the candidate visited just before it is inserted into that one's bucket |
| Bucketer.StepChained | milli/src/search/criteria/geo.rs:160-179 | one iteration keeps the last bucket as the singleton of the last visited point, keeps the ring of the last candidate as the current ring, and keeps same-ring neighbours together |
| Bucketer.WalkChained | milli/src/search/criteria/geo.rs:160-183 | the loop keeps those facts to its end |
| Bucketer.NeighboursShareBucket | milli/src/search/criteria/geo.rs:171-189 | two consecutively visited candidates whose distances lie in the same ring share a bucket, in either direction |
| Bucketer.WalkNeverPanics | milli/src/search/criteria/geo.rs:160-169 | on a sorted enumeration below usize::MAX, with the current ring starting at or below the next distance, the loop never panics |
| Bucketer.NeverPanics | milli/src/search/criteria/geo.rs:160-169 | on a sorted enumeration below usize::MAX, the ring lookup after every transition succeeds, in either direction |
| Bucketer.PanicsAtMax | milli/src/search/criteria/geo.rs:165-169 | a candidate at distance usize::MAX makes the `unwrap` panic, so the comment at line 167 needs distances below usize::MAX |
| Bucketer.PanicsOutOfOrder | milli/src/search/criteria/geo.rs:160-169 | a candidate nearer than one already classified lies before the current ring, which the search never revisits, so the `unwrap` panics |
| Bucketer.NoCandidatesFirstPoint | milli/src/search/criteria/geo.rs:160-189 | with no candidate, the output is the singleton of the first point, or nothing for an empty enumeration |
| Bucketer.BucketsOfEnumeration | milli/src/search/criteria/geo.rs:161-189 | every returned bucket is non-empty and holds only ids that the enumeration yields, in either direction |
| Bucketer.DescendingMirrorsAscending | milli/src/search/criteria/geo.rs:185-189 | the descending output is the ascending one reversed: same length, and bucket k of one is bucket n-1-k of the other |
| Bucketer.FiveDocumentRun | milli/src/search/criteria/geo.rs:160-186 | candidates at 10 m, 150 m, 150 km, 150.05 km and 9800 km yield nine buckets, each id in two consecutive buckets, because of the unconditional push |
| GeoCriterion.Resolve | milli/src/search/criteria/geo.rs:90-101 | the resolved set lies inside the explicit candidates when given, else inside the resolved query tree, else inside all document ids, and inside the filter when one is given; without a filter it is exactly the resolved query tree, or exactly all document ids, when those are the selected source |
| GeoCriterion.ResolvePrecedence | milli/src/search/criteria/geo.rs:90-101 | explicit candidates make the query tree, the resolver and the document ids irrelevant, and are taken whole without a filter; a query tree makes the document ids irrelevant and, without a filter, its resolution is taken whole; with neither, every document id is taken; a filter intersects whatever was selected |
| GeoCriterion.BatchStatistic | milli/src/search/criteria/geo.rs:103-106 | a batch counts its own `bucket_candidates` when it has them, else its resolved set |
| GeoCriterion.Buckets | milli/src/search/criteria/geo.rs:112-120 | the pending buckets for a batch are non-empty and made of R-tree ids; with no R-tree there are none |
| GeoCriterion.Served | milli/src/search/criteria/geo.rs:76-81 | the served result holds the pending bucket minus the excluded ids, and nothing excluded; it has no query tree and no filter, and carries `bucket_candidates` |
| GeoCriterion.AfterBatch | milli/src/search/criteria/geo.rs:90-121 | a batch adds its statistic to `bucket_candidates`; one that resolves to nothing changes nothing else; otherwise its resolved set minus the excluded ids becomes `allowed_candidates`, is bucketed and the cursor restarts |
| GeoCriterion.Pull | milli/src/search/criteria/geo.rs:83-121 | pulling moves the parent one batch forward and adds that batch's statistic to `bucket_candidates` |
| GeoCriterion.PullBarren | milli/src/search/criteria/geo.rs:108-120 | a pulled batch leaves no bucket to serve exactly when it resolves to nothing or bucketing it yields no bucket |
| GeoCriterion.NextSpec | milli/src/search/criteria/geo.rs:68-126 | a call only moves the parent forward and never past its end, and keeps the bucket cursor within the pending buckets |
| GeoCriterion.NextServesBuffered | milli/src/search/criteria/geo.rs:72-81 | a pending bucket is returned minus the excluded ids, with no query tree, no filter and a copy of bucket_candidates; it is removed from allowed_candidates; nothing else changes |
| GeoCriterion.NextBucketCandidates | milli/src/search/criteria/geo.rs:103-106 | bucket_candidates only grows: it becomes the old set united with each pulled batch's own statistic, or its resolved set when it has none |
| GeoCriterion.NextExhausted | milli/src/search/criteria/geo.rs:83-122 | next returns None exactly when no bucket is pending and every remaining parent batch resolves to nothing or yields no bucket; the parent is then exhausted |
| GeoCriterion.NextAfterPull | milli/src/search/criteria/geo.rs:83-121 | after a pull, the last batch pulled is the first one that was not barren; allowed_candidates is its resolved set minus the excluded ids, minus the returned bucket; the pending buckets are geo_point of that allowed set; the first of them is returned |
| GeoCriterion.NextStaysInRtree | milli/src/search/criteria/geo.rs:72-120 | pending buckets only hold ids of the R-tree, so next never returns an id outside it, nor an excluded id |
| GeoCriterion.NoRtreeDrainsParent | milli/src/search/criteria/geo.rs:108-122 | with no R-tree, once the pending buckets are used up, next pulls every remaining batch, counts each into bucket_candidates, emits nothing, and returns None |
| GeoCriterion.ForeignIdServed | milli/src/search/criteria/geo.rs:108-120 | when every resolved id is excluded, next still serves the nearest point of the R-tree, an id the parent never offered |
| GeoCriterion.ParentCriterion.Next | milli/src/search/criteria/geo.rs:83 | the parent yields its next batch and advances, or yields None once exhausted |
| GeoCriterion.Geo.New | milli/src/search/criteria/geo.rs:41-64 | a new criterion has no pending bucket, an empty bucket_candidates and the geo-faceted ids as allowed_candidates |
| GeoCriterion.Geo.Asc | milli/src/search/criteria/geo.rs:23-30 | builds an ascending criterion in the initial state |
| GeoCriterion.Geo.Desc | milli/src/search/criteria/geo.rs:32-39 | builds a descending criterion in the initial state |
| GeoCriterion.Geo.Absorb | milli/src/search/criteria/geo.rs:90-121 | handling a batch gives the specified state, and keeps the cursor within the pending buckets and those buckets within the R-tree |
| GeoCriterion.Geo.Next | milli/src/search/criteria/geo.rs:68-126 | the loop leaves the criterion in the state NextSpec gives and returns its result, keeping the invariant that pending buckets hold only R-tree ids |

## Left out

- `distance_between_two_points` and `.round()` (lines 162-163) are floating-point geodesy. Each point carries its rounded distance.
- R-tree construction and `nearest_neighbor_iter` belong to a foreign library. The R-tree is modelled as its enumeration from the reference point, and only its order and its distance bound are assumed.
- `heed::RoTxn`, the `Index` storage accessors and the internals of `CriteriaBuilder` and `resolve_query_tree` are storage and unseen code. They become given sets and a given resolver function. The word cache in the parameters is not modelled.
- Error propagation through `?`: failures come only from storage and the resolver, so the model is failure-free.
- `Box<dyn Criterion>` dynamic dispatch and lifetimes are left out. The parent is a fixed stream of batches, so the model does not capture a parent that would change the excluded ids.
- The partition of the candidates across buckets is not claimed, because line 179 breaks it.
- A stronger ordering, that every id of an earlier bucket is no farther than the lower bound of a later bucket's ring, is not claimed. Line 179 breaks it: candidates at 150 m and 200 m give `[{1}, {1, 2}, {2}]`, and id 1 at 150 m lies past the 100 m start of the second bucket's ring. `NearestFirst` states the ordering that does hold.
- `NearestFirst` and `FarthestFirst` assume one point per document id in the R-tree. `Geo`'s invariant does not carry that assumption, so the criterion-level lemmas do not restate the ordering.
