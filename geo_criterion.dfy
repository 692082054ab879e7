/**
 * The `Geo` ranking criterion (milli/src/search/criteria/geo.rs, lines
 * 10-127): a pull-based stage that asks its parent criterion for batches of
 * candidates, resolves each batch into a candidate set, and hands out that
 * set regrouped into distance buckets by `geo_point`.
 *
 * Storage is seen through an `Index` value: the ids of all documents, the
 * ids of geo-faceted documents, the query-tree resolver, and the R-tree,
 * seen through its nearest-neighbour enumeration from the criterion's
 * reference point.  The parent criterion is a fixed stream of results with
 * a cursor.  The parameters shared along the chain are reduced to the set of
 * excluded ids, which `next` only reads.
 */
module GeoCriterion {
  import opened Options
  import opened RingSchedule
  import opened Bucketer

  /** A residual query expression; it is only ever handed to the resolver. */
  type QueryTree

  /** One batch emitted by a criterion. */
  datatype CriterionResult = CriterionResult(
    queryTree: Option<QueryTree>,
    candidates: Option<set<nat>>,
    filteredCandidates: Option<set<nat>>,
    bucketCandidates: Option<set<nat>>)

  /** What the criterion reads from storage during one query. */
  datatype Index = Index(
    documentsIds: set<nat>,
    geoFacetedDocumentsIds: set<nat>,
    geoRtree: Option<seq<GeoPoint>>,
    resolveQueryTree: QueryTree -> set<nat>)

  /**
   * The parts of a `Geo` criterion that never change.  The criterion's
   * `rtree` field is what the index holds, read once when it is built; the
   * index is an immutable value here, so it is read from there.
   */
  datatype Environment = Environment(
    index: Index,
    ascending: bool,
    parent: seq<CriterionResult>)

  /**
   * The parts of a `Geo` criterion that `next` updates: the pending buckets
   * and their cursor, `allowed_candidates`, `bucket_candidates`, and how far
   * the parent has been pulled.
   */
  datatype GeoState = GeoState(
    buffer: seq<set<nat>>,
    cursor: nat,
    allowed: set<nat>,
    bucket: set<nat>,
    parentCursor: nat)

  /** The nearest-neighbour enumeration is in non-decreasing distance order, below usize::MAX. */
  ghost predicate EnvValid(env: Environment)
  {
    env.index.geoRtree.Some? ==> Sorted(env.index.geoRtree.value) && BelowMax(env.index.geoRtree.value)
  }

  /** The ids the R-tree can yield. */
  function EnumIds(env: Environment): set<nat>
  {
    if env.index.geoRtree.Some? then Ids(env.index.geoRtree.value) else {}
  }

  /** Every pending bucket is made of ids the R-tree holds. */
  ghost predicate BufferWithin(env: Environment, st: GeoState)
  {
    forall k :: 0 <= k < |st.buffer| ==> st.buffer[k] <= EnumIds(env)
  }

  /**
   * Lines 90-101: the parent's explicit candidates, else its query tree
   * resolved, else every document id; narrowed by the filter when one is
   * present.
   */
  function Resolve(index: Index, batch: CriterionResult): (r: set<nat>)
    ensures batch.filteredCandidates.Some? ==> r <= batch.filteredCandidates.value
    ensures batch.candidates.Some? ==> r <= batch.candidates.value
    ensures batch.candidates.None? && batch.queryTree.Some? ==> r <= index.resolveQueryTree(batch.queryTree.value)
    ensures batch.candidates.None? && batch.queryTree.None? ==> r <= index.documentsIds
    ensures batch.filteredCandidates.None? && batch.candidates.None? && batch.queryTree.Some? ==>
      index.resolveQueryTree(batch.queryTree.value) <= r
    ensures batch.filteredCandidates.None? && batch.candidates.None? && batch.queryTree.None? ==>
      index.documentsIds <= r
  {
    var candidates :=
      if batch.candidates.Some? then batch.candidates.value
      else if batch.queryTree.Some? then index.resolveQueryTree(batch.queryTree.value)
      else index.documentsIds;
    if batch.filteredCandidates.Some? then candidates * batch.filteredCandidates.value else candidates
  }

  /**
   * Lines 90-101 in order of precedence: explicit candidates make the query
   * tree, the resolver and the document ids irrelevant; a query tree makes
   * the document ids irrelevant; and a filter narrows whatever was selected.
   */
  lemma ResolvePrecedence(index: Index, other: Index, batch: CriterionResult, tree: Option<QueryTree>)
    ensures batch.candidates.Some? ==> Resolve(other, batch.(queryTree := tree)) == Resolve(index, batch)
    ensures batch.candidates.None? && batch.queryTree.Some? && other.resolveQueryTree == index.resolveQueryTree ==>
      Resolve(other, batch) == Resolve(index, batch)
    ensures batch.filteredCandidates.Some? ==>
      Resolve(index, batch) == Resolve(index, batch.(filteredCandidates := None)) * batch.filteredCandidates.value
    ensures batch.filteredCandidates.None? && batch.candidates.Some? ==> Resolve(index, batch) == batch.candidates.value
    ensures batch.filteredCandidates.None? && batch.candidates.None? && batch.queryTree.Some? ==>
      Resolve(index, batch) == index.resolveQueryTree(batch.queryTree.value)
    ensures batch.filteredCandidates.None? && batch.candidates.None? && batch.queryTree.None? ==>
      Resolve(index, batch) == index.documentsIds
  {
  }

  /** Lines 103-106: what a batch adds to `bucket_candidates`. */
  function BatchStatistic(index: Index, batch: CriterionResult): (r: set<nat>)
    ensures batch.bucketCandidates.Some? ==> r == batch.bucketCandidates.value
    ensures batch.bucketCandidates.None? ==> r == Resolve(index, batch)
  {
    if batch.bucketCandidates.Some? then batch.bucketCandidates.value else Resolve(index, batch)
  }

  /** The statistics of a run of batches, together. */
  function Statistics(index: Index, batches: seq<CriterionResult>): set<nat>
  {
    if |batches| == 0 then {} else BatchStatistic(index, batches[0]) + Statistics(index, batches[1..])
  }

  /** Lines 112-120: the pending buckets for a batch whose allowed candidates are `allowed`. */
  function Buckets(env: Environment, allowed: set<nat>): (r: seq<set<nat>>)
    requires EnvValid(env)
    ensures forall k :: 0 <= k < |r| ==> r[k] != {} && r[k] <= EnumIds(env)
    ensures env.index.geoRtree.None? ==> r == []
  {
    match env.index.geoRtree
    case None => []
    case Some(points) =>
      NeverPanics(points, allowed, env.ascending);
      BucketsOfEnumeration(points, allowed, env.ascending);
      DistanceBuckets(points, allowed, env.ascending).value
  }

  /** A batch yields nothing to serve: it resolves to no candidate, or it produces no bucket. */
  ghost predicate Barren(env: Environment, batch: CriterionResult, excluded: set<nat>)
    requires EnvValid(env)
  {
    Resolve(env.index, batch) == {} || Buckets(env, Resolve(env.index, batch) - excluded) == []
  }

  /** The result served from the pending bucket at the cursor (lines 73-81). */
  function Served(st: GeoState, excluded: set<nat>): (r: CriterionResult)
    requires st.cursor < |st.buffer|
    ensures r.candidates.Some? && r.candidates.value <= st.buffer[st.cursor] && r.candidates.value !! excluded
    ensures st.buffer[st.cursor] <= r.candidates.value + excluded
    ensures r.queryTree.None? && r.filteredCandidates.None? && r.bucketCandidates == Some(st.bucket)
  {
    CriterionResult(None, Some(st.buffer[st.cursor] - excluded), None, Some(st.bucket))
  }

  /**
   * Lines 90-121: resolve a batch, add its statistic to
   * `bucket_candidates`, and, unless it resolved to nothing, make its
   * non-excluded candidates the allowed ones and bucket them.
   */
  function AfterBatch(env: Environment, st: GeoState, batch: CriterionResult, excluded: set<nat>): (next: GeoState)
    requires EnvValid(env)
    ensures next.parentCursor == st.parentCursor && st.bucket <= next.bucket
    ensures next.bucket == st.bucket + BatchStatistic(env.index, batch)
    ensures Resolve(env.index, batch) == {} ==>
      next.buffer == st.buffer && next.cursor == st.cursor && next.allowed == st.allowed
    ensures Resolve(env.index, batch) != {} ==>
      next.cursor == 0 && next.allowed == Resolve(env.index, batch) - excluded && next.allowed !! excluded &&
      next.buffer == Buckets(env, next.allowed)
  {
    var candidates := Resolve(env.index, batch);
    var bucket := st.bucket + BatchStatistic(env.index, batch);
    if candidates == {} then
      st.(bucket := bucket)
    else
      var allowed := candidates - excluded;
      GeoState(Buckets(env, allowed), 0, allowed, bucket, st.parentCursor)
  }

  /** Lines 83-121: pull the parent's next batch and absorb it. */
  function Pull(env: Environment, st: GeoState, excluded: set<nat>): (next: GeoState)
    requires EnvValid(env) && st.parentCursor < |env.parent|
    ensures next.parentCursor == st.parentCursor + 1
    ensures next.bucket == st.bucket + BatchStatistic(env.index, env.parent[st.parentCursor])
  {
    AfterBatch(env, st.(parentCursor := st.parentCursor + 1), env.parent[st.parentCursor], excluded)
  }

  /**
   * One call of `next` (lines 68-126): the new state and what is returned.
   * A pending bucket is served at once; otherwise the parent is pulled until
   * it is exhausted or a batch yields buckets to serve.
   */
  function NextSpec(env: Environment, st: GeoState, excluded: set<nat>): (out: (GeoState, Option<CriterionResult>))
    requires EnvValid(env) && st.parentCursor <= |env.parent|
    ensures st.parentCursor <= out.0.parentCursor <= |env.parent|
    ensures st.cursor <= |st.buffer| ==> out.0.cursor <= |out.0.buffer|
    decreases |env.parent| - st.parentCursor
  {
    if st.cursor < |st.buffer| then
      var served := st.buffer[st.cursor] - excluded;
      (st.(cursor := st.cursor + 1, allowed := st.allowed - served), Some(Served(st, excluded)))
    else if st.parentCursor == |env.parent| then
      (st, None)
    else
      NextSpec(env, Pull(env, st, excluded), excluded)
  }

  /** With nothing pending and the parent not exhausted, `next` pulls once and starts over. */
  lemma NextPulls(env: Environment, st: GeoState, excluded: set<nat>)
    requires EnvValid(env) && st.parentCursor < |env.parent|
    requires st.cursor >= |st.buffer|
    ensures NextSpec(env, st, excluded) == NextSpec(env, Pull(env, st, excluded), excluded)
  {
  }

  /** A pull leaves nothing to serve exactly when the pulled batch is barren. */
  lemma PullBarren(env: Environment, st: GeoState, excluded: set<nat>)
    requires EnvValid(env) && st.parentCursor < |env.parent|
    requires st.cursor >= |st.buffer|
    ensures var next := Pull(env, st, excluded);
      next.cursor >= |next.buffer| <==> Barren(env, env.parent[st.parentCursor], excluded)
  {
  }

  /**
   * Lines 72-81: with a pending bucket, `next` returns it minus the excluded
   * ids as explicit candidates, with no query tree, no filter and a copy of
   * `bucket_candidates`; it advances the cursor, removes the returned ids
   * from `allowed_candidates`, and changes nothing else.
   */
  lemma NextServesBuffered(env: Environment, st: GeoState, excluded: set<nat>)
    requires EnvValid(env) && st.parentCursor <= |env.parent|
    requires st.cursor < |st.buffer|
    ensures var out := NextSpec(env, st, excluded);
      var served := st.buffer[st.cursor] - excluded;
      out.1 == Some(CriterionResult(None, Some(served), None, Some(st.bucket))) &&
      served !! excluded &&
      out.0.allowed == st.allowed - served && out.0.allowed !! served &&
      out.0.cursor == st.cursor + 1 &&
      out.0.buffer == st.buffer && out.0.bucket == st.bucket && out.0.parentCursor == st.parentCursor
  {
  }

  /**
   * `bucket_candidates` only grows: after `next` it is the old set united
   * with the statistic of every batch pulled from the parent during the call
   * (the parent's own statistic when it gives one, else the resolved set).
   */
  lemma {:induction false} NextBucketCandidates(env: Environment, st: GeoState, excluded: set<nat>)
    requires EnvValid(env) && st.parentCursor <= |env.parent|
    ensures var out := NextSpec(env, st, excluded).0;
      out.bucket == st.bucket + Statistics(env.index, env.parent[st.parentCursor..out.parentCursor]) &&
      st.bucket <= out.bucket
    decreases |env.parent| - st.parentCursor
  {
    var out := NextSpec(env, st, excluded).0;
    if st.cursor < |st.buffer| || st.parentCursor == |env.parent| {
      assert env.parent[st.parentCursor..out.parentCursor] == [];
    } else {
      var next := Pull(env, st, excluded);
      NextBucketCandidates(env, next, excluded);
      var batches := env.parent[st.parentCursor..out.parentCursor];
      assert batches[0] == env.parent[st.parentCursor];
      assert batches[1..] == env.parent[next.parentCursor..out.parentCursor];
    }
  }

  /**
   * `next` returns `None` exactly when nothing is pending and every batch
   * the parent has left is barren; the parent is then exhausted.
   */
  lemma {:induction false} NextExhausted(env: Environment, st: GeoState, excluded: set<nat>)
    requires EnvValid(env) && st.parentCursor <= |env.parent|
    ensures var out := NextSpec(env, st, excluded);
      out.1.None? <==>
        st.cursor >= |st.buffer| &&
        forall j :: st.parentCursor <= j < |env.parent| ==> Barren(env, env.parent[j], excluded)
    ensures NextSpec(env, st, excluded).1.None? ==> NextSpec(env, st, excluded).0.parentCursor == |env.parent|
    decreases |env.parent| - st.parentCursor
  {
    if st.cursor >= |st.buffer| && st.parentCursor < |env.parent| {
      var next := Pull(env, st, excluded);
      NextExhausted(env, next, excluded);
      if !Barren(env, env.parent[st.parentCursor], excluded) {
        NextServesBuffered(env, next, excluded);
      }
    }
  }

  /**
   * When nothing is pending and `next` returns a result, it pulled batches
   * until the first one that is not barren, whose resolved candidates minus
   * the excluded ids became `allowed_candidates` and were bucketed; the
   * first of those buckets, minus the excluded ids, is what is returned.
   */
  lemma {:induction false} NextAfterPull(env: Environment, st: GeoState, excluded: set<nat>)
    requires EnvValid(env) && st.parentCursor <= |env.parent|
    requires st.cursor >= |st.buffer|
    requires NextSpec(env, st, excluded).1.Some?
    ensures var out := NextSpec(env, st, excluded);
      var last := out.0.parentCursor - 1;
      st.parentCursor <= last < |env.parent| &&
      BarrenRun(env, excluded, st.parentCursor, last) &&
      ServedFromBatch(env, excluded, last, out)
    decreases |env.parent| - st.parentCursor
  {
    var next := Pull(env, st, excluded);
    NextPulls(env, st, excluded);
    var last := NextSpec(env, st, excluded).0.parentCursor - 1;
    if next.cursor >= |next.buffer| {
      NextAfterPull(env, next, excluded);
      PullBarren(env, st, excluded);
      BarrenRunGrows(env, excluded, st.parentCursor, last);
    } else {
      PullServed(env, st, excluded);
    }
  }

  lemma BarrenRunGrows(env: Environment, excluded: set<nat>, from: nat, to: nat)
    requires EnvValid(env) && from < to <= |env.parent|
    requires Barren(env, env.parent[from], excluded) && BarrenRun(env, excluded, from + 1, to)
    ensures BarrenRun(env, excluded, from, to)
  {
  }

  /** Every batch of the parent from `from` up to `to` is barren. */
  ghost predicate BarrenRun(env: Environment, excluded: set<nat>, from: nat, to: nat)
    requires EnvValid(env) && to <= |env.parent|
  {
    forall j :: from <= j < to ==> Barren(env, env.parent[j], excluded)
  }

  /** A pull that leaves buckets pending serves the first of them at once. */
  lemma PullServed(env: Environment, st: GeoState, excluded: set<nat>)
    requires EnvValid(env) && st.parentCursor < |env.parent|
    requires st.cursor >= |st.buffer|
    requires Pull(env, st, excluded).cursor < |Pull(env, st, excluded).buffer|
    ensures ServedFromBatch(env, excluded, st.parentCursor, NextSpec(env, Pull(env, st, excluded), excluded))
  {
    NextServesBuffered(env, Pull(env, st, excluded), excluded);
  }

  /**
   * The state and result of `next` right after batch `last` was pulled and
   * its first bucket served: the batch resolved to a non-empty set, whose
   * non-excluded part became `allowed_candidates` and was bucketed, and the
   * first bucket minus the excluded ids was returned and taken out of
   * `allowed_candidates`.
   */
  ghost predicate ServedFromBatch(env: Environment, excluded: set<nat>, last: nat, out: (GeoState, Option<CriterionResult>))
    requires EnvValid(env) && last < |env.parent|
  {
    var allowed := Resolve(env.index, env.parent[last]) - excluded;
    Resolve(env.index, env.parent[last]) != {} &&
    out.0.buffer == Buckets(env, allowed) && |out.0.buffer| > 0 && out.0.cursor == 1 &&
    out.1 == Some(CriterionResult(None, Some(out.0.buffer[0] - excluded), None, Some(out.0.bucket))) &&
    out.0.allowed == allowed - (out.0.buffer[0] - excluded)
  }

  /**
   * Pending buckets only ever hold ids the R-tree holds, so `next` never
   * returns an id outside the R-tree, nor an excluded one.
   */
  lemma {:induction false} NextStaysInRtree(env: Environment, st: GeoState, excluded: set<nat>)
    requires EnvValid(env) && st.parentCursor <= |env.parent|
    requires BufferWithin(env, st)
    ensures BufferWithin(env, NextSpec(env, st, excluded).0)
    ensures var r := NextSpec(env, st, excluded).1;
      r.Some? ==> r.value.candidates.Some? && r.value.candidates.value <= EnumIds(env) - excluded
    decreases |env.parent| - st.parentCursor
  {
    if st.cursor >= |st.buffer| && st.parentCursor < |env.parent| {
      NextStaysInRtree(env, Pull(env, st, excluded), excluded);
    }
  }

  /**
   * Without an R-tree nothing is ever bucketed: once the pending buckets are
   * used up, `next` drains the parent, counting each batch into
   * `bucket_candidates`, and returns `None`.
   */
  lemma NoRtreeDrainsParent(env: Environment, st: GeoState, excluded: set<nat>)
    requires EnvValid(env) && st.parentCursor <= |env.parent|
    requires env.index.geoRtree.None? && st.cursor >= |st.buffer|
    ensures NextSpec(env, st, excluded).1.None?
    ensures NextSpec(env, st, excluded).0.parentCursor == |env.parent|
    ensures NextSpec(env, st, excluded).0.bucket == st.bucket + Statistics(env.index, env.parent[st.parentCursor..])
  {
    NextExhausted(env, st, excluded);
    NextBucketCandidates(env, st, excluded);
    assert env.parent[st.parentCursor..|env.parent|] == env.parent[st.parentCursor..];
  }

  /**
   * When every resolved id is excluded (line 111), `geo_point` is handed an
   * empty candidate set, still visits the nearest point and pushes its
   * singleton (lines 179-181), and `next` returns that point's id: one the
   * parent never offered.
   */
  lemma ForeignIdServed()
    ensures var none: QueryTree -> set<nat> := q => {};
      var env := Environment(Index({}, {}, Some([GeoPoint(2, 10)]), none), true,
                             [CriterionResult(None, Some({1}), None, None)]);
      EnvValid(env) &&
      NextSpec(env, GeoState([], 0, {}, {}, 0), {1}).1 == Some(CriterionResult(None, Some({2}), None, Some({1}))) &&
      2 !in Resolve(env.index, env.parent[0])
  {
    var none: QueryTree -> set<nat> := q => {};
    var env := Environment(Index({}, {}, Some([GeoPoint(2, 10)]), none), true,
                           [CriterionResult(None, Some({1}), None, None)]);
    var st := GeoState([], 0, {}, {}, 0);
    assert EnvValid(env);
    NoCandidatesFirstPoint([GeoPoint(2, 10)], true);
    assert {1} - {1} == {};
    assert Buckets(env, {}) == [{2}];
    var next := Pull(env, st, {1});
    assert next == GeoState([{2}], 0, {}, {1}, 1);
    assert {2} - {1} == {2};
  }

  /** The parent criterion: a fixed stream of batches, pulled one at a time. */
  class ParentCriterion {
    const results: seq<CriterionResult>
    var cursor: nat

    ghost predicate Valid()
      reads this
    {
      cursor <= |results|
    }

    constructor (results: seq<CriterionResult>)
      ensures Valid() && this.results == results && cursor == 0
    {
      this.results := results;
      cursor := 0;
    }

    method Next() returns (r: Option<CriterionResult>)
      requires Valid()
      modifies this
      ensures Valid()
      ensures old(cursor) < |results| ==> r == Some(results[old(cursor)]) && cursor == old(cursor) + 1
      ensures old(cursor) == |results| ==> r.None? && cursor == old(cursor)
    {
      if cursor < |results| {
        r := Some(results[cursor]);
        cursor := cursor + 1;
      } else {
        r := None;
      }
    }
  }

  class Geo {
    const index: Index
    const ascending: bool
    const parent: ParentCriterion
    /** The pending buckets (`candidates`) and how many have been served. */
    var candidates: seq<set<nat>>
    var cursor: nat
    var allowedCandidates: set<nat>
    var bucketCandidates: set<nat>

    function Env(): Environment
    {
      Environment(index, ascending, parent.results)
    }

    function State(): GeoState
      reads this, parent
    {
      GeoState(candidates, cursor, allowedCandidates, bucketCandidates, parent.cursor)
    }

    ghost predicate Valid()
      reads this, parent
    {
      parent.Valid() && cursor <= |candidates| && EnvValid(Env()) && BufferWithin(Env(), State())
    }

    /** `Geo::new` (lines 41-64): nothing pending, nothing counted yet, every geo-faceted id allowed. */
    constructor New(index: Index, parent: ParentCriterion, ascending: bool)
      requires parent.Valid()
      requires index.geoRtree.Some? ==> Sorted(index.geoRtree.value) && BelowMax(index.geoRtree.value)
      ensures Valid()
      ensures this.index == index && this.parent == parent && this.ascending == ascending
      ensures candidates == [] && cursor == 0
      ensures allowedCandidates == index.geoFacetedDocumentsIds
      ensures bucketCandidates == {}
    {
      this.index := index;
      this.parent := parent;
      this.ascending := ascending;
      candidates := [];
      cursor := 0;
      allowedCandidates := index.geoFacetedDocumentsIds;
      bucketCandidates := {};
    }

    /** `Geo::asc` (lines 23-30). */
    static method Asc(index: Index, parent: ParentCriterion) returns (g: Geo)
      requires parent.Valid()
      requires index.geoRtree.Some? ==> Sorted(index.geoRtree.value) && BelowMax(index.geoRtree.value)
      ensures fresh(g) && g.Valid() && g.ascending && g.parent == parent && g.index == index
      ensures g.State() == GeoState([], 0, index.geoFacetedDocumentsIds, {}, parent.cursor)
    {
      g := new Geo.New(index, parent, true);
    }

    /** `Geo::desc` (lines 32-39). */
    static method Desc(index: Index, parent: ParentCriterion) returns (g: Geo)
      requires parent.Valid()
      requires index.geoRtree.Some? ==> Sorted(index.geoRtree.value) && BelowMax(index.geoRtree.value)
      ensures fresh(g) && g.Valid() && !g.ascending && g.parent == parent && g.index == index
      ensures g.State() == GeoState([], 0, index.geoFacetedDocumentsIds, {}, parent.cursor)
    {
      g := new Geo.New(index, parent, false);
    }

    /** Lines 90-121 of `next`: what is done with a batch the parent handed over. */
    method Absorb(batch: CriterionResult, excluded: set<nat>)
      requires EnvValid(Env())
      modifies this
      ensures State() == AfterBatch(Env(), old(State()), batch, excluded)
      ensures old(cursor <= |candidates|) ==> cursor <= |candidates|
      ensures old(BufferWithin(Env(), State())) ==> BufferWithin(Env(), State())
    {
      var resolved := Resolve(index, batch);
      match batch.bucketCandidates {
        case Some(b) => bucketCandidates := bucketCandidates + b;
        case None => bucketCandidates := bucketCandidates + resolved;
      }
      if resolved == {} {
        return;
      }
      allowedCandidates := resolved - excluded;
      match index.geoRtree {
        case Some(points) =>
          NeverPanics(points, allowedCandidates, ascending);
          var buckets := BucketByDistance(points, allowedCandidates, ascending);
          BucketsOfEnumeration(points, allowedCandidates, ascending);
          candidates := buckets.value;
        case None =>
          candidates := [];
      }
      cursor := 0;
    }

    /** `Criterion::next` (lines 68-126). */
    method Next(excluded: set<nat>) returns (r: Option<CriterionResult>)
      requires Valid()
      modifies this, parent
      ensures Valid()
      ensures (State(), r) == NextSpec(Env(), old(State()), excluded)
    {
      while true
        invariant Valid()
        invariant NextSpec(Env(), State(), excluded) == NextSpec(Env(), old(State()), excluded)
        decreases |parent.results| - parent.cursor
      {
        if cursor < |candidates| {
          var served := candidates[cursor] - excluded;
          cursor := cursor + 1;
          allowedCandidates := allowedCandidates - served;
          r := Some(CriterionResult(None, Some(served), None, Some(bucketCandidates)));
          return;
        }
        ghost var before := State();
        var pulled := parent.Next();
        match pulled {
          case None =>
            r := None;
            return;
          case Some(batch) =>
            Absorb(batch, excluded);
            assert State() == Pull(Env(), before, excluded);
        }
      }
    }
  }
}
