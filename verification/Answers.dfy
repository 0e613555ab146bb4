/**
 What a user of the engine sees of its searches: engines holding the same map give the same answers,
 however their slots are numbered, and a batch gives the answers of its queries one by one.
 */
module Answers {
  import opened Types
  import opened Recovery
  import opened Nearest
  import opened VectorStore
  import opened LayerWalk
  import opened HnswGraph
  import opened HnswIndex
  import opened Engine

  // ---------------------------------------------------------------- renumbered slots

  /** pi renames a's eligible ids to b's, one to one, keeping distances. */
  ghost predicate Renames(pi: map<nat, nat>, eligA: set<nat>, dsA: seq<Score>, eligB: set<nat>, dsB: seq<Score>) {
    && pi.Keys == eligA
    && (forall x | x in eligA :: x < |dsA| && pi[x] in eligB && pi[x] < |dsB| && dsB[pi[x]] == dsA[x])
    && (forall x, y | x in eligA && y in eligA && x != y :: pi[x] != pi[y])
    && (forall y | y in eligB :: exists x :: x in eligA && pi[x] == y)
  }

  lemma {:induction false} RenamingCounts(pi: map<nat, nat>, a: set<nat>, b: set<nat>)
    requires a <= pi.Keys && (forall x | x in a :: pi[x] in b)
    requires forall x, y | x in a && y in a && x != y :: pi[x] != pi[y]
    requires forall y | y in b :: exists x :: x in a && pi[x] == y
    ensures |a| == |b|
    decreases a
  {
    if a == {} {
      assert b == {};
    } else {
      var x :| x in a;
      forall y | y in b - {pi[x]}
        ensures exists z :: z in a - {x} && pi[z] == y
      {
        var z :| z in a && pi[z] == y;
        assert z in a - {x};
      }
      RenamingCounts(pi, a - {x}, b - {pi[x]});
    }
  }

  ghost function Renamed(out: seq<Cand>, pi: map<nat, nat>): (r: seq<Cand>)
    requires Ids(out) <= pi.Keys
    ensures |r| == |out|
  {
    seq(|out|, i requires 0 <= i < |out| => assert out[i].id in Ids(out); Cand(out[i].dist, pi[out[i].id]))
  }

  lemma RenamedIsScored(out: seq<Cand>, pi: map<nat, nat>, eligA: set<nat>, dsA: seq<Score>,
                        eligB: set<nat>, dsB: seq<Score>)
    requires Renames(pi, eligA, dsA, eligB, dsB) && Scored(out, dsA) && Ids(out) <= eligA
    ensures var r := Renamed(out, pi);
            && Scored(r, dsB) && Ids(r) <= eligB
            && (forall x | x in Ids(out) :: pi[x] in Ids(r))
            && (Ascending(out) ==> Ascending(r))
  {
    var r := Renamed(out, pi);
    forall i | 0 <= i < |out|
      ensures out[i].id in eligA && r[i] == Cand(dsA[out[i].id], pi[out[i].id])
    {
      assert out[i] in out && out[i].id in Ids(out);
    }
    forall x | x in Ids(out)
      ensures pi[x] in Ids(r)
    {
      InIds(out, dsA, x);
      var j :| 0 <= j < |out| && out[j] == Cand(dsA[x], x);
      assert r[j] in r;
    }
  }

  /** Renaming the k nearest gives the k nearest. */
  lemma RenamedIsNearest(out: seq<Cand>, pi: map<nat, nat>, eligA: set<nat>, dsA: seq<Score>,
                         eligB: set<nat>, dsB: seq<Score>, k: nat)
    requires Renames(pi, eligA, dsA, eligB, dsB) && IsNearest(out, eligA, dsA, k)
    ensures IsNearest(Renamed(out, pi), eligB, dsB, k)
  {
    hide Scored, Ascending;
    var r := Renamed(out, pi);
    RenamingCounts(pi, eligA, eligB);
    RenamedIsScored(out, pi, eligA, dsA, eligB, dsB);
    forall y, c | y in eligB - Ids(r) && c in r
      ensures y < |dsB| && c.dist <= dsB[y]
    {
      var x :| x in eligA && pi[x] == y;
      var i :| 0 <= i < |r| && r[i] == c;
      assert out[i] in out && x !in Ids(out);
    }
  }

  /** Two stores with the same map: each eligible slot of one is, renamed, an eligible slot of the other. */
  lemma SlotsCorrespond(a: VectorStore, b: VectorStore, metric: Metric, q: Vector, filter: Option<Metadata -> bool>)
    returns (pi: map<nat, nat>)
    requires a.Valid() && b.Valid() && a.Contents() == b.Contents()
    ensures Renames(pi, Matching(a.live, a.meta, filter), Distances(metric, q, a.Vectors()),
                    Matching(b.live, b.meta, filter), Distances(metric, q, b.Vectors()))
  {
    hide Rows, Count, SlotMap;
    var eligA, eligB := Matching(a.live, a.meta, filter), Matching(b.live, b.meta, filter);
    forall x | x in eligA
      ensures a.extIds[x] in b.extToInt && b.extToInt[a.extIds[x]] in eligB
      ensures b.Vectors()[b.extToInt[a.extIds[x]]] == a.Vectors()[x]
    {
      SlotMoves(a, b, x);
    }
    pi := map x | x in eligA :: b.extToInt[a.extIds[x]];
    forall y | y in eligB
      ensures exists x :: x in eligA && pi[x] == y
    {
      SlotMoves(b, a, y);
      assert a.extToInt[b.extIds[y]] in eligA;
    }
  }

  lemma SlotMoves(a: VectorStore, b: VectorStore, x: nat)
    requires a.Valid() && b.Valid() && a.Contents() == b.Contents() && x < |a.extIds| && a.live[x]
    ensures a.extIds[x] in b.extToInt
    ensures var y := b.extToInt[a.extIds[x]];
            && y < |b.extIds| && b.live[y] && b.extIds[y] == a.extIds[x]
            && b.Vectors()[y] == a.Vectors()[x] && b.meta[y] == a.meta[x] && a.extToInt[b.extIds[y]] == x
  {
    hide Rows, Count, SlotMap;
    a.LiveSlot(x);
    b.EntrySlot(a.extIds[x]);
    b.LiveSlot(b.extToInt[a.extIds[x]]);
  }

  /** Exact answers over stores with the same map have the same scores. */
  lemma ScoresAgree(a: VectorStore, b: VectorStore, v: View, w: View, q: Vector, k: nat,
                    filter: Option<Metadata -> bool>, ef: nat, x: seq<Cand>, y: seq<Cand>)
    requires a.Valid() && b.Valid() && a.Contents() == b.Contents() && v.metric == w.metric
    requires v.vectors == a.Vectors() && v.live == a.live && v.meta == a.meta
    requires w.vectors == b.Vectors() && w.live == b.live && w.meta == b.meta
    requires Answer(v, q, k, filter, ef, x) && Answer(w, q, k, filter, ef, y)
    requires Exact(v, q, k, filter, ef) && Exact(w, q, k, filter, ef)
    ensures SameScores(x, y)
  {
    hide Rows, Count, SlotMap, Exact, IsNearest, Renames, Matching, Distances, SameScores;
    ghost var pi := SlotsCorrespond(a, b, v.metric, q, filter);
    ghost var dsA, dsB := Distances(v.metric, q, v.vectors), Distances(w.metric, q, w.vectors);
    ghost var eligA, eligB := Matching(v.live, v.meta, filter), Matching(w.live, w.meta, filter);
    RenamesCovers(x, pi, eligA, dsA, eligB, dsB, k);
    RenamedIsNearest(x, pi, eligA, dsA, eligB, dsB, k);
    NearestScoresUnique(Renamed(x, pi), y, eligB, dsB, k);
    RenamedScores(x, y, pi);
  }

  lemma RenamedScores(x: seq<Cand>, y: seq<Cand>, pi: map<nat, nat>)
    requires Ids(x) <= pi.Keys && SameScores(Renamed(x, pi), y)
    ensures SameScores(x, y)
  {
    assert forall i | 0 <= i < |x| :: x[i].dist == Renamed(x, pi)[i].dist;
  }

  /**
   Two engines that hold the same map, such as one before a crash and the one recovered from it,
   answer every query on which both are exact with the same scores.
   */
  method SameAnswers(a: Engine, b: Engine, q: Vector, k: nat, filter: Option<Metadata -> bool>, ef: nat)
    returns (x: Result<seq<Cand>>, y: Result<seq<Cand>>)
    requires a.Valid() && b.Valid()
    requires a.dim == b.dim && a.metric == b.metric && a.Contents() == b.Contents()
    ensures a.Valid() && b.Valid() && x.Ok? == y.Ok?
    ensures x.Ok? && Exact(a.Searchable(), q, k, filter, ef) && Exact(b.Searchable(), q, k, filter, ef) ==>
              SameScores(x.value, y.value)
  {
    hide Rows, Count, SlotMap, GoodGraph, GoodEntry, LiveIds, Answer, Exact, SameScores;
    ghost var v, w := a.Searchable(), b.Searchable();
    x := a.Search(q, k, filter, ef);
    y := b.Search(q, k, filter, ef);
    if x.Ok? && Exact(v, q, k, filter, ef) && Exact(w, q, k, filter, ef) {
      ScoresAgree(a.store, b.store, v, w, q, k, filter, ef, x.value, y.value);
    }
  }

  /** A query before and after compact() gets the same scores, although the slots are renumbered. */
  method CompactKeepsAnswers(e: Engine, q: Vector, k: nat, filter: Option<Metadata -> bool>, ef: nat)
    returns (x: Result<seq<Cand>>, y: Result<seq<Cand>>)
    requires e.Valid()
    modifies e, e.log
    ensures e.Valid() && e.Contents() == old(e.Contents())
    ensures x.Ok? == y.Ok?
    ensures x.Ok? && Exact(old(e.Searchable()), q, k, filter, ef) && Exact(e.Searchable(), q, k, filter, ef) ==>
              SameScores(x.value, y.value)
    ensures x.Ok? && e.index.Flat? ==> SameScores(x.value, y.value)
  {
    hide Rows, Count, SlotMap, GoodGraph, GoodEntry, LiveIds, Answer, SnapshotStep, WideEnough, SameScores;
    var before := e.store;
    ghost var v := e.Searchable();
    x := e.Search(q, k, filter, ef);
    e.Compact();
    ghost var w := e.Searchable();
    y := e.Search(q, k, filter, ef);
    if x.Ok? && Exact(v, q, k, filter, ef) && Exact(w, q, k, filter, ef) {
      ScoresAgree(before, e.store, v, w, q, k, filter, ef, x.value, y.value);
    }
  }

  /**
   The search has one result: no two slots are equally far from the query, or it is exact and no two
   matching ones are.
   */
  ghost predicate Determined(v: View, q: Vector, k: nat, filter: Option<Metadata -> bool>, ef: nat) {
    && |v.live| == |v.meta|
    && var ds := Distances(v.metric, q, v.vectors);
       AllApart(ds) || (Exact(v, q, k, filter, ef) && Untied(Matching(v.live, v.meta, filter), ds))
  }

  /** Two answers to one query have the same scores where the search is exact, and are equal where it is determined. */
  lemma AnswersAgree(v: View, q: Vector, k: nat, filter: Option<Metadata -> bool>, ef: nat, x: seq<Cand>, y: seq<Cand>)
    requires Answer(v, q, k, filter, ef, x) && Answer(v, q, k, filter, ef, y)
    ensures Exact(v, q, k, filter, ef) ==> SameScores(x, y)
    ensures Determined(v, q, k, filter, ef) ==> x == y
  {
    hide Exact, IsNearest, Matching, Distances, Untied, SameScores, AllApart, Found;
    var elig, ds := Matching(v.live, v.meta, filter), Distances(v.metric, q, v.vectors);
    if Exact(v, q, k, filter, ef) {
      NearestScoresUnique(x, y, elig, ds, k);
      if Untied(elig, ds) { NearestUnique(x, y, elig, ds, k); }
    }
    if AllApart(ds) {
      ApartIsUntied(Found(v, q, k, filter, ef), ds);
      NearestUnique(x, y, Found(v, q, k, filter, ef), ds, k);
    }
  }

  lemma ApartIsUntied(s: set<nat>, ds: seq<Score>)
    requires AllApart(ds)
    ensures Untied(s, ds)
  {}

  /** One search per query. */
  method SearchEach(e: Engine, queries: seq<Vector>, k: nat, filter: Option<Metadata -> bool>, ef: nat)
    returns (r: Result<seq<seq<Cand>>>)
    requires e.Valid()
    ensures r.Ok? <==> forall q | q in queries :: |q| == e.dim
    ensures e.Valid() && (r.Ok? ==> Answered(e.Searchable(), queries, k, filter, ef, r.value))
  {
    hide Rows, Count, SlotMap, GoodGraph, GoodEntry, LiveIds, Answer;
    var results: seq<seq<Cand>> := [];
    for i := 0 to |queries|
      invariant |results| == i
      invariant forall j | 0 <= j < i :: |queries[j]| == e.dim
      invariant forall j | 0 <= j < i :: Answer(e.Searchable(), queries[j], k, filter, ef, results[j])
    {
      var one := e.Search(queries[i], k, filter, ef);
      if one.Err? {
        assert queries[i] in queries;
        return Err(one.error);
      }
      results := results + [one.value];
    }
    return Ok(results);
  }

  /** Slot by slot: the same scores where the search is exact, the same results where it is determined. */
  ghost predicate SlotsAgree(v: View, queries: seq<Vector>, k: nat, filter: Option<Metadata -> bool>, ef: nat,
                             a: seq<seq<Cand>>, b: seq<seq<Cand>>) {
    && |v.live| == |v.meta| && |a| == |b| == |queries|
    && (forall i | 0 <= i < |queries| && Exact(v, queries[i], k, filter, ef) :: SameScores(a[i], b[i]))
    && (forall i | 0 <= i < |queries| && Determined(v, queries[i], k, filter, ef) :: a[i] == b[i])
  }

  lemma AnswersAgreeSlotwise(v: View, queries: seq<Vector>, k: nat, filter: Option<Metadata -> bool>, ef: nat,
                             a: seq<seq<Cand>>, b: seq<seq<Cand>>)
    requires |v.live| == |v.meta|
    requires Answered(v, queries, k, filter, ef, a) && Answered(v, queries, k, filter, ef, b)
    ensures SlotsAgree(v, queries, k, filter, ef, a, b)
  {
    hide Answer, Exact, SameScores, Determined;
    forall i | 0 <= i < |queries|
      ensures Exact(v, queries[i], k, filter, ef) ==> SameScores(a[i], b[i])
      ensures Determined(v, queries[i], k, filter, ef) ==> a[i] == b[i]
    {
      AnswersAgree(v, queries[i], k, filter, ef, a[i], b[i]);
    }
  }

  /** A search changes nothing that a search depends on. */
  twostate lemma Steady(e: Engine)
    requires old(e.Valid()) && unchanged(old(e.Parts()))
    ensures e.Valid() && e.Searchable() == old(e.Searchable())
  {
    hide Rows, Count, SlotMap, GoodGraph, GoodEntry, LiveIds;
  }

  /** search_batch beside one search per query, for every number of threads and every schedule. */
  method BatchIsSerial(e: Engine, queries: seq<Vector>, k: nat, filter: Option<Metadata -> bool>, ef: nat,
                       numThreads: nat, hardware: nat)
    returns (batch: Result<seq<seq<Cand>>>, serial: Result<seq<seq<Cand>>>)
    requires e.Valid()
    ensures batch.Ok? == serial.Ok?
    ensures e.Valid()
    ensures batch.Ok? ==> SlotsAgree(e.Searchable(), queries, k, filter, ef, batch.value, serial.value)
  {
    hide Rows, Count, SlotMap, GoodGraph, GoodEntry, LiveIds, Answer, SlotsAgree, Answered, Matching;
    hide Engine.Valid;
    ghost var v := e.Searchable();
    e.ValidSlots();
    label Before:
    batch := e.SearchBatch(queries, k, filter, ef, numThreads, hardware);
    Steady@Before(e);
    label Between:
    serial := SearchEach(e, queries, k, filter, ef);
    Steady@Between(e);
    if batch.Ok? {
      AnswersAgreeSlotwise(v, queries, k, filter, ef, batch.value, serial.value);
    }
  }

  lemma RenamesCovers(out: seq<Cand>, pi: map<nat, nat>, eligA: set<nat>, dsA: seq<Score>,
                      eligB: set<nat>, dsB: seq<Score>, k: nat)
    requires Renames(pi, eligA, dsA, eligB, dsB) && IsNearest(out, eligA, dsA, k)
    ensures Ids(out) <= pi.Keys
  {}
}
