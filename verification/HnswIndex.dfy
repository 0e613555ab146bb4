/**
 The HNSW index (include/toyvdb/hnsw_index.hpp): a layered proximity graph over the slots of
 a store.  The random level of a new node is a parameter.
 */
module HnswIndex {
  import opened Types
  import opened Nearest
  import opened Graph
  import opened Visited
  import opened VectorStore
  import opened Bitset
  import opened FlatIndex
  import opened LayerWalk
  import opened HnswSearch
  import opened HnswGraph

  class HnswIndex {
    const store: VectorStore
    const metric: Metric
    const m: nat
    const efConstruction: nat
    var nodes: seq<Node>
    var built: seq<bool>
    var entry: Option<nat>
    var maxLevel: int

    /** The graph is in order; while a node is being added its level may exceed the entry's. */
    ghost predicate Sound()
      reads this, store
    {
      store.Valid() && |nodes| <= |store.extIds| && |built| == |nodes| && GoodGraph(nodes, built, m)
    }

    ghost predicate Valid()
      reads this, store
    {
      Sound() && GoodEntry(nodes, built, entry, maxLevel)
    }

    ghost function State(): Shape
      reads this
    {
      Shape(nodes, built, entry, maxLevel)
    }

    constructor (store: VectorStore, metric: Metric, m: nat, efConstruction: nat)
      requires store.Valid()
      ensures Valid() && nodes == [] && this.store == store && this.metric == metric
      ensures this.m == m && this.efConstruction == efConstruction
    {
      this.store, this.metric, this.m, this.efConstruction := store, metric, m, efConstruction;
      nodes, built, entry, maxLevel := [], [], None, -1;
    }

    ghost function May(allowed: Bitset?): Option<set<nat>>
      reads allowed
      requires allowed != null ==> allowed.Valid()
    {
      if allowed == null then None else Some(allowed.Members())
    }

    /** The live, allowed slots. */
    ghost function Admissible(allowed: Bitset?): set<nat>
      reads this, store, allowed
      requires store.Valid() && (allowed != null ==> allowed.Valid())
    {
      LiveIds(store.live, May(allowed))
    }

    ghost function DistancesTo(q: Vector): (ds: seq<Score>)
      reads this, store
      requires store.Valid()
      ensures |ds| == |store.extIds|
    {
      Distances(metric, q, store.Vectors())
    }

    lemma LayerInRange(l: nat, q: Vector)
      requires Sound()
      ensures InRange(LayerOf(nodes, l), DistancesTo(q))
    {
      GraphInRange(nodes, built, m, l, DistancesTo(q));
    }

    method DistTo(q: Vector, id: nat) returns (d: Score)
      requires store.Valid() && id < |store.extIds|
      ensures d == DistancesTo(q)[id]
    {
      var v := store.Get(id);
      d := metric(q, v);
    }

    method Admit(id: nat, allowed: Bitset?) returns (b: bool)
      requires store.Valid() && (allowed != null ==> allowed.Valid())
      ensures b == (id in Admissible(allowed))
    {
      b := store.IsLive(id);
      if b && allowed != null { b := allowed.Test(id); }
    }

    /** The first loop of search_layer: every entry is visited and queued, the admissible ones are results. */
    method Seed(q: Vector, entries: seq<Cand>, allowed: Bitset?, vis: Visited) returns (res: seq<Cand>)
      requires store.Valid() && vis.Valid() && vis.Marked() == {} && (allowed != null ==> allowed.Valid())
      requires Scored(entries, DistancesTo(q)) && forall e | e in entries :: e.id < |vis.stamp|
      modifies vis
      ensures vis.Valid() && |vis.stamp| == |old(vis.stamp)| && vis.Marked() == Ids(entries)
      ensures Scored(res, DistancesTo(q)) && Ids(res) == Ids(entries) * Admissible(allowed) && |res| <= |entries|
    {
      hide Rows, Count, LiveIds, Distinct;
      ghost var ds, admit := DistancesTo(q), Admissible(allowed);
      res := [];
      NoneScored(ds);
      for i := 0 to |entries|
        invariant vis.Valid() && |vis.stamp| == |old(vis.stamp)| && Scored(res, ds)
        invariant vis.Marked() == Ids(entries[..i]) && Ids(res) == Ids(entries[..i]) * admit && |res| <= i
      {
        var e := entries[i];
        assert e in entries && entries[..i + 1] == entries[..i] + [e];
        IdsPush(entries[..i], e);
        EntryIsNew(entries, i);
        var _ := vis.TestSet(e.id);
        var ok := Admit(e.id, allowed);
        if ok {
          IdsPush(res, e);
          res := res + [e];
        }
      }
      assert entries[..|entries|] == entries;
    }

    /** search_layer */
    method SearchLayer(q: Vector, entries: seq<Cand>, ef: nat, l: nat, allowed: Bitset?, vis: Visited)
      returns (out: seq<Cand>, ghost visited: set<nat>)
      requires Sound() && vis.Valid() && |nodes| <= |vis.stamp| && (allowed != null ==> allowed.Valid())
      requires Scored(entries, DistancesTo(q)) && forall e | e in entries :: e.id < |nodes|
      modifies vis
      ensures vis.Valid() && |vis.stamp| == |old(vis.stamp)|
      ensures InRange(LayerOf(nodes, l), DistancesTo(q))
      ensures Certified(LayerOf(nodes, l), DistancesTo(q), Ids(entries), Admissible(allowed), ef, out, visited)
      ensures Below(Ids(entries), |nodes|)
      ensures AllApart(DistancesTo(q)) ==>
                Ids(out) == Reached(LayerOf(nodes, l), DistancesTo(q), Ids(entries), Admissible(allowed), ef)
    {
      hide Rows, GoodGraph, GoodEntry, Count, Distinct, Explored, Certified, LiveIds, Reachable, Walked, AllApart;
      ghost var ds, adj, admit := DistancesTo(q), LayerOf(nodes, l), Admissible(allowed);
      LayerInRange(l, q);
      vis.Bump();
      var res := Seed(q, entries, allowed, vis);
      EntriesExplored(adj, ds, entries, admit, ef, res);
      out, visited := Traverse(q, entries, res, ef, l, allowed, vis, Ids(entries));
    }

    /** The main loop of search_layer. */
    method Traverse(q: Vector, cand0: seq<Cand>, res0: seq<Cand>, ef: nat, l: nat, allowed: Bitset?, vis: Visited,
                    ghost entries: set<nat>)
      returns (out: seq<Cand>, ghost visited: set<nat>)
      requires Sound() && vis.Valid() && |nodes| <= |vis.stamp| && (allowed != null ==> allowed.Valid())
      requires InRange(LayerOf(nodes, l), DistancesTo(q))
      requires Explored(LayerOf(nodes, l), DistancesTo(q), entries, Admissible(allowed), ef,
                        vis.Marked(), cand0, res0, {})
      modifies vis
      ensures vis.Valid() && |vis.stamp| == |old(vis.stamp)|
      ensures Certified(LayerOf(nodes, l), DistancesTo(q), entries, Admissible(allowed), ef, out, visited)
      ensures Within(WalkOf(cand0, res0, old(vis.Marked())), |LayerOf(nodes, l)|)
      ensures AllApart(DistancesTo(q)) ==>
                Ids(out) == Walked(LayerOf(nodes, l), DistancesTo(q), Admissible(allowed), ef,
                                   WalkOf(cand0, res0, old(vis.Marked())))
    {
      hide Rows, GoodGraph, GoodEntry, Count, Scored, Ids, Explored, Certified, LiveIds, Reachable, InRange;
      hide Walked, Leads, Expands, Bound, AllApart;
      ghost var ds, adj, admit := DistancesTo(q), LayerOf(nodes, l), Admissible(allowed);
      var cand, res := cand0, res0;
      ghost var done: set<nat> := {};
      visited := vis.Marked();
      ExploredScored(adj, ds, entries, admit, ef, visited, cand, res, done);
      ghost var goal := Walked(adj, ds, admit, ef, WalkOf(cand0, res0, visited));
      LeadsFrom(adj, ds, admit, ef, WalkOf(cand0, res0, visited));
      while cand != []
        invariant vis.Valid() && |vis.stamp| == |old(vis.stamp)| && visited == vis.Marked()
        invariant Explored(adj, ds, entries, admit, ef, visited, cand, res, done)
        invariant Scored(cand, ds) && Scored(res, ds) && |visited| <= |nodes| && |Ids(res)| == |res|
        invariant Within(WalkOf(cand, res, visited), |adj|)
        invariant Leads(adj, ds, admit, ef, WalkOf(cand, res, visited), goal)
        decreases |nodes| - |visited|, |cand|
      {
        var c, rest := PopNearest(cand, ds);
        var bound := BoundOf(res, ds);
        ghost var w := WalkOf(cand, res, visited);
        TopIsNearest(cand, ds, c);
        if |res| >= ef && c.dist > bound {
          FrontierCannotImprove(adj, ds, entries, admit, ef, visited, cand, res, done, c);
          LeadsHere(adj, ds, admit, ef, w, goal);
          return res, visited;
        }
        cand, res := Expand(q, c, rest, res, ef, l, allowed, vis, visited, done, entries, cand);
        SubsetCount(visited, vis.Marked());
        visited := vis.Marked();
        done := done + {c.id};
        ExploredScored(adj, ds, entries, admit, ef, visited, cand, res, done);
        LeadsOn(adj, ds, admit, ef, w, goal, c.id, WalkOf(cand, res, visited));
      }
      FrontierExhausted(adj, ds, entries, admit, ef, visited, res, done);
      NoIds();
      LeadsHere(adj, ds, admit, ef, WalkOf(cand, res, visited), goal);
      out := res;
    }

    /** One link of the node `current`. */
    method VisitLink(q: Vector, e: nat, cand: seq<Cand>, res: seq<Cand>, ef: nat, allowed: Bitset?, vis: Visited,
                     ghost adj: Layer, ghost entries: set<nat>, ghost done: set<nat>, ghost current: nat)
      returns (cand': seq<Cand>, res': seq<Cand>)
      requires store.Valid() && vis.Valid() && (allowed != null ==> allowed.Valid())
      requires |adj| <= |vis.stamp| && |adj| <= |store.extIds|
      requires current in vis.Marked() && current < |adj| && e in adj[current] && e < |adj|
      requires Half(adj, DistancesTo(q), entries, Admissible(allowed), ef, vis.Marked(), cand, res, done, current)
      modifies vis
      ensures vis.Valid() && |vis.stamp| == |old(vis.stamp)| && vis.Marked() == old(vis.Marked()) + {e}
      ensures Half(adj, DistancesTo(q), entries, Admissible(allowed), ef, vis.Marked(), cand', res', done, current)
      ensures e in old(vis.Marked()) ==> cand' == cand
      ensures VisitsAll(DistancesTo(q), Admissible(allowed), ef, WalkOf(cand, res, old(vis.Marked())), [e],
                        WalkOf(cand', res', vis.Marked()))
    {
      hide Rows, Count, Half, Front, LiveIds, VisitsAll, Visits, Within, Ids;
      ghost var ds, admit, before := DistancesTo(q), Admissible(allowed), vis.Marked();
      HalfFront(adj, ds, entries, admit, ef, before, cand, res, done, current);
      FrontWithin(ds, admit, ef, before, cand, res, done);
      var seen := vis.TestSet(e);
      if seen {
        assert vis.Marked() == before;
        VisitsOne(ds, admit, ef, WalkOf(cand, res, before), e, WalkOf(cand, res, before));
        return cand, res;
      }
      var d := DistTo(q, e);
      var ok := Admit(e, allowed);
      cand', res' := Consider(Cand(d, e), ok, ef, cand, res, ds, admit, before, done);
      FrontWithin(ds, admit, ef, before + {e}, cand', res', done);
      VisitsOne(ds, admit, ef, WalkOf(cand, res, before), e, WalkOf(cand', res', before + {e}));
      HalfNext(adj, ds, entries, admit, ef, before, cand, res, done, current, e, cand', res');
    }

    /** The body of the main loop: visit the links of c. */
    method Expand(q: Vector, c: Cand, rest: seq<Cand>, res0: seq<Cand>, ef: nat, l: nat, allowed: Bitset?, vis: Visited,
                  ghost visited0: set<nat>, ghost done: set<nat>, ghost entries: set<nat>, ghost cand0: seq<Cand>)
      returns (cand: seq<Cand>, res: seq<Cand>)
      requires Sound() && vis.Valid() && |nodes| <= |vis.stamp| && (allowed != null ==> allowed.Valid())
      requires visited0 == vis.Marked() && InRange(LayerOf(nodes, l), DistancesTo(q))
      requires Explored(LayerOf(nodes, l), DistancesTo(q), entries, Admissible(allowed), ef,
                        visited0, cand0, res0, done)
      requires c in cand0 && Scored(rest, DistancesTo(q)) && Ids(rest) == Ids(cand0) - {c.id} && |rest| < |cand0|
      modifies vis
      ensures vis.Valid() && |vis.stamp| == |old(vis.stamp)|
      ensures Explored(LayerOf(nodes, l), DistancesTo(q), entries, Admissible(allowed), ef,
                       vis.Marked(), cand, res, done + {c.id})
      ensures visited0 <= vis.Marked() && (vis.Marked() == visited0 ==> |cand| < |cand0|)
      ensures Expands(LayerOf(nodes, l), DistancesTo(q), Admissible(allowed), ef, WalkOf(cand0, res0, visited0), c.id,
                      WalkOf(cand, res, vis.Marked()))
    {
      hide Rows, GoodGraph, GoodEntry, Count, Scored, Ids, Explored, Half, Front, LiveIds, Reachable;
      hide Expands, VisitsAll;
      ghost var ds, adj, admit := DistancesTo(q), LayerOf(nodes, l), Admissible(allowed);
      ghost var done' := done + {c.id};
      TakenFromFront(adj, ds, entries, admit, ef, visited0, cand0, res0, done, c, rest);
      var list := if l < |nodes[c.id].links| then nodes[c.id].links[l] else [];
      assert list == adj[c.id];
      assert forall y | y in list :: y < |adj|;
      hide LayerOf, InRange;
      cand, res := VisitLinks(q, list, rest, res0, ef, allowed, vis, adj, entries, done', c.id);
      HalfDone(adj, ds, entries, admit, ef, vis.Marked(), cand, res, done', c.id);
      ExploredScored(adj, ds, entries, admit, ef, visited0, cand0, res0, done);
      ExploredScored(adj, ds, entries, admit, ef, vis.Marked(), cand, res, done');
      ExpandsByVisits(adj, ds, admit, ef, cand0, rest, res0, visited0, c, WalkOf(cand, res, vis.Marked()));
    }

    /** The loop over the links of the node `current`. */
    method VisitLinks(q: Vector, list: seq<nat>, cand0: seq<Cand>, res0: seq<Cand>, ef: nat, allowed: Bitset?,
                      vis: Visited, ghost adj: Layer, ghost entries: set<nat>, ghost done: set<nat>, ghost current: nat)
      returns (cand: seq<Cand>, res: seq<Cand>)
      requires store.Valid() && vis.Valid() && (allowed != null ==> allowed.Valid())
      requires |adj| <= |vis.stamp| && |adj| <= |store.extIds|
      requires current in vis.Marked() && current < |adj| && list == adj[current] && forall y | y in list :: y < |adj|
      requires Half(adj, DistancesTo(q), entries, Admissible(allowed), ef, vis.Marked(), cand0, res0, done, current)
      modifies vis
      ensures vis.Valid() && |vis.stamp| == |old(vis.stamp)| && old(vis.Marked()) <= vis.Marked()
      ensures Half(adj, DistancesTo(q), entries, Admissible(allowed), ef, vis.Marked(), cand, res, done, current)
      ensures forall y | y in list :: y in vis.Marked()
      ensures vis.Marked() == old(vis.Marked()) ==> cand == cand0
      ensures VisitsAll(DistancesTo(q), Admissible(allowed), ef, WalkOf(cand0, res0, old(vis.Marked())), list,
                        WalkOf(cand, res, vis.Marked()))
    {
      hide Rows, Count, Half, Front, LiveIds, Distances, VisitsAll, WalkOf, Within;
      cand, res := cand0, res0;
      ghost var ds, admit, w := DistancesTo(q), Admissible(allowed), WalkOf(cand0, res0, vis.Marked());
      HalfFront(adj, ds, entries, admit, ef, vis.Marked(), cand0, res0, done, current);
      FrontWithin(ds, admit, ef, vis.Marked(), cand0, res0, done);
      VisitsNothing(ds, admit, ef, w);
      for j := 0 to |list|
        invariant vis.Valid() && |vis.stamp| == |old(vis.stamp)| && old(vis.Marked()) <= vis.Marked()
        invariant vis.Marked() == old(vis.Marked()) ==> cand == cand0
        invariant Half(adj, DistancesTo(q), entries, Admissible(allowed), ef, vis.Marked(), cand, res, done, current)
        invariant forall i | 0 <= i < j :: list[i] in vis.Marked()
        invariant VisitsAll(ds, admit, ef, w, list[..j], WalkOf(cand, res, vis.Marked()))
      {
        assert list[j] in list;
        ghost var t := WalkOf(cand, res, vis.Marked());
        cand, res := VisitLink(q, list[j], cand, res, ef, allowed, vis, adj, entries, done, current);
        VisitsConcat(ds, admit, ef, w, list[..j], t, [list[j]], WalkOf(cand, res, vis.Marked()));
        assert list[..j + 1] == list[..j] + [list[j]];
      }
      assert list[..|list|] == list;
    }

    /** The inner loop of select_neighbors: is c closer to the query than to every pick? */
    method NotShadowed(c: Cand, picks: seq<Cand>, ghost ds: seq<Score>) returns (keep: bool)
      requires store.Valid() && |ds| == |store.extIds| && c.id < |ds| && forall r | r in picks :: r.id < |ds|
      ensures var vs := store.Vectors();
              keep <==> forall r | r in picks :: metric(vs[c.id], vs[r.id]) >= c.dist
    {
      hide Rows, Count;
      var v := store.Get(c.id);
      for j := 0 to |picks|
        invariant forall i | 0 <= i < j :: metric(v, store.Vectors()[picks[i].id]) >= c.dist
      {
        assert picks[j] in picks;
        var w := store.Get(picks[j].id);
        if metric(v, w) < c.dist { return false; }
      }
      return true;
    }

    /** select_neighbors, for candidates scored against any query. */
    method SelectNeighbors(cands: seq<Cand>, k: nat, ghost ds: seq<Score>) returns (result: seq<Cand>)
      requires store.Valid() && |ds| == |store.extIds| && Scored(cands, ds)
      ensures Selection(result, Ids(cands), ds, store.Vectors(), metric, k)
      ensures |result| <= k && forall r | r in result :: r in cands
      ensures forall i, j | 0 <= i < j < |result| ::
                && result[i].id < |ds| == |store.Vectors()| && result[j].id < |ds| && result[i].dist <= result[j].dist
                && result[j].dist <= metric(store.Vectors()[result[j].id], store.Vectors()[result[i].id])
      ensures k > 0 && cands != [] ==> result != [] && forall c | c in cands :: result[0].dist <= c.dist
      ensures forall c | c in cands && c !in result ::
                || (|result| == k && forall r | r in result :: r.dist <= c.dist)
                || exists r :: r in result && r.id < |ds| && c.id < |ds| && r.dist <= c.dist
                               && metric(store.Vectors()[c.id], store.Vectors()[r.id]) < c.dist
    {
      result := PickNeighbors(cands, k, ds);
      hide Selection, Rows, Count;
      SelectionMeans(result, Ids(cands), ds, store.Vectors(), metric, k);
      if cands != [] { assert cands[0].id in Ids(cands); }
      PickedCands(cands, result, ds);
    }

    /** The loop of select_neighbors over the sorted candidates. */
    method PickNeighbors(cands: seq<Cand>, k: nat, ghost ds: seq<Score>) returns (result: seq<Cand>)
      requires store.Valid() && |ds| == |store.extIds| && Scored(cands, ds)
      ensures Selection(result, Ids(cands), ds, store.Vectors(), metric, k)
    {
      hide Rows, Count, Selection;
      ghost var vectors := store.Vectors();
      var s := ToAscending(cands, ds);
      result := [];
      NothingSelected(ds, vectors, metric, k);
      for i := 0 to |s|
        invariant Selection(result, Ids(s[..i]), ds, vectors, metric, k) && |result| <= k
        invariant forall r, j | r in result && i <= j < |s| :: r.dist <= s[j].dist
        invariant forall r | r in result :: r.id < |ds|
      {
        var c := s[i];
        assert c in s;
        if |result| >= k {
          LateComers(result, s, i, ds, vectors, metric, k);
          return;
        }
        assert s[..i + 1] == s[..i] + [c];
        IdsPush(s[..i], c);
        EntryIsNew(s, i);
        var keep := NotShadowed(c, result, ds);
        if keep {
          SelectionKeeps(result, Ids(s[..i]), ds, vectors, metric, k, c);
          result := result + [c];
        } else {
          ghost var r :| r in result && metric(vectors[c.id], vectors[r.id]) < c.dist;
          SelectionSkips(result, Ids(s[..i]), ds, vectors, metric, k, c, r);
        }
      }
      assert s[..|s|] == s;
    }

    /** The inner loop of greedy_upper. */
    method ScanLinks(q: Vector, start: Cand, list: seq<nat>) returns (best: Cand)
      requires store.Valid() && start.id < |store.extIds| && start.dist == DistancesTo(q)[start.id]
      requires forall x | x in list :: x < |store.extIds|
      ensures best.id == Scan(DistancesTo(q), start.id, list)
      ensures best.id < |store.extIds| && best.dist == DistancesTo(q)[best.id]
    {
      hide Rows, Count;
      ghost var ds := DistancesTo(q);
      best := start;
      for j := 0 to |list|
        invariant best.id < |ds| && best.dist == ds[best.id]
        invariant forall x | x in list[j..] :: x in list
        invariant Scan(ds, best.id, list[j..]) == Scan(ds, start.id, list)
      {
        assert list[j] in list;
        var d := DistTo(q, list[j]);
        assert list[j..][1..] == list[j + 1..];
        if d < best.dist { best := Cand(d, list[j]); }
      }
      assert list[|list|..] == [];
    }

    /** greedy_upper */
    method GreedyUpper(q: Vector, start: Cand, l: nat) returns (best: Cand)
      requires Sound() && start.id < |nodes| && start.dist == DistancesTo(q)[start.id]
      ensures InRange(LayerOf(nodes, l), DistancesTo(q))
      ensures best.id == Greedy(LayerOf(nodes, l), DistancesTo(q), start.id)
      ensures best.id < |nodes| && best.dist == DistancesTo(q)[best.id]
    {
      hide Rows, Count, GoodGraph, GoodEntry, Distances;
      LayerInRange(l, q);
      ghost var ds, adj := DistancesTo(q), LayerOf(nodes, l);
      best := start;
      var changed := true;
      while changed
        invariant best.id < |nodes| && best.dist == ds[best.id]
        invariant Greedy(adj, ds, best.id) == Greedy(adj, ds, start.id)
        invariant !changed ==> best.id == Greedy(adj, ds, best.id)
        decreases changed, Closer(ds, best.dist)
      {
        changed := false;
        if l >= |nodes[best.id].links| { break; }
        var from := best.id;
        var list := nodes[from].links[l];
        assert list == adj[from];
        best := ScanLinks(q, best, list);
        changed := best.id != from;
        if changed { assert best.id in Closer(ds, ds[from]) && best.id !in Closer(ds, best.dist); }
      }
    }

    /** Greedy search from the top layer down to, not including, layer `to`. */
    method Zoom(q: Vector, to: nat) returns (ep: Cand)
      requires Sound() && entry.Some? && entry.value < |nodes|
      ensures ep.id == Descend(nodes, built, m, DistancesTo(q), entry.value, maxLevel, to)
      ensures ep.id < |nodes| && ep.dist == DistancesTo(q)[ep.id]
    {
      hide Rows, Count, GoodGraph, Greedy, InRange, Descend, LayerOf;
      ghost var ds := DistancesTo(q);
      var d := DistTo(q, entry.value);
      ep := Cand(d, entry.value);
      var lc := maxLevel;
      while lc > to
        invariant ep.id < |nodes| && ep.dist == ds[ep.id]
        invariant Descend(nodes, built, m, ds, ep.id, lc, to) == Descend(nodes, built, m, ds, entry.value, maxLevel, to)
      {
        DescendStep(nodes, built, m, ds, ep.id, lc, to);
        ep := GreedyUpper(q, ep, lc);
        lc := lc - 1;
      }
      DescendEnd(nodes, built, m, ds, ep.id, lc, to);
    }

    /** search: what is returned, what it is certified to be, and when it is exact. */
    method Search(q: Vector, k: nat, ef0: nat, allowed: Bitset?)
      returns (out: seq<Cand>, ghost found: seq<Cand>, ghost visited: set<nat>)
      requires Valid() && (allowed != null ==> allowed.Valid())
      ensures k == 0 || entry.None? ==> out == []
      ensures Scored(out, DistancesTo(q)) && Ids(out) <= Admissible(allowed) && Ascending(out) && |out| <= k
      ensures k > 0 && entry.Some? ==>
                var ds, adj := DistancesTo(q), LayerOf(nodes, 0);
                var ep, ef := Descend(nodes, built, m, ds, entry.value, maxLevel, 0), if ef0 < k then k else ef0;
                && InRange(adj, ds)
                && Certified(adj, ds, {ep}, Admissible(allowed), ef, found, visited)
                && IsNearest(out, Ids(found), ds, k)
                && (|Admissible(allowed)| <= k && IsNearest(out, Admissible(allowed), ds, k) ==>
                      forall x | x in Admissible(allowed) :: Reachable(adj, {ep}, x))
      ensures WideEnough(State(), m, DistancesTo(q), k, ef0, Admissible(allowed)) ==>
                IsNearest(out, Admissible(allowed), DistancesTo(q), k)
      ensures entry.Some? ==>
                var ep := Descend(nodes, built, m, DistancesTo(q), entry.value, maxLevel, 0);
                |Admissible(allowed)| <= (if ef0 < k then k else ef0)
                && (forall x | x in Admissible(allowed) :: Reachable(LayerOf(nodes, 0), {ep}, x)) ==>
                  IsNearest(out, Admissible(allowed), DistancesTo(q), k)
      ensures AllApart(DistancesTo(q)) ==>
                IsNearest(out, FoundBy(State(), m, DistancesTo(q), k, ef0, Admissible(allowed)), DistancesTo(q), k)
    {
      hide Rows, Count, GoodGraph, LiveIds, Descend, LayerOf, InRange, Reachable, Certified, IsNearest;
      hide Scored, Ids, Ascending, Reached, AllApart;
      found, visited := [], {};
      ghost var ds, adj, admit := DistancesTo(q), LayerOf(nodes, 0), Admissible(allowed);
      if k == 0 || entry == None {
        EmptyAnswer(State(), m, ds, k, ef0, admit);
        return [], found, visited;
      }
      var vis := new Visited();
      vis.Ensure(|nodes|);
      var ep := Zoom(q, 0);
      var ef := if ef0 < k then k else ef0;
      OneEntry(ep, ds);
      var w;
      w, visited := SearchLayer(q, [ep], ef, 0, allowed, vis);
      found := w;
      CertifiedScored(adj, ds, {ep.id}, admit, ef, w, visited);
      var s := ToAscending(w, ds);
      TakeNearest(s, ds, k);
      out := s[..if k <= |s| then k else |s|];
      ExactWhenReachable(adj, ds, {ep.id}, admit, ef, w, visited, out, k);
    }

    /** connect */
    method Connect(a: nat, b: nat, l: nat)
      requires a < |nodes| && b < |nodes| && a != b && l < |nodes[a].links| && l < |nodes[b].links|
      modifies this`nodes
      ensures SameBut(old(nodes), nodes, l)
      ensures LayerOf(nodes, l) == LayerOf(old(nodes), l)[a := LayerOf(old(nodes), l)[a] + [b]]
                                                         [b := LayerOf(old(nodes), l)[b] + [a]]
    {
      nodes := nodes[a := nodes[a].(links := nodes[a].links[l := nodes[a].links[l] + [b]])];
      nodes := nodes[b := nodes[b].(links := nodes[b].links[l := nodes[b].links[l] + [a]])];
    }

    /** The connecting loop of add. */
    method ConnectAll(id: nat, l: nat, ns: seq<nat>)
      requires Sound() && id < |nodes| && l < |nodes[id].links| && Targets(nodes, id, l, ns)
      requires LayerOf(nodes, l)[id] == []
      modifies this`nodes
      ensures SameBut(old(nodes), nodes, l)
      ensures Relinked(LayerOf(old(nodes), l), LayerOf(nodes, l), id, ns, {}, Cap(m, l), store.Vectors(), metric)
    {
      hide Rows, Count, GoodGraph, LayerOf, Trimmed;
      ghost var adj := LayerOf(nodes, l);
      for j := 0 to |ns|
        invariant SameBut(old(nodes), nodes, l)
        invariant Relinked(adj, LayerOf(nodes, l), id, ns[..j], {}, Cap(m, l), store.Vectors(), metric)
      {
        assert ns[j] in ns;
        assert ns[..j + 1] == ns[..j] + [ns[j]];
        Connect(id, ns[j], l);
      }
      assert ns[..|ns|] == ns;
    }

    /** prune: `before` and `after` are the node's list on the layer. */
    method Prune(id: nat, l: nat, cap: nat) returns (ghost before: seq<nat>, ghost after: seq<nat>)
      requires store.Valid() && |nodes| <= |store.extIds| && id < |nodes| && l < |nodes[id].links|
      requires NoRepeats(nodes[id].links[l]) && forall x | x in nodes[id].links[l] :: x < |nodes|
      modifies this`nodes
      ensures SameBut(old(nodes), nodes, l) && store.Valid() && id < |store.Vectors()|
      ensures before == LayerOf(old(nodes), l)[id] && LayerOf(nodes, l) == LayerOf(old(nodes), l)[id := after]
      ensures Trimmed(id, before, after, cap, store.Vectors(), metric)
      ensures |before| <= cap ==> after == before
      ensures |after| <= cap && forall x | x in after || x in before :: x in before && x < |store.Vectors()|
      ensures |before| > cap > 0 ==>
                var vs := store.Vectors();
                after != [] && forall x | x in before :: metric(vs[id], vs[after[0]]) <= metric(vs[id], vs[x])
      ensures |before| > cap ==>
                var vs := store.Vectors();
                forall x | x in before && x !in after ::
                  || (|after| == cap && forall y | y in after :: metric(vs[id], vs[y]) <= metric(vs[id], vs[x]))
                  || exists y :: y in after && metric(vs[id], vs[y]) <= metric(vs[id], vs[x])
                                 && metric(vs[x], vs[y]) < metric(vs[id], vs[x])
    {
      hide Rows, Count, Selection;
      var list := nodes[id].links[l];
      before := list;
      assert LayerOf(nodes, l)[id] == list;
      if |list| <= cap {
        after := list;
        assert LayerOf(nodes, l) == LayerOf(nodes, l)[id := list];
        return;
      }
      var ids := Thin(id, list, cap);
      nodes := nodes[id := nodes[id].(links := nodes[id].links[l := ids])];
      after := ids;
      hide Trimmed;
      assert LayerOf(nodes, l) == LayerOf(old(nodes), l)[id := ids];
      TrimmedMeans(id, list, ids, cap, store.Vectors(), metric);
    }

    /** What prune makes of a list that is too long: score it against its node, and select from it. */
    method Thin(id: nat, list: seq<nat>, cap: nat) returns (ids: seq<nat>)
      requires store.Valid() && id < |store.extIds| && |list| > cap
      requires NoRepeats(list) && forall x | x in list :: x < |store.extIds|
      ensures store.Valid() && id < |store.Vectors()| && Trimmed(id, list, ids, cap, store.Vectors(), metric)
    {
      hide Rows, Count, Selection;
      var v := store.Get(id);
      var cc := ScoreAll(v, list);
      var kept := SelectNeighbors(cc, cap, DistancesTo(v));
      ids := seq(|kept|, i requires 0 <= i < |kept| => kept[i].id);
      assert ids == IdList(kept);
    }

    method ScoreAll(v: Vector, list: seq<nat>) returns (cc: seq<Cand>)
      requires store.Valid() && NoRepeats(list) && forall x | x in list :: x < |store.extIds|
      ensures Scored(cc, DistancesTo(v)) && Ids(cc) == Listed(list)
    {
      hide Rows, Count;
      cc := [];
      for i := 0 to |list|
        invariant Scored(cc, DistancesTo(v)) && Ids(cc) == Listed(list[..i])
      {
        assert list[i] in list && list[..i + 1] == list[..i] + [list[i]];
        var d := DistTo(v, list[i]);
        IdsPush(cc, Cand(d, list[i]));
        cc := cc + [Cand(d, list[i])];
      }
      assert list[..|list|] == list;
    }

    /** The pruning loop of add; g is the graph before the round. */
    method PruneAll(id: nat, l: nat, ns: seq<nat>, ghost g: seq<Node>)
      requires store.Valid() && |nodes| <= |store.extIds| && GoodGraph(g, built, m) && SameBut(g, nodes, l)
      requires id < |g| && Targets(g, id, l, ns) && forall i | 0 <= i < |g| :: id !in LayerOf(g, l)[i]
      requires Relinked(LayerOf(g, l), LayerOf(nodes, l), id, ns, {}, Cap(m, l), store.Vectors(), metric)
      modifies this`nodes
      ensures SameBut(g, nodes, l)
      ensures Relinked(LayerOf(g, l), LayerOf(nodes, l), id, ns, Listed(ns), Cap(m, l), store.Vectors(), metric)
    {
      hide Rows, Count, GoodGraph, Trimmed;
      ghost var adj := LayerOf(g, l);
      for j := 0 to |ns|
        invariant SameBut(g, nodes, l)
        invariant Relinked(adj, LayerOf(nodes, l), id, ns, Listed(ns[..j]), Cap(m, l), store.Vectors(), metric)
      {
        var x := ns[j];
        assert x in ns && x !in Listed(ns[..j]);
        assert ns[..j + 1] == ns[..j] + [x];
        assert Listed(ns[..j + 1]) == Listed(ns[..j]) + {x};
        AppendedList(g, built, m, id, l, x);
        assert nodes[x].links[l] == LayerOf(nodes, l)[x] == adj[x] + [id];
        ghost var before := nodes;
        ghost var _, list := Prune(x, l, Cap(m, l));
        SameButTwice(g, before, nodes, l);
        RelinkedPrunes(adj, LayerOf(before, l), id, ns, Listed(ns[..j]), Cap(m, l), store.Vectors(), metric, x, list);
      }
      assert ns[..|ns|] == ns;
    }

    /** One turn of add's layer loop. */
    method LinkLayer(q: Vector, id: nat, l: nat, entries: seq<Cand>, vis: Visited)
      returns (w: seq<Cand>, ghost r: Round)
      requires Sound() && vis.Valid() && |nodes| <= |vis.stamp|
      requires id < |nodes| && l < |nodes[id].links| && LayerOf(nodes, l)[id] == []
      requires forall i | 0 <= i < |nodes| :: id !in LayerOf(nodes, l)[i]
      requires Scored(entries, DistancesTo(q))
      requires OnLayer(nodes, id, l, entries)
      modifies this`nodes, vis
      ensures Sound() && vis.Valid() && |vis.stamp| == |old(vis.stamp)|
      ensures SameBut(old(nodes), nodes, l) && r.entries == entries && r.found == w
      ensures RoundOk(old(nodes), nodes, id, l, r, m, efConstruction, DistancesTo(q), Admissible(null),
                      store.Vectors(), metric)
      ensures Scored(w, DistancesTo(q))
      ensures OnLayer(nodes, id, l, w)
    {
      hide Rows, Count, GoodGraph, GoodEntry, Certified, LiveIds, Relinked, LayerOf, InRange;
      ghost var g, ds := nodes, DistancesTo(q);
      ghost var visited;
      w, visited := SearchLayer(q, entries, efConstruction, l, null, vis);
      CertifiedScored(LayerOf(nodes, l), ds, Ids(entries), Admissible(null), efConstruction, w, visited);
      FoundAreTargets(nodes, built, m, id, l, ds, entries, Admissible(null), efConstruction, w, visited);
      var picks := SelectNeighbors(w, m, ds);
      var ns := seq(|picks|, i requires 0 <= i < |picks| => picks[i].id);
      assert ns == IdList(picks);
      PicksAreTargets(nodes, id, l, w, picks, ds);
      ConnectAll(id, l, ns);
      PruneAll(id, l, ns, g);
      RelinkedIsGood(g, nodes, built, m, id, l, ns, store.Vectors(), metric);
      r := Round(entries, w, visited, picks);
    }

    /** add's layer loop, from the top layer that the new node shares with the graph down to 0. */
    method LinkLayers(q: Vector, id: nat, top: nat, ep: Cand) returns (ghost rounds: map<nat, Round>)
      requires Sound() && id < |nodes| && top < |nodes[id].links|
      requires Unlinked(nodes, id) && forall l | 0 <= l < |nodes[id].links| :: nodes[id].links[l] == []
      requires ep.id < |nodes| && ep.dist == DistancesTo(q)[ep.id] && ep.id != id && top < |nodes[ep.id].links|
      modifies this`nodes
      ensures Sound()
      ensures Linked(old(nodes), nodes, id, rounds, top, -1, ep, m, efConstruction, DistancesTo(q),
                     Admissible(null), store.Vectors(), metric)
    {
      hide Rows, Count, GoodGraph, GoodEntry, LiveIds, LayerOf, RoundOk, EntriesFor, Linked, SameBut, Unlinked;
      OneOnLayer(nodes, id, top, ep);
      hide OnLayer;
      ghost var g, ds, admit := nodes, DistancesTo(q), Admissible(null);
      ghost var vectors := store.Vectors();
      var vis := new Visited();
      vis.Ensure(|nodes|);
      var entries := [ep];
      rounds := map[];
      LinkedStart(g, id, top, ep, m, efConstruction, ds, admit, vectors, metric);
      FirstEntries(top, ep);
      var lc: int := top;
      while lc >= 0
        invariant -1 <= lc <= top && Sound() && vis.Valid() && |nodes| <= |vis.stamp|
        invariant Linked(g, nodes, id, rounds, top, lc, ep, m, efConstruction, ds, admit, vectors, metric)
        invariant Scored(entries, ds)
        invariant |nodes| == |g| && forall i | 0 <= i < |g| :: |nodes[i].links| == |g[i].links|
        invariant OnLayer(g, id, lc, entries)
        invariant lc >= 0 ==> entries == EntriesFor(rounds, lc, top, ep)
      {
        UnlinkedLayer(g, id, lc);
        NewNodeLayer(g, id, lc);
        ghost var h := nodes;
        LinkedFacts(g, h, id, rounds, top, lc, ep, m, efConstruction, ds, admit, vectors, metric);
        OnLayerBelow(g, h, id, lc, entries);
        var w;
        ghost var r;
        w, r := LinkLayer(q, id, lc, entries, vis);
        LinkedNext(g, h, nodes, id, rounds, top, lc, ep, r, m, efConstruction, ds, admit, vectors, metric);
        rounds := rounds[lc := r];
        LinkedFacts(g, nodes, id, rounds, top, lc - 1, ep, m, efConstruction, ds, admit, vectors, metric);
        OnLayerBelow(g, g, id, lc, entries);
        OnLayerBelow(nodes, g, id, lc, w);
        if lc > 0 { NextEntries(rounds, lc - 1, top, ep); }
        if w != [] { entries := w; }
        lc := lc - 1;
      }
    }

    /** The part of add after the node is planted: descend to its level, then link layer by layer. */
    method Join(q: Vector, id: nat, level: nat) returns (ghost rounds: map<nat, Round>)
      requires Sound() && id < |nodes| && |nodes[id].links| == level + 1
      requires Unlinked(nodes, id) && forall l | 0 <= l < |nodes[id].links| :: nodes[id].links[l] == []
      requires entry.Some? && entry.value < |nodes| && entry.value != id
      requires 0 <= maxLevel < |nodes[entry.value].links|
      modifies this`nodes
      ensures Sound()
      ensures var ds := DistancesTo(q);
              var top := if level < maxLevel then level else maxLevel;
              var ep := Descend(old(nodes), built, m, ds, entry.value, maxLevel, level);
              Linked(old(nodes), nodes, id, rounds, top, -1, Cand(ds[ep], ep), m, efConstruction, ds,
                     Admissible(null), store.Vectors(), metric)
    {
      hide Rows, Count, GoodGraph, LiveIds, Linked, Descend, Unlinked, Distances;
      var ep := Zoom(q, level);
      DescendLevel(nodes, built, m, DistancesTo(q), entry.value, maxLevel, level, id);
      rounds := LinkLayers(q, id, if level < maxLevel then level else maxLevel, ep);
    }

    /** add: nothing for a node already built, else the insertion that `rounds` records. */
    method Add(id: nat, level: nat) returns (ghost rounds: map<nat, Round>)
      requires Valid() && id < |store.extIds|
      modifies this
      ensures Valid()
      ensures id < |old(built)| && old(built)[id] ==> unchanged(this)
      ensures !(id < |old(built)| && old(built)[id]) ==>
                Inserted(old(State()), State(), id, level, rounds, m, efConstruction,
                         DistancesTo(store.Vectors()[id]), Admissible(null), store.Vectors(), metric)
      ensures forall i, l {:trigger nodes[i].links[l]} | 0 <= i < |nodes| && 0 <= l < |nodes[i].links| ::
                |nodes[i].links[l]| <= if l == 0 then m + m else m
    {
      hide Rows, Count, GoodGraph, GoodEntry, LiveIds, Inserted, Distances;
      rounds := AddNode(id, level);
      CapMeans(nodes, built, m);
    }

    /** The body of add. */
    method AddNode(id: nat, level: nat) returns (ghost rounds: map<nat, Round>)
      requires Valid() && id < |store.extIds|
      modifies this
      ensures Valid()
      ensures id < |old(built)| && old(built)[id] ==> unchanged(this)
      ensures !(id < |old(built)| && old(built)[id]) ==>
                Inserted(old(State()), State(), id, level, rounds, m, efConstruction,
                         DistancesTo(store.Vectors()[id]), Admissible(null), store.Vectors(), metric)
    {
      hide Rows, Count, GoodGraph, GoodEntry, LiveIds, Linked, Descend, Planted, Marked, Unlinked, Distances;
      rounds := map[];
      ghost var was := State();
      if id < |built| && built[id] { return; }
      var q := store.Get(id);
      PlantedIsGood(nodes, built, m, id, level);
      PlantedEntry(nodes, built, entry, maxLevel, m, id, level);
      nodes, built := Planted(nodes, id, level), Marked(built, id);
      if entry == None {
        entry, maxLevel := Some(id), level;
        NewEntryIsGood(was.nodes, was.built, was.entry, was.maxLevel, m, id, level, nodes);
        return;
      }
      ghost var g := nodes;
      rounds := Join(q, id, level);
      ghost var ds := DistancesTo(q);
      ghost var ep := Descend(g, built, m, ds, entry.value, maxLevel, level);
      LinkedFacts(g, nodes, id, rounds, if level < maxLevel then level else maxLevel, -1, Cand(ds[ep], ep), m,
                  efConstruction, ds, Admissible(null), store.Vectors(), metric);
      NewEntryIsGood(was.nodes, was.built, was.entry, was.maxLevel, m, id, level, nodes);
      if level > maxLevel {
        maxLevel := level;
        entry := Some(id);
      }
    }
  }

  lemma FirstEntries(top: nat, ep: Cand)
    ensures EntriesFor(map[], top, top, ep) == [ep] && Ids([ep]) == {ep.id}
  {}

  lemma OneOnLayer(g: seq<Node>, id: nat, l: nat, ep: Cand)
    requires ep.id < |g| && ep.id != id && l < |g[ep.id].links|
    ensures OnLayer(g, id, l, [ep])
  {}

  lemma NextEntries(rounds: map<nat, Round>, k: nat, top: nat, ep: Cand)
    requires k < top && k + 1 in rounds
    ensures EntriesFor(rounds, k, top, ep)
         == if rounds[k + 1].found != [] then rounds[k + 1].found else rounds[k + 1].entries
  {}

  lemma NewNodeLayer(g: seq<Node>, id: nat, l: nat)
    requires id < |g| && forall k | 0 <= k < |g[id].links| :: g[id].links[k] == []
    ensures LayerOf(g, l)[id] == []
  {}

  /** The entry point of the graph before is still what it was in the planted graph. */
  lemma PlantedEntry(g: seq<Node>, built: seq<bool>, entry: Option<nat>, maxLevel: int, m: nat, id: nat, level: nat)
    requires GoodGraph(g, built, m) && GoodEntry(g, built, entry, maxLevel) && (id < |g| ==> !built[id])
    ensures var h, b := Planted(g, id, level), Marked(built, id);
            && h[id].level == level && |h[id].links| == level + 1 && b[id]
            && (forall l | 0 <= l < |h[id].links| :: h[id].links[l] == [])
            && (forall i | 0 <= i < |h| && b[i] && i != id :: i < |g| && built[i] && h[i] == g[i])
            && (entry.Some? ==> maxLevel >= 0 && entry.value < |h| && entry.value != id && b[entry.value]
                                && h[entry.value] == g[entry.value] && maxLevel < |h[entry.value].links|)
  {}

  lemma LinkedFacts(g: seq<Node>, h: seq<Node>, id: nat, rounds: map<nat, Round>, top: nat, lc: int, ep: Cand,
                    m: nat, ef: nat, ds: seq<Score>, admit: set<nat>, vectors: seq<Vector>, metric: Metric)
    requires |g| <= |vectors| == |ds|
    requires Linked(g, h, id, rounds, top, lc, ep, m, ef, ds, admit, vectors, metric)
    ensures |h| == |g| && forall i | 0 <= i < |g| :: h[i].level == g[i].level && |h[i].links| == |g[i].links|
    ensures lc >= 0 ==> LayerOf(h, lc) == LayerOf(g, lc)
  {
    hide RoundOk, LayerOf;
  }

  /** Adding a node of level `level` and making the highest node the entry point keeps GoodEntry. */
  lemma NewEntryIsGood(g: seq<Node>, built: seq<bool>, entry: Option<nat>, maxLevel: int, m: nat, id: nat, level: nat,
                       h: seq<Node>)
    requires GoodGraph(g, built, m) && GoodEntry(g, built, entry, maxLevel) && (id < |g| ==> !built[id])
    requires var p := Planted(g, id, level);
             |h| == |p| && forall i | 0 <= i < |p| :: h[i].level == p[i].level
    ensures if entry.None? || level > maxLevel then GoodEntry(h, Marked(built, id), Some(id), level)
            else GoodEntry(h, Marked(built, id), entry, maxLevel)
  {
    hide GoodGraph, Planted, Marked;
    PlantedEntry(g, built, entry, maxLevel, m, id, level);
  }

  lemma CertifiedScored(adj: Layer, ds: seq<Score>, entries: set<nat>, admit: set<nat>, ef: nat,
                        out: seq<Cand>, visited: set<nat>)
    requires InRange(adj, ds) && Certified(adj, ds, entries, admit, ef, out, visited)
    ensures Scored(out, ds) && Ids(out) <= admit
  {}

  /** Picks among the ids of the candidates are candidates. */
  lemma PickedCands(cands: seq<Cand>, result: seq<Cand>, ds: seq<Score>)
    requires Scored(cands, ds)
    requires forall i | 0 <= i < |result| ::
               result[i].id in Ids(cands) && result[i].id < |ds| && result[i].dist == ds[result[i].id]
    ensures forall r | r in result :: r in cands
    ensures forall c | c in cands :: c.id in Ids(cands) && c.id < |ds| && c.dist == ds[c.id]
    ensures forall c | c in cands && c !in result :: forall r | r in result :: r.id != c.id
  {
    forall r | r in result
      ensures r in cands && r.id < |ds| && r.dist == ds[r.id]
    {
      var i :| 0 <= i < |result| && result[i] == r;
      InIds(cands, ds, r.id);
    }
  }

  lemma NothingSelected(ds: seq<Score>, vectors: seq<Vector>, metric: Metric, m: nat)
    requires |ds| == |vectors|
    ensures Selection([], Ids([]), ds, vectors, metric, m)
  {}

  /** When m are picked, the rest of the ascending list is no closer than any of them. */
  lemma LateComers(out: seq<Cand>, s: seq<Cand>, i: nat, ds: seq<Score>, vectors: seq<Vector>,
                   metric: Metric, m: nat)
    requires |ds| == |vectors| && Scored(s, ds) && i <= |s|
    requires Selection(out, Ids(s[..i]), ds, vectors, metric, m) && |out| == m
    requires forall r, j | r in out && i <= j < |s| :: r.dist <= s[j].dist
    ensures Selection(out, Ids(s), ds, vectors, metric, m)
  {
    forall x | x in Ids(s[i..])
      ensures x < |ds| && NoCloser(ds, x, out)
    {
      var c :| c in s[i..] && c.id == x;
      var j :| i <= j < |s| && s[j] == c;
    }
    SelectionFull(out, Ids(s[..i]), ds, vectors, metric, m, Ids(s[i..]));
    assert s == s[..i] + s[i..];
    assert Ids(s) == Ids(s[..i]) + Ids(s[i..]);
  }

  /** The live slots that an allowed-set, if there is one, lets through. */
  ghost function LiveIds(live: seq<bool>, may: Option<set<nat>>): set<nat> {
    set x: nat | x < |live| && live[x] && (may.Some? ==> x in may.value)
  }

  lemma OneEntry(ep: Cand, ds: seq<Score>)
    ensures Ids([ep]) == {ep.id} && (ep.id < |ds| && ep.dist == ds[ep.id] ==> Scored([ep], ds))
  {}

  lemma EmptyAnswer(s: Shape, m: nat, ds: seq<Score>, k: nat, ef: nat, admit: set<nat>)
    ensures Scored([], ds) && Ids([]) <= admit && Ascending([])
    ensures k == 0 || (s.entry.None? && WideEnough(s, m, ds, k, ef, admit)) ==> IsNearest([], admit, ds, k)
    ensures k == 0 || s.entry.None? ==> IsNearest([], FoundBy(s, m, ds, k, ef, admit), ds, k)
  {
    hide Reached, Descend, GoodGraph;
  }

  /** Cutting a certified result to k: exact if all is reachable and ef covers it, and only then if k covers it. */
  lemma ExactWhenReachable(adj: Layer, ds: seq<Score>, entries: set<nat>, admit: set<nat>, ef: nat,
                           found: seq<Cand>, visited: set<nat>, out: seq<Cand>, k: nat)
    requires InRange(adj, ds) && Certified(adj, ds, entries, admit, ef, found, visited)
    requires IsNearest(out, Ids(found), ds, k)
    ensures Scored(out, ds) && Ids(out) <= admit && Ascending(out) && |out| <= k
    ensures |admit| <= ef && (forall x | x in admit :: Reachable(adj, entries, x)) ==> IsNearest(out, admit, ds, k)
    ensures |admit| <= k && IsNearest(out, admit, ds, k) ==> forall x | x in admit :: Reachable(adj, entries, x)
  {
    hide InRange, Reachable, NoCloser;
    if |admit| <= ef && forall x | x in admit :: Reachable(adj, entries, x) {
      WideSearchIsExact(adj, ds, entries, admit, ef, found, visited);
    }
    if |admit| <= k && IsNearest(out, admit, ds, k) {
      IdsCount(out);
      SubsetCount(Ids(out), admit);
    }
  }

  // ---------------------------------------------------------------- the two indexes compared

  /**
   The exact index is the oracle of the approximate one: when the flat list covers the live
   slots and the graph is wide enough for those that are allowed, both searches return the same
   ascending list of scores.
   */
  method SearchBoth(flat: FlatIndex, hnsw: HnswIndex, q: Vector, k: nat, ef: nat, allowed: Bitset?)
    returns (exact: seq<Cand>, approx: seq<Cand>)
    requires flat.Valid() && hnsw.Valid() && flat.store == hnsw.store && flat.metric == hnsw.metric
    requires allowed != null ==> allowed.Valid()
    requires forall x | x in LiveIds(hnsw.store.live, None) :: x in flat.ids
    ensures |approx| <= k && |exact| <= k
    ensures WideEnough(hnsw.State(), hnsw.m, hnsw.DistancesTo(q), k, ef, hnsw.Admissible(allowed)) ==>
              SameScores(exact, approx)
  {
    hide Rows, Count, GoodGraph, GoodEntry, Descend, LayerOf, Reachable, Certified, IsNearest;
    exact := flat.Search(q, k, allowed);
    ghost var found, visited;
    approx, found, visited := hnsw.Search(q, k, ef, allowed);
    ghost var ds, admit := hnsw.DistancesTo(q), hnsw.Admissible(allowed);
    assert Eligible(Listed(flat.ids), hnsw.store.live, hnsw.May(allowed)) == admit;
    NearestLength(exact, admit, ds, k);
    if IsNearest(approx, admit, ds, k) {
      NearestScoresUnique(exact, approx, admit, ds, k);
    }
  }

  lemma NearestLength(out: seq<Cand>, elig: set<nat>, ds: seq<Score>, k: nat)
    requires IsNearest(out, elig, ds, k)
    ensures |out| <= k
  {}

  // ---------------------------------------------------------------- completeness is not automatic

  lemma FirstHop(adj: Layer, p: seq<nat>)
    requires IsPath(adj, p)
    ensures |p| == 1 || p[1] in adj[p[0]]
  {
    if |p| > 1 { assert p[0 + 1] in adj[p[0]]; }
  }

  lemma OnlyItself(adj: Layer, x: nat, y: nat)
    requires x < |adj| && adj[x] == [] && Reachable(adj, {x}, y)
    ensures y == x
  {
    var p :| IsPath(adj, p) && p[0] in {x} && p[|p| - 1] == y;
    FirstHop(adj, p);
  }

  /** A store and index in which one id was inserted and erased again. */
  method InsertErase(metric: Metric, m: nat, efConstruction: nat) returns (store: VectorStore, index: HnswIndex)
    ensures fresh(store) && fresh(index) && index.Valid() && index.store == store && index.State() == LONELY
    ensures index.metric == metric && index.m == m && index.efConstruction == efConstruction
    ensures store.dim == 1 && store.extIds == [[97]] && store.live == [false]
  {
    hide Rows, GoodGraph, Inserted, Distances, SlotMap, Count, LiveIds;
    store := new VectorStore(1);
    index := new HnswIndex(store, metric, m, efConstruction);
    var _ := store.Insert([97], [0], map[]);
    ghost var r0 := index.Add(0, 0);
    FirstNode(index.State(), r0, m, efConstruction, index.DistancesTo(store.Vectors()[0]), index.Admissible(null),
              store.Vectors(), metric);
    var _ := store.Erase([97]);
  }

  /**
   Insert, erase, insert: the second node finds nobody live to link to, stays without links,
   and a search that enters at the first, dead node returns nothing.
   */
  method IsolatedLiveNode(metric: Metric, m: nat, efConstruction: nat, ef: nat) returns (out: seq<Cand>, size: nat)
    ensures out == [] && size == 1
  {
    hide Rows, GoodGraph, Inserted, Certified, Descend, Distances, SlotMap, Count, IsNearest, LayerOf, InRange;
    var store, index := InsertErase(metric, m, efConstruction);
    var _ := store.Insert([98], [0], map[]);
    assert store.live == [false, true];
    ghost var r1 := index.Add(1, 0);
    ghost var admit := index.Admissible(null);
    assert 0 !in admit;
    SecondNode(LONELY, index.State(), r1, m, efConstruction, index.DistancesTo(store.Vectors()[1]), admit,
               store.Vectors(), metric);
    CountOne();
    size := store.liveCount;
    out := SearchFromDeadEnd(index, ef);
  }

  method SearchFromDeadEnd(index: HnswIndex, ef: nat) returns (out: seq<Cand>)
    requires index.Valid() && index.entry == Some(0) && index.maxLevel == 0
    requires LayerOf(index.nodes, 0)[0] == [] && 0 !in index.Admissible(null)
    ensures out == []
  {
    hide Rows, GoodGraph, Certified, Distances, Count, IsNearest, LayerOf, InRange, LiveIds;
    ghost var found, visited;
    out, found, visited := index.Search([0], 1, ef, null);
    ghost var ds, admit := index.DistancesTo([0]), index.Admissible(null);
    NothingFound(LayerOf(index.nodes, 0), ds, admit, if ef < 1 then 1 else ef, found, visited);
    NoneOfNone(out, found, ds, 1);
  }

  lemma NoneOfNone(out: seq<Cand>, found: seq<Cand>, ds: seq<Score>, k: nat)
    requires found == [] && IsNearest(out, Ids(found), ds, k)
    ensures out == []
  {}

  lemma CountOne()
    ensures Count([false, true]) == 1
  {
    assert [false, true][1..] == [true];
  }

  const LONELY := Shape([Node(0, [[]])], [true], Some(0), 0)

  lemma FirstNode(t: Shape, rounds: map<nat, Round>, m: nat, ef: nat, ds: seq<Score>, admit: set<nat>,
                  vectors: seq<Vector>, metric: Metric)
    requires Inserted(Shape([], [], None, -1), t, 0, 0, rounds, m, ef, ds, admit, vectors, metric)
    ensures t == LONELY
  {
    hide Linked, GoodGraph, Descend;
    var n := Planted([], 0, 0)[0];
    assert n.links == [[]];
    assert Planted([], 0, 0) == [n];
  }

  /** Beside a dead first node, the second gets no links and the entry point stays where it is. */
  lemma SecondNode(s: Shape, t: Shape, rounds: map<nat, Round>, m: nat, ef: nat, ds: seq<Score>, admit: set<nat>,
                   vectors: seq<Vector>, metric: Metric)
    requires s == LONELY && 0 !in admit
    requires Inserted(s, t, 1, 0, rounds, m, ef, ds, admit, vectors, metric)
    ensures LayerOf(t.nodes, 0) == [[], []] && t.entry == Some(0) && t.maxLevel == 0
  {
    hide GoodGraph, Certified, Selection, Descend;
    var g := Planted(s.nodes, 1, 0);
    assert LayerOf(g, 0) == [[], []];
    DescendEnd(g, t.built, m, ds, 0, 0, 0);
    var r := rounds[0];
    assert r.entries[0].id == 0 && Ids(r.entries) == {0};
    NothingFound(LayerOf(g, 0), ds, admit, ef, r.found, r.visited);
    NothingPicked(r.picks, r.found, ds, vectors, metric, m);
  }

  lemma NothingPicked(out: seq<Cand>, found: seq<Cand>, ds: seq<Score>, vectors: seq<Vector>, metric: Metric, m: nat)
    requires |ds| == |vectors| && found == [] && Selection(out, Ids(found), ds, vectors, metric, m)
    ensures out == []
  {
    IdsCount(out);
    SubsetCount(Ids(out), Ids(found));
  }

  lemma NothingFound(adj: Layer, ds: seq<Score>, admit: set<nat>, ef: nat, found: seq<Cand>, visited: set<nat>)
    requires InRange(adj, ds) && |adj| > 0 && adj[0] == [] && 0 !in admit
    requires Certified(adj, ds, {0}, admit, ef, found, visited)
    ensures found == []
  {
    IdsCount(found);
    forall x | x in Ids(found)
      ensures false
    {
      OnlyItself(adj, 0, x);
    }
    SubsetCount(Ids(found), {});
  }
}
