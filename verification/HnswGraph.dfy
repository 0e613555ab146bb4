/**
 The layered graph of the HNSW index: its invariant, the descent through its layers, and what
 linking a new node does to one layer.
 */
module HnswGraph {
  import opened Types
  import opened Nearest
  import opened Graph
  import opened LayerWalk
  import opened FlatIndex

  /** links[l] are the neighbours at layer l; a slot not yet inserted has no layers. */
  datatype Node = Node(level: nat, links: seq<seq<nat>>)

  const BLANK := Node(0, [])

  ghost function LayerOf(g: seq<Node>, l: nat): (adj: Layer)
    ensures |adj| == |g|
  {
    seq(|g|, i requires 0 <= i < |g| => if l < |g[i].links| then g[i].links[l] else [])
  }

  function Cap(m: nat, l: nat): nat { if l == 0 then 2 * m else m }

  ghost predicate NoRepeats(s: seq<nat>) { forall i, j | 0 <= i < j < |s| :: s[i] != s[j] }

  /** One neighbour list: different nodes that reach this layer, none twice. */
  ghost predicate GoodList(g: seq<Node>, i: nat, l: nat, list: seq<nat>) {
    NoRepeats(list) && forall x | x in list :: x < |g| && x != i && l < |g[x].links|
  }

  /** The structure of the whole graph. */
  ghost predicate GoodGraph(g: seq<Node>, built: seq<bool>, m: nat) {
    && |built| == |g|
    && (forall i | 0 <= i < |g| :: |g[i].links| == if built[i] then g[i].level + 1 else 0)
    && (forall i, l {:trigger g[i].links[l]} | 0 <= i < |g| && 0 <= l < |g[i].links| ::
          GoodList(g, i, l, g[i].links[l]) && |g[i].links[l]| <= Cap(m, l))
  }

  /** The entry point exists once anything is built, and has the highest level. */
  ghost predicate GoodEntry(g: seq<Node>, built: seq<bool>, entry: Option<nat>, maxLevel: int)
    requires |built| == |g|
  {
    match entry
    case None => maxLevel == -1 && forall i | 0 <= i < |g| :: !built[i]
    case Some(e) =>
      && e < |g| && built[e] && g[e].level == maxLevel
      && forall i | 0 <= i < |g| && built[i] :: g[i].level <= maxLevel
  }

  lemma GraphInRange(g: seq<Node>, built: seq<bool>, m: nat, l: nat, ds: seq<Score>)
    requires GoodGraph(g, built, m) && |g| <= |ds|
    ensures InRange(LayerOf(g, l), ds)
  {
    forall x, y | 0 <= x < |g| && y in LayerOf(g, l)[x]
      ensures y < |g|
    {
      if l < |g[x].links| { assert GoodList(g, x, l, g[x].links[l]); }
    }
  }

  /** Where greedy search ends, layer by layer from `from` down to, not including, `to`. */
  ghost function Descend(g: seq<Node>, built: seq<bool>, m: nat, ds: seq<Score>, start: nat, from: int, to: nat)
    : (r: nat)
    requires GoodGraph(g, built, m) && |g| <= |ds| && start < |g|
    ensures r < |g|
    decreases from
  {
    if from <= to then start else
      GraphInRange(g, built, m, from, ds);
      Descend(g, built, m, ds, Greedy(LayerOf(g, from), ds, start), from - 1, to)
  }

  lemma DescendStep(g: seq<Node>, built: seq<bool>, m: nat, ds: seq<Score>, start: nat, from: int, to: nat)
    requires GoodGraph(g, built, m) && |g| <= |ds| && start < |g| && from > to
    ensures InRange(LayerOf(g, from), ds)
    ensures Descend(g, built, m, ds, start, from, to)
         == Descend(g, built, m, ds, Greedy(LayerOf(g, from), ds, start), from - 1, to)
  {
    hide GoodGraph, Greedy, LayerOf;
    GraphInRange(g, built, m, from, ds);
  }

  lemma DescendEnd(g: seq<Node>, built: seq<bool>, m: nat, ds: seq<Score>, start: nat, from: int, to: nat)
    requires GoodGraph(g, built, m) && |g| <= |ds| && start < |g| && from <= to
    ensures Descend(g, built, m, ds, start, from, to) == start
  {}

  /** The descent never moves away, and ends where no neighbour on the last layer it passed is closer. */
  lemma {:induction false} DescendMeans(g: seq<Node>, built: seq<bool>, m: nat, ds: seq<Score>,
                                        start: nat, from: int, to: nat)
    requires GoodGraph(g, built, m) && |g| <= |ds| && start < |g|
    ensures var r := Descend(g, built, m, ds, start, from, to);
            && ds[r] <= ds[start]
            && (from <= to ==> r == start)
            && (from > to ==> LocallyNearest(LayerOf(g, to + 1), ds, r))
    decreases if from > to then from - to else 0
  {
    hide GoodGraph, Greedy, LayerOf, Descend, LocallyNearest;
    if from > to {
      DescendStep(g, built, m, ds, start, from, to);
      GreedyMeans(LayerOf(g, from), ds, start);
      var next := Greedy(LayerOf(g, from), ds, start);
      DescendMeans(g, built, m, ds, next, from - 1, to);
      if from == to + 1 {
        DescendEnd(g, built, m, ds, next, to, to);
      }
    } else {
      DescendEnd(g, built, m, ds, start, from, to);
    }
  }

  /** The bounds on lists: 2M on layer 0 and M above. */
  lemma CapMeans(g: seq<Node>, built: seq<bool>, m: nat)
    requires GoodGraph(g, built, m)
    ensures forall i, l {:trigger g[i].links[l]} | 0 <= i < |g| && 0 <= l < |g[i].links| ::
              |g[i].links[l]| <= (if l == 0 then m + m else m)
  {}

  // ---------------------------------------------------------------- a new node

  function Blanks(n: nat): (b: seq<Node>)
    ensures |b| == n
  {
    seq(n, _ => BLANK)
  }

  /** The graph with room for id, and id there as a node of the given level without links. */
  function Planted(g: seq<Node>, id: nat, level: nat): (h: seq<Node>)
    ensures |h| == (if id < |g| then |g| else id + 1)
  {
    var grown := if id < |g| then g else g + Blanks(id + 1 - |g|);
    grown[id := Node(level, seq(level + 1, _ => []))]
  }

  function Marked(built: seq<bool>, id: nat): (b: seq<bool>)
    ensures |b| == (if id < |built| then |built| else id + 1)
  {
    (if id < |built| then built else built + seq(id + 1 - |built|, _ => false))[id := true]
  }

  /** Nobody links to id, on any layer. */
  ghost predicate Unlinked(g: seq<Node>, id: nat) {
    forall i, l {:trigger g[i].links[l]} | 0 <= i < |g| && 0 <= l < |g[i].links| :: id !in g[i].links[l]
  }

  lemma PlantedIsGood(g: seq<Node>, built: seq<bool>, m: nat, id: nat, level: nat)
    requires GoodGraph(g, built, m) && (id < |g| ==> !built[id])
    ensures GoodGraph(Planted(g, id, level), Marked(built, id), m) && Unlinked(Planted(g, id, level), id)
  {
    var h, b := Planted(g, id, level), Marked(built, id);
    forall i, l {:trigger h[i].links[l]} | 0 <= i < |h| && 0 <= l < |h[i].links|
      ensures GoodList(h, i, l, h[i].links[l]) && |h[i].links[l]| <= Cap(m, l) && id !in h[i].links[l]
    {
      if i != id {
        assert i < |g| && h[i] == g[i];
        assert GoodList(g, i, l, g[i].links[l]);
      }
    }
  }

  // ---------------------------------------------------------------- relinking one layer

  ghost function IdList(s: seq<Cand>): (r: seq<nat>)
    ensures |r| == |s|
  {
    seq(|s|, i requires 0 <= i < |s| => s[i].id)
  }

  /** h differs from g in the lists of layer l at most. */
  ghost predicate SameBut(g: seq<Node>, h: seq<Node>, l: nat) {
    && |h| == |g|
    && (forall i | 0 <= i < |g| :: h[i].level == g[i].level && |h[i].links| == |g[i].links|)
    && (forall i, k {:trigger h[i].links[k]} | 0 <= i < |g| && 0 <= k < |g[i].links| && k != l ::
          h[i].links[k] == g[i].links[k])
  }

  lemma SameButLayers(g: seq<Node>, h: seq<Node>, l: nat, k: nat)
    requires SameBut(g, h, l) && k != l
    ensures LayerOf(h, k) == LayerOf(g, k)
  {
    forall i | 0 <= i < |g|
      ensures LayerOf(h, k)[i] == LayerOf(g, k)[i]
    {
      if k < |g[i].links| { assert h[i].links[k] == g[i].links[k]; }
    }
  }

  /** What prune makes of node i's list: the list itself, or a selection of at most cap of it. */
  ghost predicate Trimmed(i: nat, list: seq<nat>, after: seq<nat>, cap: nat, vectors: seq<Vector>, metric: Metric)
    requires i < |vectors|
  {
    if |list| <= cap then after == list
    else exists kept ::
        && Selection(kept, Listed(list), Distances(metric, vectors[i], vectors), vectors, metric, cap)
        && after == IdList(kept)
  }

  /**
   How a layer changes when id is linked to ns: id lists ns, each of ns has id appended and,
   once pruned, its list trimmed; nobody else changes.
   */
  ghost predicate Relinked(adj: Layer, after: Layer, id: nat, ns: seq<nat>, pruned: set<nat>, cap: nat,
                           vectors: seq<Vector>, metric: Metric)
    requires |adj| <= |vectors|
  {
    && |after| == |adj|
    && (forall i | 0 <= i < |adj| && i != id && i !in ns :: after[i] == adj[i])
    && (forall i | 0 <= i < |adj| && i == id :: after[i] == ns)
    && (forall i | 0 <= i < |adj| && i != id && i in ns ::
          if i in pruned then Trimmed(i, adj[i] + [id], after[i], cap, vectors, metric) else after[i] == adj[i] + [id])
  }

  lemma TrimmedIsGood(i: nat, list: seq<nat>, after: seq<nat>, cap: nat, vectors: seq<Vector>, metric: Metric)
    requires i < |vectors| && Trimmed(i, list, after, cap, vectors, metric) && NoRepeats(list)
    ensures |after| <= cap && NoRepeats(after) && forall x | x in after :: x in list
  {
    if |list| > cap {
      var ds := Distances(metric, vectors[i], vectors);
      var kept: seq<Cand> :| Selection(kept, Listed(list), ds, vectors, metric, cap) && after == IdList(kept);
      forall x | x in after
        ensures x in list
      {
        var j :| 0 <= j < |after| && after[j] == x;
        assert kept[j].id in Ids(kept);
      }
    }
  }

  /**
   Pruning in terms of the metric and the vectors: a list within the cap stays; of a longer one the
   nearest is kept first, the kept are nearest first and spread out, and whatever is dropped is
   no closer than all of a full list, or closer to some kept entry than to the node.
   */
  lemma TrimmedMeans(i: nat, list: seq<nat>, after: seq<nat>, cap: nat, vectors: seq<Vector>, metric: Metric)
    requires i < |vectors| && Trimmed(i, list, after, cap, vectors, metric) && NoRepeats(list)
    requires forall x | x in list :: x < |vectors|
    ensures |list| <= cap ==> after == list
    ensures |after| <= cap && (forall x | x in after :: x in list)
    ensures |list| > cap > 0 ==>
              after != []
              && forall x | x in list :: metric(vectors[i], vectors[after[0]]) <= metric(vectors[i], vectors[x])
    ensures |list| > cap ==> forall a, b | 0 <= a < b < |after| ::
              && metric(vectors[i], vectors[after[a]]) <= metric(vectors[i], vectors[after[b]])
              && metric(vectors[i], vectors[after[b]]) <= metric(vectors[after[b]], vectors[after[a]])
    ensures |list| > cap ==> forall x | x in list && x !in after ::
              || (|after| == cap
                  && forall y | y in after :: metric(vectors[i], vectors[y]) <= metric(vectors[i], vectors[x]))
              || exists y :: y in after && metric(vectors[i], vectors[y]) <= metric(vectors[i], vectors[x])
                             && metric(vectors[x], vectors[y]) < metric(vectors[i], vectors[x])
  {
    hide Selection;
    TrimmedIsGood(i, list, after, cap, vectors, metric);
    if |list| > cap {
      var ds := Distances(metric, vectors[i], vectors);
      var kept: seq<Cand> :| Selection(kept, Listed(list), ds, vectors, metric, cap) && after == IdList(kept);
      hide Listed, IdList, Trimmed;
      if cap > 0 { SelectedFirst(kept, after, list, ds, vectors, metric, cap); }
      SelectedSpread(kept, after, Listed(list), ds, vectors, metric, cap);
      forall x | x in list && x !in after
        ensures || (|after| == cap && forall y | y in after :: ds[y] <= ds[x])
                || exists y :: y in after && ds[y] <= ds[x] && metric(vectors[x], vectors[y]) < ds[x]
      {
        SelectedReason(kept, after, list, ds, vectors, metric, cap, x);
      }
    }
  }

  lemma SelectedFirst(kept: seq<Cand>, after: seq<nat>, list: seq<nat>, ds: seq<Score>,
                      vectors: seq<Vector>, metric: Metric, cap: nat)
    requires |ds| == |vectors| && Selection(kept, Listed(list), ds, vectors, metric, cap) && after == IdList(kept)
    requires cap > 0 && list != []
    ensures after != [] && after[0] < |ds| && forall x | x in list :: x < |ds| && ds[after[0]] <= ds[x]
  {
    hide Selection;
    SelectionMeans(kept, Listed(list), ds, vectors, metric, cap);
    assert list[0] in Listed(list);
    assert forall x | x in list :: x in Listed(list);
  }

  lemma SelectedSpread(kept: seq<Cand>, after: seq<nat>, pool: set<nat>, ds: seq<Score>,
                       vectors: seq<Vector>, metric: Metric, cap: nat)
    requires |ds| == |vectors| && Selection(kept, pool, ds, vectors, metric, cap) && after == IdList(kept)
    ensures |after| <= cap && forall a | 0 <= a < |after| :: after[a] < |ds| && after[a] in pool
    ensures forall a, b | 0 <= a < b < |after| ::
              after[a] != after[b] && ds[after[a]] <= ds[after[b]] <= metric(vectors[after[b]], vectors[after[a]])
  {
    hide Selection;
    SelectionMeans(kept, pool, ds, vectors, metric, cap);
    assert forall a | 0 <= a < |after| :: after[a] == kept[a].id;
  }

  lemma SelectedReason(kept: seq<Cand>, after: seq<nat>, list: seq<nat>, ds: seq<Score>,
                       vectors: seq<Vector>, metric: Metric, cap: nat, x: nat)
    requires |ds| == |vectors| && Selection(kept, Listed(list), ds, vectors, metric, cap) && after == IdList(kept)
    requires x in list && x !in after
    ensures x < |ds| && forall y | y in after :: y < |ds|
    ensures || (|after| == cap && forall y | y in after :: ds[y] <= ds[x])
            || exists y :: y in after && ds[y] <= ds[x] && metric(vectors[x], vectors[y]) < ds[x]
  {
    hide Selection;
    SelectionMeans(kept, Listed(list), ds, vectors, metric, cap);
    KeptMeans(kept, after, ds);
    assert x in Listed(list);
    if !(|kept| == cap && forall r | r in kept :: r.dist <= ds[x]) {
      var r :| r in kept && r.id < |ds| && r.dist <= ds[x] && metric(vectors[x], vectors[r.id]) < ds[x];
      assert r.id in after;
    }
  }

  lemma KeptMeans(kept: seq<Cand>, after: seq<nat>, ds: seq<Score>)
    requires after == IdList(kept)
    requires forall a | 0 <= a < |kept| :: kept[a].id < |ds| && kept[a].dist == ds[kept[a].id]
    ensures forall r | r in kept :: r.id in after && r.id < |ds| && r.dist == ds[r.id]
    ensures forall y | y in after :: exists r :: r in kept && r.id == y && r.dist == ds[y]
  {
    forall r | r in kept
      ensures r.id in after && r.id < |ds| && r.dist == ds[r.id]
    {
      var a :| 0 <= a < |kept| && kept[a] == r;
      assert after[a] == r.id;
    }
    forall y | y in after
      ensures exists r :: r in kept && r.id == y && r.dist == ds[y]
    {
      var a :| 0 <= a < |after| && after[a] == y;
      assert kept[a] in kept;
    }
  }

  /** The nodes a new node may be linked to on layer l. */
  ghost predicate Targets(g: seq<Node>, id: nat, l: nat, ns: seq<nat>) {
    NoRepeats(ns) && forall x | x in ns :: x < |g| && x != id && l < |g[x].links|
  }

  /** Linking a node that nobody linked to, then pruning, keeps the invariant. */
  lemma RelinkedIsGood(g: seq<Node>, h: seq<Node>, built: seq<bool>, m: nat, id: nat, l: nat, ns: seq<nat>,
                       vectors: seq<Vector>, metric: Metric)
    requires GoodGraph(g, built, m) && |g| <= |vectors| && SameBut(g, h, l)
    requires id < |g| && l < |g[id].links| && Targets(g, id, l, ns) && |ns| <= m
    requires forall i | 0 <= i < |g| :: id !in LayerOf(g, l)[i]
    requires Relinked(LayerOf(g, l), LayerOf(h, l), id, ns, Listed(ns), Cap(m, l), vectors, metric)
    ensures GoodGraph(h, built, m)
  {
    forall i, k {:trigger h[i].links[k]} | 0 <= i < |h| && 0 <= k < |h[i].links|
      ensures GoodList(h, i, k, h[i].links[k]) && |h[i].links[k]| <= Cap(m, k)
    {
      assert GoodList(g, i, k, g[i].links[k]);
      if k == l {
        assert LayerOf(g, l)[i] == g[i].links[l] && LayerOf(h, l)[i] == h[i].links[l];
        if i == id {
        } else if i in ns {
          var list := g[i].links[l] + [id];
          assert NoRepeats(list);
          TrimmedIsGood(i, list, h[i].links[l], Cap(m, l), vectors, metric);
        }
      }
    }
  }

  lemma {:induction false} PathStaysOnLayer(g: seq<Node>, built: seq<bool>, m: nat, id: nat, l: nat, p: seq<nat>)
    requires GoodGraph(g, built, m) && IsPath(LayerOf(g, l), p)
    requires forall i | 0 <= i < |g| :: id !in LayerOf(g, l)[i]
    requires p[0] != id && l < |g[p[0]].links|
    ensures p[|p| - 1] < |g| && p[|p| - 1] != id && l < |g[p[|p| - 1]].links|
    decreases |p|
  {
    if |p| > 1 {
      var q, x, y := p[..|p| - 1], p[|p| - 2], p[|p| - 1];
      PathStaysOnLayer(g, built, m, id, l, q);
      assert p[|p| - 2 + 1] in LayerOf(g, l)[x];
      assert GoodList(g, x, l, g[x].links[l]);
    }
  }

  /** Candidates other than id that are on layer l. */
  ghost predicate OnLayer(g: seq<Node>, id: nat, l: int, cs: seq<Cand>) {
    forall c | c in cs :: c.id < |g| && c.id != id && l < |g[c.id].links|
  }

  /** What is on a layer is on the one below, in every graph of the same shape. */
  lemma OnLayerBelow(g: seq<Node>, h: seq<Node>, id: nat, l: int, cs: seq<Cand>)
    requires OnLayer(g, id, l, cs) && |h| == |g| && forall i | 0 <= i < |g| :: |h[i].links| == |g[i].links|
    ensures OnLayer(h, id, l, cs) && OnLayer(h, id, l - 1, cs)
  {}

  /** Whatever a layer search started away from id finds is on the layer, and is not id. */
  lemma FoundAreTargets(g: seq<Node>, built: seq<bool>, m: nat, id: nat, l: nat, ds: seq<Score>,
                        entries: seq<Cand>, admit: set<nat>, ef: nat, found: seq<Cand>, visited: set<nat>)
    requires GoodGraph(g, built, m) && InRange(LayerOf(g, l), ds)
    requires forall i | 0 <= i < |g| :: id !in LayerOf(g, l)[i]
    requires OnLayer(g, id, l, entries)
    requires Certified(LayerOf(g, l), ds, Ids(entries), admit, ef, found, visited)
    ensures OnLayer(g, id, l, found)
  {
    forall c | c in found
      ensures c.id < |g| && c.id != id && l < |g[c.id].links|
    {
      assert c.id in Ids(found);
      var p :| IsPath(LayerOf(g, l), p) && p[0] in Ids(entries) && p[|p| - 1] == c.id;
      PathStaysOnLayer(g, built, m, id, l, p);
    }
  }

  /** The descent ends on the layer it was to reach, away from a node nobody links to. */
  lemma {:induction false} DescendLevel(g: seq<Node>, built: seq<bool>, m: nat, ds: seq<Score>,
                                        start: nat, from: int, to: nat, id: nat)
    requires GoodGraph(g, built, m) && |g| <= |ds| && start < |g| && Unlinked(g, id) && start != id
    requires from < |g[start].links|
    ensures var r := Descend(g, built, m, ds, start, from, to);
            r != id && (if from <= to then from else to) < |g[r].links|
    decreases from
  {
    hide GoodGraph, Descend, Greedy, LayerOf, Unlinked;
    if from > to {
      DescendStep(g, built, m, ds, start, from, to);
      GreedyOnLayer(g, built, m, ds, start, from, id);
      DescendLevel(g, built, m, ds, Greedy(LayerOf(g, from), ds, start), from - 1, to, id);
    } else {
      DescendEnd(g, built, m, ds, start, from, to);
    }
  }

  lemma GreedyOnLayer(g: seq<Node>, built: seq<bool>, m: nat, ds: seq<Score>, start: nat, l: nat, id: nat)
    requires GoodGraph(g, built, m) && InRange(LayerOf(g, l), ds) && start < |g|
    requires Unlinked(g, id) && start != id && l < |g[start].links|
    ensures var r := Greedy(LayerOf(g, l), ds, start);
            r != id && l < |g[r].links|
  {
    hide Greedy;
    var adj := LayerOf(g, l);
    var b := Greedy(adj, ds, start);
    if b != start {
      var x :| 0 <= x < |adj| && b in adj[x];
      assert GoodList(g, x, l, g[x].links[l]);
    }
  }

  /** The list of a node that has id appended and is still to be pruned. */
  lemma AppendedList(g: seq<Node>, built: seq<bool>, m: nat, id: nat, l: nat, i: nat)
    requires GoodGraph(g, built, m) && i < |g| && l < |g[i].links| && id !in LayerOf(g, l)[i] && id < |g|
    ensures var list := LayerOf(g, l)[i] + [id];
            NoRepeats(list) && forall x | x in list :: x < |g|
  {
    assert GoodList(g, i, l, g[i].links[l]);
  }

  lemma RelinkedPrunes(adj: Layer, after: Layer, id: nat, ns: seq<nat>, pruned: set<nat>, cap: nat,
                       vectors: seq<Vector>, metric: Metric, x: nat, list: seq<nat>)
    requires |adj| <= |vectors| && Relinked(adj, after, id, ns, pruned, cap, vectors, metric)
    requires x < |adj| && x in ns && x != id && x !in pruned && Trimmed(x, after[x], list, cap, vectors, metric)
    ensures Relinked(adj, after[x := list], id, ns, pruned + {x}, cap, vectors, metric)
  {
    hide Trimmed;
  }

  lemma SameButTwice(g: seq<Node>, h: seq<Node>, k: seq<Node>, l: nat)
    requires SameBut(g, h, l) && SameBut(h, k, l)
    ensures SameBut(g, k, l)
  {}

  // ---------------------------------------------------------------- what add does

  /** One layer of an insertion: the search's entries, certificate and result, and the picks. */
  datatype Round = Round(entries: seq<Cand>, found: seq<Cand>, visited: set<nat>, picks: seq<Cand>)

  /**
   On layer l of g, the certified search from the round's entries found `found`, the heuristic
   picked from it, and h's layer is g's with id linked to the picks and their lists pruned.
   */
  ghost predicate RoundOk(g: seq<Node>, h: seq<Node>, id: nat, l: nat, r: Round, m: nat, ef: nat,
                          ds: seq<Score>, admit: set<nat>, vectors: seq<Vector>, metric: Metric)
    requires |g| <= |vectors| == |ds|
  {
    && InRange(LayerOf(g, l), ds)
    && Certified(LayerOf(g, l), ds, Ids(r.entries), admit, ef, r.found, r.visited)
    && Selection(r.picks, Ids(r.found), ds, vectors, metric, m)
    && Relinked(LayerOf(g, l), LayerOf(h, l), id, IdList(r.picks), Ids(r.picks), Cap(m, l), vectors, metric)
  }

  lemma IdListMeans(s: seq<Cand>)
    requires Distinct(s)
    ensures NoRepeats(IdList(s)) && Listed(IdList(s)) == Ids(s)
    ensures forall x | x in IdList(s) :: exists c :: c in s && c.id == x
  {
    forall x | x in IdList(s)
      ensures exists c :: c in s && c.id == x
    {
      var j :| 0 <= j < |s| && IdList(s)[j] == x;
      assert s[j] in s;
    }
    forall c | c in s
      ensures c.id in IdList(s)
    {
      var j :| 0 <= j < |s| && s[j] == c;
      assert IdList(s)[j] == c.id;
    }
  }

  /** The picks of a round are nodes the new node may be linked to. */
  lemma PicksAreTargets(g: seq<Node>, id: nat, l: nat, found: seq<Cand>, picks: seq<Cand>, ds: seq<Score>)
    requires OnLayer(g, id, l, found)
    requires Scored(picks, ds) && Scored(found, ds) && Ids(picks) <= Ids(found)
    ensures Targets(g, id, l, IdList(picks)) && Listed(IdList(picks)) == Ids(picks)
  {
    IdListMeans(picks);
    forall x | x in IdList(picks)
      ensures x < |g| && x != id && l < |g[x].links|
    {
      var c :| c in picks && c.id == x;
      assert x in Ids(picks);
      var d :| d in found && d.id == x;
    }
  }

  /** Where the search on layer k starts: at ep on the top layer, else with what the layer above found. */
  ghost function EntriesFor(rounds: map<nat, Round>, k: nat, top: nat, ep: Cand): seq<Cand> {
    if k == top || k + 1 !in rounds then [ep]
    else if rounds[k + 1].found != [] then rounds[k + 1].found else rounds[k + 1].entries
  }

  ghost predicate RoundsDownTo(rounds: map<nat, Round>, lc: int, top: nat) {
    forall k :: k in rounds <==> lc < k <= top
  }

  /** Layers top down to lc + 1 have had their round, the others are as in g. */
  ghost predicate Linked(g: seq<Node>, h: seq<Node>, id: nat, rounds: map<nat, Round>, top: nat, lc: int, ep: Cand,
                         m: nat, ef: nat, ds: seq<Score>, admit: set<nat>, vectors: seq<Vector>, metric: Metric)
    requires |g| <= |vectors| == |ds|
  {
    && |h| == |g| && (forall i | 0 <= i < |g| :: h[i].level == g[i].level && |h[i].links| == |g[i].links|)
    && RoundsDownTo(rounds, lc, top)
    && (forall k | k in rounds ::
          && RoundOk(g, h, id, k, rounds[k], m, ef, ds, admit, vectors, metric)
          && rounds[k].entries == EntriesFor(rounds, k, top, ep))
    && (forall k: nat | k !in rounds :: LayerOf(h, k) == LayerOf(g, k))
  }

  lemma RoundOkCarries(g: seq<Node>, h: seq<Node>, g': seq<Node>, h': seq<Node>, id: nat, l: nat, r: Round,
                       m: nat, ef: nat, ds: seq<Score>, admit: set<nat>, vectors: seq<Vector>, metric: Metric)
    requires |g| <= |vectors| == |ds| && |g'| <= |vectors|
    requires RoundOk(g, h, id, l, r, m, ef, ds, admit, vectors, metric)
    requires LayerOf(g', l) == LayerOf(g, l) && LayerOf(h', l) == LayerOf(h, l)
    ensures RoundOk(g', h', id, l, r, m, ef, ds, admit, vectors, metric)
  {
    hide LayerOf, InRange, Certified, Selection, Relinked;
  }

  /** One more round, for the layer below: which layers have theirs. */
  lemma KeysNext(rounds: map<nat, Round>, top: nat, lc: nat, r: Round)
    requires lc <= top && RoundsDownTo(rounds, lc, top)
    ensures RoundsDownTo(rounds[lc := r], lc - 1, top)
  {}

  /** The earlier rounds start where they did. */
  lemma EntriesNext(rounds: map<nat, Round>, top: nat, lc: nat, ep: Cand, r: Round, k: nat)
    requires RoundsDownTo(rounds, lc, top) && lc <= k <= top
    ensures EntriesFor(rounds[lc := r], k, top, ep) == EntriesFor(rounds, k, top, ep)
  {}

  lemma LayersNext(g: seq<Node>, h: seq<Node>, h': seq<Node>, lc: nat, k: nat)
    requires SameBut(h, h', lc) && k != lc && LayerOf(h, k) == LayerOf(g, k)
    ensures LayerOf(h', k) == LayerOf(g, k)
  {
    hide LayerOf;
    SameButLayers(h, h', lc, k);
  }

  lemma LinkedNext(g: seq<Node>, h: seq<Node>, h': seq<Node>, id: nat, rounds: map<nat, Round>, top: nat, lc: nat,
                   ep: Cand, r: Round, m: nat, ef: nat, ds: seq<Score>, admit: set<nat>,
                   vectors: seq<Vector>, metric: Metric)
    requires |g| <= |vectors| == |ds| && lc <= top && |h| <= |vectors|
    requires Linked(g, h, id, rounds, top, lc, ep, m, ef, ds, admit, vectors, metric)
    requires SameBut(h, h', lc) && RoundOk(h, h', id, lc, r, m, ef, ds, admit, vectors, metric)
    requires r.entries == EntriesFor(rounds, lc, top, ep)
    ensures Linked(g, h', id, rounds[lc := r], top, lc - 1, ep, m, ef, ds, admit, vectors, metric)
  {
    hide LayerOf, RoundOk, EntriesFor;
    var rounds' := rounds[lc := r];
    KeysNext(rounds, top, lc, r);
    forall k | k in rounds'
      ensures RoundOk(g, h', id, k, rounds'[k], m, ef, ds, admit, vectors, metric)
      ensures rounds'[k].entries == EntriesFor(rounds', k, top, ep)
    {
      EntriesNext(rounds, top, lc, ep, r, k);
      if k == lc {
        RoundOkCarries(h, h', g, h', id, k, r, m, ef, ds, admit, vectors, metric);
      } else {
        SameButLayers(h, h', lc, k);
        RoundOkCarries(g, h, g, h', id, k, rounds[k], m, ef, ds, admit, vectors, metric);
      }
    }
    forall k: nat | k !in rounds'
      ensures LayerOf(h', k) == LayerOf(g, k)
    {
      LayersNext(g, h, h', lc, k);
    }
  }

  lemma LinkedStart(g: seq<Node>, id: nat, top: nat, ep: Cand, m: nat, ef: nat, ds: seq<Score>, admit: set<nat>,
                    vectors: seq<Vector>, metric: Metric)
    requires |g| <= |vectors| == |ds|
    ensures Linked(g, g, id, map[], top, top, ep, m, ef, ds, admit, vectors, metric)
  {}

  lemma UnlinkedLayer(g: seq<Node>, id: nat, l: nat)
    requires Unlinked(g, id)
    ensures forall i | 0 <= i < |g| :: id !in LayerOf(g, l)[i]
  {}

  /** The state of the index that add changes. */
  datatype Shape = Shape(nodes: seq<Node>, built: seq<bool>, entry: Option<nat>, maxLevel: int)

  /**
   A search of this index is exact: layer 0 leads from where the descent ends to every eligible
   slot, and ef covers their number.  Without an entry point there must be nothing to find.
   */
  ghost predicate WideEnough(s: Shape, m: nat, ds: seq<Score>, k: nat, ef: nat, elig: set<nat>) {
    match s.entry
    case None => elig == {}
    case Some(e) =>
      && GoodGraph(s.nodes, s.built, m) && e < |s.nodes| <= |ds|
      && |elig| <= (if ef < k then k else ef)
      && var ep := Descend(s.nodes, s.built, m, ds, e, s.maxLevel, 0);
         forall x | x in elig :: Reachable(LayerOf(s.nodes, 0), {ep}, x)
  }

  /** What a search of this index finds before it is cut to k, when no two nodes are equally far. */
  ghost function FoundBy(s: Shape, m: nat, ds: seq<Score>, k: nat, ef: nat, elig: set<nat>): set<nat> {
    match s.entry
    case None => {}
    case Some(e) =>
      if GoodGraph(s.nodes, s.built, m) && e < |s.nodes| <= |ds| then
        var ep := Descend(s.nodes, s.built, m, ds, e, s.maxLevel, 0);
        GraphInRange(s.nodes, s.built, m, 0, ds);
        Reached(LayerOf(s.nodes, 0), ds, {ep}, elig, if ef < k then k else ef)
      else {}
  }

  /**
   The whole of add, for a node not yet built: plant it; if it is not the first, descend to its
   level and give every shared layer its round; it becomes the entry point if it is the first
   or the highest.
   */
  ghost predicate Inserted(s: Shape, t: Shape, id: nat, level: nat, rounds: map<nat, Round>, m: nat, ef: nat,
                           ds: seq<Score>, admit: set<nat>, vectors: seq<Vector>, metric: Metric)
  {
    var g := Planted(s.nodes, id, level);
    && t.built == Marked(s.built, id)
    && |g| <= |vectors| == |ds|
    && (if s.entry.None? || level > s.maxLevel then t.entry == Some(id) && t.maxLevel == level
        else t.entry == s.entry && t.maxLevel == s.maxLevel)
    && match s.entry
       case None => t.nodes == g
       case Some(e) =>
         && GoodGraph(g, t.built, m) && e < |g| && s.maxLevel >= 0
         && var top := if level < s.maxLevel then level else s.maxLevel;
            var ep := Descend(g, t.built, m, ds, e, s.maxLevel, level);
            Linked(g, t.nodes, id, rounds, top, -1, Cand(ds[ep], ep), m, ef, ds, admit, vectors, metric)
  }

  // ---------------------------------------------------------------- an insertion spelled out

  /** The new node's slot, level and mark, and the entry point, afterwards. */
  lemma InsertedNode(s: Shape, t: Shape, id: nat, level: nat, rounds: map<nat, Round>, m: nat, ef: nat,
                     ds: seq<Score>, admit: set<nat>, vectors: seq<Vector>, metric: Metric)
    requires Inserted(s, t, id, level, rounds, m, ef, ds, admit, vectors, metric) && |s.built| == |s.nodes|
    ensures |t.nodes| == |t.built| == (if id < |s.nodes| then |s.nodes| else id + 1)
    ensures t.nodes[id].level == level && |t.nodes[id].links| == level + 1
    ensures forall i | 0 <= i < |t.built| :: t.built[i] <==> i == id || (i < |s.built| && s.built[i])
    ensures s.entry == None || level > s.maxLevel ==> t.entry == Some(id) && t.maxLevel == level
    ensures s.entry != None && level <= s.maxLevel ==> t.entry == s.entry && t.maxLevel == s.maxLevel
  {
    hide GoodGraph, Descend, RoundOk, EntriesFor;
  }

  /** The lists of layer l: what Relinked makes of the planted graph's, or the same. */
  lemma InsertedLayer(s: Shape, t: Shape, id: nat, level: nat, rounds: map<nat, Round>, m: nat, ef: nat,
                      ds: seq<Score>, admit: set<nat>, vectors: seq<Vector>, metric: Metric, l: nat)
    requires Inserted(s, t, id, level, rounds, m, ef, ds, admit, vectors, metric)
    ensures var g := Planted(s.nodes, id, level);
            && |g| <= |vectors| == |ds|
            && (s.entry.Some? && l <= level && l <= s.maxLevel <==> s.entry.Some? && l in rounds)
            && (s.entry.Some? && l in rounds ==>
                  RoundOk(g, t.nodes, id, l, rounds[l], m, ef, ds, admit, vectors, metric))
            && (s.entry.None? || l !in rounds ==> LayerOf(t.nodes, l) == LayerOf(g, l))
  {
    hide GoodGraph, Descend, RoundOk, EntriesFor, Planted, LayerOf;
  }

  lemma PlantedLayer(g: seq<Node>, id: nat, level: nat, l: nat)
    ensures var adj := LayerOf(Planted(g, id, level), l);
            && (forall x | 0 <= x < |g| && x != id :: adj[x] == LayerOf(g, l)[x])
            && adj[id] == []
  {}

  /**
   What becomes of another node's list when id is linked to ns: it stays unless it belongs to one of ns;
   then id is appended, and a list that is now too long is thinned as TrimmedMeans says.
   */
  lemma RelinkedMeans(adj: Layer, after: Layer, id: nat, ns: seq<nat>, cap: nat, vectors: seq<Vector>,
                      metric: Metric, x: nat)
    requires |adj| <= |vectors| && Relinked(adj, after, id, ns, Listed(ns), cap, vectors, metric)
    requires x < |adj| && id < |adj| && x != id
    requires NoRepeats(adj[x] + [id]) && forall y | y in adj[x] :: y < |vectors|
    ensures |after| == |adj| && after[id] == ns
    ensures x !in ns ==> after[x] == adj[x]
    ensures x in ns && |adj[x]| < cap ==> after[x] == adj[x] + [id]
    ensures x in ns && |adj[x]| >= cap ==>
              |after[x]| <= cap && forall y | y in after[x] :: y < |vectors| && (y in adj[x] || y == id)
    ensures x in ns && |adj[x]| >= cap > 0 ==>
              after[x] != []
              && forall y | y in adj[x] || y == id ::
                   metric(vectors[x], vectors[after[x][0]]) <= metric(vectors[x], vectors[y])
    ensures x in ns && |adj[x]| >= cap ==> forall y | (y in adj[x] || y == id) && y !in after[x] ::
              || (|after[x]| == cap
                  && forall z | z in after[x] :: metric(vectors[x], vectors[z]) <= metric(vectors[x], vectors[y]))
              || exists z :: z in after[x] && metric(vectors[x], vectors[z]) <= metric(vectors[x], vectors[y])
                             && metric(vectors[y], vectors[z]) < metric(vectors[x], vectors[y])
  {
    hide Trimmed;
    var list := adj[x] + [id];
    if x in ns {
      assert x in Listed(ns);
      TrimmedMeans(x, list, after[x], cap, vectors, metric);
      assert forall y :: y in list <==> y in adj[x] || y == id;
    }
  }

  lemma PickedIds(picks: seq<Cand>, x: nat)
    ensures x in IdList(picks) <==> x in Ids(picks)
  {
    if x in Ids(picks) {
      var c :| c in picks && c.id == x;
      var j :| 0 <= j < |picks| && picks[j] == c;
      assert IdList(picks)[j] == x;
    }
    if x in IdList(picks) {
      var j :| 0 <= j < |picks| && IdList(picks)[j] == x;
      assert picks[j] in picks;
    }
  }

  /** Above the old top layer, above its level, and in an empty graph, the new node has no links. */
  lemma InsertedAlone(s: Shape, t: Shape, id: nat, level: nat, rounds: map<nat, Round>, m: nat, ef: nat,
                      ds: seq<Score>, admit: set<nat>, vectors: seq<Vector>, metric: Metric, l: nat)
    requires Inserted(s, t, id, level, rounds, m, ef, ds, admit, vectors, metric)
    requires s.entry.None? || l > level || l > s.maxLevel
    ensures id < |t.nodes| && LayerOf(t.nodes, l)[id] == []
  {
    hide LayerOf, Planted, Inserted;
    InsertedLayer(s, t, id, level, rounds, m, ef, ds, admit, vectors, metric, l);
    PlantedLayer(s.nodes, id, level, l);
    NodesFit(s, t, id, level, rounds, m, ef, ds, admit, vectors, metric);
  }

  /**
   A layer that the new node shares with the graph: a certified search with efConstruction, a selection of
   at most M from it, the new node linked to that and the lists of its neighbours pruned, to 2M on
   layer 0 and to M above.  SelectionMeans and RelinkedMeans say what this is in distances.
   */
  lemma InsertedLinks(s: Shape, t: Shape, id: nat, level: nat, rounds: map<nat, Round>, m: nat, ef: nat,
                      ds: seq<Score>, admit: set<nat>, vectors: seq<Vector>, metric: Metric, l: nat)
    returns (r: Round, adj: Layer, after: Layer)
    requires Inserted(s, t, id, level, rounds, m, ef, ds, admit, vectors, metric)
    requires s.entry.Some? && l <= level && l <= s.maxLevel
    ensures l in rounds && r == rounds[l]
    ensures adj == LayerOf(Planted(s.nodes, id, level), l) && after == LayerOf(t.nodes, l)
    ensures id < |adj| <= |vectors| == |ds| && InRange(adj, ds)
    ensures Certified(adj, ds, Ids(r.entries), admit, ef, r.found, r.visited)
    ensures Selection(r.picks, Ids(r.found), ds, vectors, metric, m)
    ensures Relinked(adj, after, id, IdList(r.picks), Listed(IdList(r.picks)), if l == 0 then m + m else m,
                     vectors, metric)
  {
    hide LayerOf, Planted, Inserted, Certified, InRange, Selection, Relinked;
    InsertedLayer(s, t, id, level, rounds, m, ef, ds, admit, vectors, metric, l);
    NodesFit(s, t, id, level, rounds, m, ef, ds, admit, vectors, metric);
    r, adj, after := rounds[l], LayerOf(Planted(s.nodes, id, level), l), LayerOf(t.nodes, l);
    forall x
      ensures x in Listed(IdList(r.picks)) <==> x in Ids(r.picks)
    {
      PickedIds(r.picks, x);
    }
    assert Listed(IdList(r.picks)) == Ids(r.picks);
  }

  lemma NodesFit(s: Shape, t: Shape, id: nat, level: nat, rounds: map<nat, Round>, m: nat, ef: nat,
                 ds: seq<Score>, admit: set<nat>, vectors: seq<Vector>, metric: Metric)
    requires Inserted(s, t, id, level, rounds, m, ef, ds, admit, vectors, metric)
    ensures id < |t.nodes| == |Planted(s.nodes, id, level)| <= |vectors| == |ds|
  {
    hide GoodGraph, Descend, RoundOk, EntriesFor;
  }

  /**
   Where the searches of an insertion start: on its top layer at the end of the descent, which is as near
   as the entry point or nearer and locally nearest on the layer above; on the layers below with all
   that the layer above found, or with its own start again if it found nothing.
   */
  lemma InsertedEntries(s: Shape, t: Shape, id: nat, level: nat, rounds: map<nat, Round>, m: nat, ef: nat,
                        ds: seq<Score>, admit: set<nat>, vectors: seq<Vector>, metric: Metric, l: nat)
    requires Inserted(s, t, id, level, rounds, m, ef, ds, admit, vectors, metric)
    requires s.entry.Some? && l <= level && l <= s.maxLevel && s.entry.value < |ds|
    ensures l in rounds
    ensures l < level && l < s.maxLevel ==>
              l + 1 in rounds && rounds[l].entries
              == if rounds[l + 1].found != [] then rounds[l + 1].found else rounds[l + 1].entries
    ensures l == level || l == s.maxLevel ==>
              |rounds[l].entries| == 1 &&
              var e := rounds[l].entries[0];
              && e.id < |ds| && e.dist == ds[e.id] <= ds[s.entry.value]
              && (level >= s.maxLevel ==> e.id == s.entry.value)
              && var adj := LayerOf(Planted(s.nodes, id, level), level + 1);
                 e.id < |adj| && (level < s.maxLevel ==> LocallyNearest(adj, ds, e.id))
  {
    hide GoodGraph, Descend, RoundOk, Planted, LayerOf, EntriesFor, Inserted;
    var g, top := Planted(s.nodes, id, level), if level < s.maxLevel then level else s.maxLevel;
    var e := InsertedRounds(s, t, id, level, rounds, m, ef, ds, admit, vectors, metric, l);
    EntriesBelow(rounds, l, top, Cand(ds[e], e));
    DescendMeans(g, t.built, m, ds, s.entry.value, s.maxLevel, level);
    var adj := LayerOf(g, level + 1);
    assert |adj| == |g| && (level < s.maxLevel ==> LocallyNearest(adj, ds, e));
    if l == level || l == s.maxLevel { assert rounds[l].entries == [Cand(ds[e], e)]; }
  }

  /** Which layers have a round, and where its search starts. */
  lemma InsertedRounds(s: Shape, t: Shape, id: nat, level: nat, rounds: map<nat, Round>, m: nat, ef: nat,
                       ds: seq<Score>, admit: set<nat>, vectors: seq<Vector>, metric: Metric, l: nat)
    returns (ep: nat)
    requires Inserted(s, t, id, level, rounds, m, ef, ds, admit, vectors, metric)
    requires s.entry.Some? && l <= level && l <= s.maxLevel
    ensures var g, top := Planted(s.nodes, id, level), if level < s.maxLevel then level else s.maxLevel;
            && GoodGraph(g, t.built, m) && s.entry.value < |g| <= |ds|
            && ep == Descend(g, t.built, m, ds, s.entry.value, s.maxLevel, level) < |g|
            && l in rounds && (l < top ==> l + 1 in rounds)
            && rounds[l].entries == EntriesFor(rounds, l, top, Cand(ds[ep], ep))
  {
    hide GoodGraph, Descend, RoundOk, Planted, LayerOf, EntriesFor;
    var top := if level < s.maxLevel then level else s.maxLevel;
    ep := Descend(Planted(s.nodes, id, level), t.built, m, ds, s.entry.value, s.maxLevel, level);
    assert RoundsDownTo(rounds, -1, top);
    assert l in rounds;
    if l < top { assert l + 1 in rounds; }
  }

  lemma EntriesBelow(rounds: map<nat, Round>, l: nat, top: nat, ep: Cand)
    requires l <= top && (l < top ==> l + 1 in rounds)
    ensures l < top ==> EntriesFor(rounds, l, top, ep)
                        == if rounds[l + 1].found != [] then rounds[l + 1].found else rounds[l + 1].entries
    ensures l == top ==> EntriesFor(rounds, l, top, ep) == [ep]
  {}
}
