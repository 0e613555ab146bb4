/**
 One layer of the HNSW graph, as a list of neighbours per node, and what the traversals of
 include/toyvdb/hnsw_index.hpp achieve on it.  ds[x] is the distance of node x to the query.
 */
module Graph {
  import opened Types
  import opened Nearest

  type Layer = seq<seq<nat>>

  /** Links lead to nodes of the layer, whose distances are known. */
  ghost predicate InRange(adj: Layer, ds: seq<Score>) {
    |adj| <= |ds| && forall x, y | 0 <= x < |adj| && y in adj[x] :: y < |adj|
  }

  // ---------------------------------------------------------------- reachability

  ghost predicate IsPath(adj: Layer, p: seq<nat>) {
    && p != [] && (forall i | 0 <= i < |p| :: p[i] < |adj|)
    && forall i | 0 <= i < |p| - 1 :: p[i + 1] in adj[p[i]]
  }

  ghost predicate Reachable(adj: Layer, from: set<nat>, x: nat) {
    exists p :: IsPath(adj, p) && p[0] in from && p[|p| - 1] == x
  }

  lemma ReachableStart(adj: Layer, from: set<nat>, x: nat)
    requires x in from && x < |adj|
    ensures Reachable(adj, from, x)
  {
    assert IsPath(adj, [x]);
  }

  lemma ReachableStep(adj: Layer, from: set<nat>, x: nat, y: nat)
    requires Reachable(adj, from, x) && x < |adj| && y in adj[x] && y < |adj|
    ensures Reachable(adj, from, y)
  {
    var p :| IsPath(adj, p) && p[0] in from && p[|p| - 1] == x;
    assert IsPath(adj, p + [y]);
  }

  // ---------------------------------------------------------------- greedy descent

  /** The inner loop of greedy_upper: keep whatever is strictly closer. */
  function Scan(ds: seq<Score>, best: nat, list: seq<nat>): (b: nat)
    requires best < |ds| && forall y | y in list :: y < |ds|
    ensures b < |ds| && (b == best || (b in list && ds[b] < ds[best]))
    ensures forall y | y in list :: ds[b] <= ds[y]
    decreases |list|
  {
    if list == [] then best else
      assert list[0] in list && forall y | y in list[1..] :: y in list;
      Scan(ds, if ds[list[0]] < ds[best] then list[0] else best, list[1..])
  }

  /** No neighbour of x is closer than x. */
  ghost predicate LocallyNearest(adj: Layer, ds: seq<Score>, x: nat)
    requires x < |adj| && x < |ds|
  {
    forall y | y in adj[x] :: y < |ds| && ds[x] <= ds[y]
  }

  ghost function Closer(ds: seq<Score>, d: Score): set<nat> { set i: nat | i < |ds| && ds[i] < d }

  /**
   greedy_upper: move to a closer neighbour until there is none.  It ends on every graph,
   because ever fewer nodes are closer than the current one.
   */
  ghost function Greedy(adj: Layer, ds: seq<Score>, best: nat): (r: nat)
    requires InRange(adj, ds) && best < |adj|
    ensures r < |adj| && ds[r] <= ds[best]
    ensures forall y | y in adj[r] :: ds[r] <= ds[y]
    ensures r == best || exists x | 0 <= x < |adj| :: r in adj[x]
    decreases Closer(ds, ds[best])
  {
    var b := Scan(ds, best, adj[best]);
    if b == best then best else
      assert b in Closer(ds, ds[best]) && b !in Closer(ds, ds[b]);
      Greedy(adj, ds, b)
  }

  lemma GreedyMeans(adj: Layer, ds: seq<Score>, best: nat)
    requires InRange(adj, ds) && best < |adj|
    ensures var r := Greedy(adj, ds, best); ds[r] <= ds[best] && LocallyNearest(adj, ds, r)
  {
    var r := Greedy(adj, ds, best);
    forall y | y in adj[r]
      ensures y < |ds| && ds[r] <= ds[y]
    {
    }
  }

  // ---------------------------------------------------------------- what search_layer guarantees

  /** x is no closer than anything in out. */
  ghost predicate NoCloser(ds: seq<Score>, x: nat, out: seq<Cand>)
    requires x < |ds|
  {
    forall c | c in out :: c.dist <= ds[x]
  }

  /**
   The certificate of a layer search: out are the (at least ef, if there are so many) closest
   of the admissible visited nodes, and the search went on from every visited node that is
   returned or closer than some returned one -- from every visited node, if fewer than ef
   are returned.
   */
  ghost predicate Certified(adj: Layer, ds: seq<Score>, entries: set<nat>, admit: set<nat>, ef: nat,
                            out: seq<Cand>, visited: set<nat>)
    requires InRange(adj, ds)
  {
    && Scored(out, ds) && Ids(out) <= visited * admit
    && |out| <= (if ef <= |entries| then |entries| else ef)
    && entries <= visited
    && (forall x | x in visited :: x < |adj| && Reachable(adj, entries, x))
    && (forall x | x in visited && x in admit && x !in Ids(out) :: |out| >= ef && NoCloser(ds, x, out))
    && (forall x, y | x in visited && y in adj[x] && (|out| < ef || x in Ids(out) || !NoCloser(ds, x, out)) ::
          y in visited)
  }

  /** Every link out of a returned node leads to a node that is returned, inadmissible, or no closer. */
  lemma LinksOfReturned(adj: Layer, ds: seq<Score>, entries: set<nat>, admit: set<nat>, ef: nat,
                        out: seq<Cand>, visited: set<nat>, x: nat, y: nat)
    requires InRange(adj, ds) && Certified(adj, ds, entries, admit, ef, out, visited)
    requires x in Ids(out) && y in adj[x]
    ensures y < |ds| && (y in Ids(out) || y !in admit || NoCloser(ds, y, out))
  {}

  /**
   A path from an entry, each of whose nodes before the last is closer than the worst
   returned, ends at a visited node: returned, inadmissible, or no closer.
   */
  lemma {:induction false} PathIsFollowed(adj: Layer, ds: seq<Score>, entries: set<nat>, admit: set<nat>, ef: nat,
                                          out: seq<Cand>, visited: set<nat>, p: seq<nat>)
    requires InRange(adj, ds) && Certified(adj, ds, entries, admit, ef, out, visited)
    requires IsPath(adj, p) && p[0] in entries
    requires forall i | 0 <= i < |p| - 1 :: !NoCloser(ds, p[i], out)
    ensures p[|p| - 1] in visited
    ensures p[|p| - 1] in Ids(out) || p[|p| - 1] !in admit || NoCloser(ds, p[|p| - 1], out)
    decreases |p|
  {
    if |p| > 1 {
      hide Scored, Distinct;
      var q, x := p[..|p| - 1], p[|p| - 2];
      PathIsFollowed(adj, ds, entries, admit, ef, out, visited, q);
      assert q[|q| - 1] == x && p[|p| - 2 + 1] in adj[x];
    }
  }

  /** With fewer than ef results, every admissible reachable node is returned. */
  lemma {:induction false} ShortResultIsComplete(adj: Layer, ds: seq<Score>, entries: set<nat>, admit: set<nat>,
                                                 ef: nat, out: seq<Cand>, visited: set<nat>, p: seq<nat>)
    requires InRange(adj, ds) && Certified(adj, ds, entries, admit, ef, out, visited)
    requires |out| < ef && IsPath(adj, p) && p[0] in entries
    ensures p[|p| - 1] in visited && (p[|p| - 1] in admit ==> p[|p| - 1] in Ids(out))
    decreases |p|
  {
    hide Scored, Reachable, NoCloser;
    if |p| > 1 {
      var q, x := p[..|p| - 1], p[|p| - 2];
      ShortResultIsComplete(adj, ds, entries, admit, ef, out, visited, q);
      assert q[|q| - 1] == x && p[|p| - 2 + 1] in adj[x];
    }
  }

  /** If all admissible nodes are reachable and ef covers them, the search returns them all. */
  lemma WideSearchIsExact(adj: Layer, ds: seq<Score>, entries: set<nat>, admit: set<nat>, ef: nat,
                          out: seq<Cand>, visited: set<nat>)
    requires InRange(adj, ds) && Certified(adj, ds, entries, admit, ef, out, visited)
    requires |admit| <= ef && forall x | x in admit :: Reachable(adj, entries, x)
    ensures Ids(out) == admit
  {
    IdsCount(out);
    SubsetCount(Ids(out), admit);
    if |out| < ef {
      forall x | x in admit
        ensures x in Ids(out)
      {
        var p :| IsPath(adj, p) && p[0] in entries && p[|p| - 1] == x;
        ShortResultIsComplete(adj, ds, entries, admit, ef, out, visited, p);
      }
    }
  }

  // ---------------------------------------------------------------- the neighbour heuristic

  /**
   What select_neighbors returns from a pool: at most m, nearest first, no pick closer to an
   earlier pick than to the query, and every node left out either came too late or is closer
   to a pick, no farther than itself, than to the query.
   */
  ghost predicate Selection(out: seq<Cand>, pool: set<nat>, ds: seq<Score>, vectors: seq<Vector>,
                            metric: Metric, m: nat)
    requires |ds| == |vectors|
  {
    && Scored(out, ds) && Ids(out) <= pool && Ascending(out) && |out| <= m
    && (forall i, j | 0 <= i < j < |out| :: metric(vectors[out[j].id], vectors[out[i].id]) >= out[j].dist)
    && (forall x | x in pool && x !in Ids(out) ::
          x < |ds| && ((|out| == m && NoCloser(ds, x, out)) || Shadowed(out, x, ds, vectors, metric)))
  }

  ghost predicate Shadowed(out: seq<Cand>, x: nat, ds: seq<Score>, vectors: seq<Vector>, metric: Metric)
    requires x < |ds| == |vectors|
  {
    exists c :: c in out && c.id < |ds| && c.dist <= ds[x] && metric(vectors[x], vectors[c.id]) < ds[x]
  }

  /** A selection in terms of distances alone: nearest first, spread out, and a reason for each one left out. */
  lemma SelectionMeans(out: seq<Cand>, pool: set<nat>, ds: seq<Score>, vectors: seq<Vector>, metric: Metric, m: nat)
    requires |ds| == |vectors| && Selection(out, pool, ds, vectors, metric, m)
    ensures |out| <= m
    ensures forall i | 0 <= i < |out| :: out[i].id in pool && out[i].id < |ds| && out[i].dist == ds[out[i].id]
    ensures forall i, j | 0 <= i < j < |out| ::
              out[i].id != out[j].id && out[i].dist <= out[j].dist <= metric(vectors[out[j].id], vectors[out[i].id])
    ensures m > 0 && pool != {} ==> out != [] && forall x | x in pool :: x < |ds| && out[0].dist <= ds[x]
    ensures forall x | x in pool && (forall r | r in out :: r.id != x) ::
              x < |ds| && ((|out| == m && forall r | r in out :: r.dist <= ds[x])
                           || exists r :: r in out && r.id < |ds| && r.dist <= ds[x]
                                          && metric(vectors[x], vectors[r.id]) < ds[x])
  {
    assert forall i | 0 <= i < |out| :: out[i] in out && out[i].id in Ids(out);
    if m > 0 && pool != {} { SelectionHasNearest(out, pool, ds, vectors, metric, m); }
    forall x | x in pool && (forall r | r in out :: r.id != x)
      ensures x < |ds| && ((|out| == m && NoCloser(ds, x, out)) || Shadowed(out, x, ds, vectors, metric))
    {
      assert x !in Ids(out);
    }
  }

  /** A nonempty selection starts with a nearest of the pool, and is nonempty if it may be. */
  lemma SelectionHasNearest(out: seq<Cand>, pool: set<nat>, ds: seq<Score>, vectors: seq<Vector>,
                            metric: Metric, m: nat)
    requires |ds| == |vectors| && Selection(out, pool, ds, vectors, metric, m)
    requires m > 0 && pool != {}
    ensures out != [] && forall x | x in pool :: x < |ds| && out[0].dist <= ds[x]
  {
    forall x | x in pool
      ensures out != [] && x < |ds| && out[0].dist <= ds[x]
    {
      if x in Ids(out) {
        InIds(out, ds, x);
      } else if |out| == m && NoCloser(ds, x, out) {
        assert out[0] in out;
      } else {
        var c :| c in out && c.id < |ds| && c.dist <= ds[x] && metric(vectors[x], vectors[c.id]) < ds[x];
      }
    }
    var x :| x in pool;
  }

  /** If fewer than m are kept, everything left out is closer to some pick than to the query. */
  lemma ShortSelection(out: seq<Cand>, pool: set<nat>, ds: seq<Score>, vectors: seq<Vector>,
                       metric: Metric, m: nat, x: nat)
    requires |ds| == |vectors| && Selection(out, pool, ds, vectors, metric, m)
    requires |out| < m && x in pool && x !in Ids(out)
    ensures x < |ds| && Shadowed(out, x, ds, vectors, metric)
  {}

  // The three ways in which the loop of select_neighbors deals with the next candidate.

  lemma SelectionKeeps(out: seq<Cand>, pool: set<nat>, ds: seq<Score>, vectors: seq<Vector>,
                       metric: Metric, m: nat, c: Cand)
    requires |ds| == |vectors| && Selection(out, pool, ds, vectors, metric, m) && |out| < m
    requires c.id < |ds| && c.dist == ds[c.id] && c.id !in pool
    requires forall r | r in out :: r.dist <= c.dist && metric(vectors[c.id], vectors[r.id]) >= c.dist
    ensures Selection(out + [c], pool + {c.id}, ds, vectors, metric, m)
  {
    var out' := out + [c];
    IdsPush(out, c);
    assert forall i | 0 <= i < |out| :: out[i] in out;
    forall x | x in pool + {c.id} && x !in Ids(out')
      ensures x < |ds| && Shadowed(out', x, ds, vectors, metric)
    {
      var r :| r in out && r.id < |ds| && r.dist <= ds[x] && metric(vectors[x], vectors[r.id]) < ds[x];
      assert r in out';
    }
  }

  lemma SelectionSkips(out: seq<Cand>, pool: set<nat>, ds: seq<Score>, vectors: seq<Vector>,
                       metric: Metric, m: nat, c: Cand, r: Cand)
    requires |ds| == |vectors| && Selection(out, pool, ds, vectors, metric, m)
    requires c.id < |ds| && c.dist == ds[c.id]
    requires r in out && r.dist <= c.dist && metric(vectors[c.id], vectors[r.id]) < c.dist
    ensures Selection(out, pool + {c.id}, ds, vectors, metric, m)
  {}

  lemma SelectionFull(out: seq<Cand>, pool: set<nat>, ds: seq<Score>, vectors: seq<Vector>,
                      metric: Metric, m: nat, late: set<nat>)
    requires |ds| == |vectors| && Selection(out, pool, ds, vectors, metric, m) && |out| == m
    requires forall x | x in late :: x < |ds| && NoCloser(ds, x, out)
    ensures Selection(out, pool + late, ds, vectors, metric, m)
  {}
}
