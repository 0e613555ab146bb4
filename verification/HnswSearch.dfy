/** The traversals of include/toyvdb/hnsw_index.hpp, proved against module Graph. */
module HnswSearch {
  import opened Types
  import opened Nearest
  import opened Graph
  import opened LayerWalk

  // ---------------------------------------------------------------- search_layer's loop

  /**
   The loop's invariant: cand is the frontier, done the nodes already taken from it, and every
   node that was visited but not queued, or is admissible but not in res, is no closer than
   all of res.
   */
  ghost predicate Front(ds: seq<Score>, admit: set<nat>, ef: nat, visited: set<nat>,
                        cand: seq<Cand>, res: seq<Cand>, done: set<nat>) {
    && Scored(cand, ds) && Scored(res, ds)
    && Ids(cand) !! done && Ids(cand) + done <= visited
    && (forall x | x in visited :: x < |ds|)
    && Ids(res) <= (Ids(cand) + done) * admit
    && (forall x | x in visited && (x !in Ids(cand) + done || (x in admit && x !in Ids(res))) ::
          |res| >= ef && NoCloser(ds, x, res))
  }

  /** The queues as sets of ids. */
  ghost function WalkOf(cand: seq<Cand>, res: seq<Cand>, visited: set<nat>): Walk { Walk(Ids(cand), Ids(res), visited) }

  /** One newly visited neighbour: queue it and offer it, if it can improve the results. */
  method Consider(c: Cand, admitted: bool, ef: nat, cand: seq<Cand>, res: seq<Cand>,
                  ghost ds: seq<Score>, ghost admit: set<nat>, ghost visited: set<nat>, ghost done: set<nat>)
    returns (cand': seq<Cand>, res': seq<Cand>)
    requires Front(ds, admit, ef, visited, cand, res, done)
    requires c.id < |ds| && c.dist == ds[c.id] && c.id !in visited && admitted == (c.id in admit)
    ensures Front(ds, admit, ef, visited + {c.id}, cand', res', done)
    ensures |res'| <= (if |res| < ef then ef else |res|)
    ensures Within(WalkOf(cand, res, visited), |ds|)
    ensures Visits(ds, admit, ef, WalkOf(cand, res, visited), c.id, WalkOf(cand', res', visited + {c.id}))
  {
    hide Front, Scored, Bound, Ids;
    cand', res' := cand, res;
    FrontWithin(ds, admit, ef, visited, cand, res, done);
    var bound := BoundOf(res, ds);
    if |res| < ef || c.dist < bound {
      IdsPush(cand, c);
      cand' := cand + [c];
      if admitted {
        IdsPush(res, c);
        res' := res + [c];
        AddedIsScored(c, res, ds, visited);
        if |res'| > ef {
          var top, rest := PopFarthest(res', ds);
          res' := rest;
          DroppedKeepsFront(c, ef, cand, res, ds, admit, visited, done, top, rest);
          assert IsFarthestOf(top.id, Ids(res) + {c.id}, ds);
        } else {
          AddedKeepsFront(c, ef, cand, res, ds, admit, visited, done);
        }
      } else {
        QueuedKeepsFront(c, ef, cand, res, ds, admit, visited, done);
      }
    } else {
      SkippedKeepsFront(c, ef, cand, res, ds, admit, visited, done, bound);
    }
  }

  /** The distance of the worst result, or the stand-in for it. */
  method BoundOf(res: seq<Cand>, ghost ds: seq<Score>) returns (bound: Score)
    requires Scored(res, ds) && Below(Ids(res), |ds|)
    ensures bound == Bound(Ids(res), ds) && (forall c | c in res :: c.dist <= bound)
  {
    bound := SCORE_MAX;
    if res != [] {
      var top, _ := PopFarthest(res, ds);
      bound := top.dist;
      BoundIsWorst(res, ds, top);
    } else {
      assert Ids(res) == {};
    }
  }

  lemma BoundIsWorst(res: seq<Cand>, ds: seq<Score>, top: Cand)
    requires Scored(res, ds) && top in res && forall x | x in Ids(res) :: x < |ds| && ds[x] <= top.dist
    ensures (forall c | c in res :: c.dist <= top.dist) && top.dist == Bound(Ids(res), ds)
  {
    assert forall c | c in res :: c.id in Ids(res);
    assert IsFarthestOf(top.id, Ids(res), ds);
  }

  lemma FrontWithin(ds: seq<Score>, admit: set<nat>, ef: nat, visited: set<nat>,
                    cand: seq<Cand>, res: seq<Cand>, done: set<nat>)
    requires Front(ds, admit, ef, visited, cand, res, done)
    ensures Scored(cand, ds) && Scored(res, ds) && Within(WalkOf(cand, res, visited), |ds|)
    ensures |Ids(res)| == |res|
  {
    IdsCount(res);
  }

  lemma AddedIsScored(c: Cand, res: seq<Cand>, ds: seq<Score>, visited: set<nat>)
    requires Scored(res, ds) && Ids(res) <= visited && c.id !in visited && c.id < |ds| && c.dist == ds[c.id]
    ensures Scored(res + [c], ds)
  {
    IdsPush(res, c);
  }

  lemma SkippedKeepsFront(c: Cand, ef: nat, cand: seq<Cand>, res: seq<Cand>, ds: seq<Score>, admit: set<nat>,
                          visited: set<nat>, done: set<nat>, bound: Score)
    requires Front(ds, admit, ef, visited, cand, res, done) && c.id !in visited && c.id < |ds| && c.dist == ds[c.id]
    requires |res| >= ef && c.dist >= bound && forall r | r in res :: r.dist <= bound
    ensures Front(ds, admit, ef, visited + {c.id}, cand, res, done)
  {
    hide Scored;
  }

  lemma QueuedKeepsFront(c: Cand, ef: nat, cand: seq<Cand>, res: seq<Cand>, ds: seq<Score>, admit: set<nat>,
                         visited: set<nat>, done: set<nat>)
    requires Front(ds, admit, ef, visited, cand, res, done) && c.id !in visited && c.id < |ds| && c.dist == ds[c.id]
    requires c.id !in admit
    ensures Front(ds, admit, ef, visited + {c.id}, cand + [c], res, done)
  {
    AddedIsScored(c, cand, ds, visited);
    IdsPush(cand, c);
    hide Scored, Ids;
  }

  lemma AddedKeepsFront(c: Cand, ef: nat, cand: seq<Cand>, res: seq<Cand>, ds: seq<Score>, admit: set<nat>,
                        visited: set<nat>, done: set<nat>)
    requires Front(ds, admit, ef, visited, cand, res, done) && c.id !in visited && c.id < |ds| && c.dist == ds[c.id]
    requires c.id in admit && |res| < ef
    ensures Front(ds, admit, ef, visited + {c.id}, cand + [c], res + [c], done)
  {
    AddedIsScored(c, cand, ds, visited);
    AddedIsScored(c, res, ds, visited);
    IdsPush(cand, c);
    IdsPush(res, c);
    hide Scored, Ids;
  }

  lemma DroppedKeepsFront(c: Cand, ef: nat, cand: seq<Cand>, res: seq<Cand>, ds: seq<Score>, admit: set<nat>,
                          visited: set<nat>, done: set<nat>, top: Cand, rest: seq<Cand>)
    requires Front(ds, admit, ef, visited, cand, res, done) && c.id !in visited && c.id < |ds| && c.dist == ds[c.id]
    requires c.id in admit && |res| >= ef && top in res + [c]
    requires forall x | x in Ids(res + [c]) :: x < |ds| && ds[x] <= top.dist
    requires Scored(rest, ds) && Ids(rest) == Ids(res + [c]) - {top.id} && |rest| == |res|
    ensures Front(ds, admit, ef, visited + {c.id}, cand + [c], rest, done)
  {
    AddedIsScored(c, cand, ds, visited);
    AddedIsScored(c, res, ds, visited);
    IdsPush(cand, c);
    IdsPush(res, c);
    InRest(res, c, ds, top, rest);
    BoundIsWorst(res + [c], ds, top);
    hide Ids;
    forall x | x in visited + {c.id} && (x !in Ids(cand + [c]) + done || (x in admit && x !in Ids(rest)))
      ensures NoCloser(ds, x, rest)
    {
      assert forall r | r in rest :: (r in res || r == c) && r.dist <= top.dist;
      if x != top.id {
        assert x != c.id && NoCloser(ds, x, res);
        if top == c { assert c !in rest; } else { assert top in res && top.dist <= ds[x]; }
      }
    }
  }

  lemma InRest(res: seq<Cand>, c: Cand, ds: seq<Score>, top: Cand, rest: seq<Cand>)
    requires Scored(res + [c], ds) && Scored(rest, ds) && Ids(rest) == Ids(res + [c]) - {top.id}
    ensures forall r | r in rest :: r in res + [c] && r.id != top.id
  {
    forall r | r in rest
      ensures r in res + [c] && r.id != top.id
    {
      assert r.id in Ids(rest);
      InIds(res + [c], ds, r.id);
    }
  }

  /** Between two turns of the main loop: Front, and everything taken so far was gone on from. */
  ghost predicate Explored(adj: Layer, ds: seq<Score>, entries: set<nat>, admit: set<nat>, ef: nat,
                           visited: set<nat>, cand: seq<Cand>, res: seq<Cand>, done: set<nat>)
  {
    && Front(ds, admit, ef, visited, cand, res, done)
    && entries <= visited
    && (forall x | x in visited :: x < |adj| && Reachable(adj, entries, x))
    && (forall x, y | x in done && x < |adj| && y in adj[x] :: y in visited)
    && |res| <= (if ef <= |entries| then |entries| else ef)
  }

  /** The same, while the links of one node are being visited. */
  ghost predicate Half(adj: Layer, ds: seq<Score>, entries: set<nat>, admit: set<nat>, ef: nat,
                       visited: set<nat>, cand: seq<Cand>, res: seq<Cand>, done: set<nat>, current: nat)
  {
    && Front(ds, admit, ef, visited, cand, res, done)
    && entries <= visited
    && (forall x | x in visited :: x < |adj| && Reachable(adj, entries, x))
    && (forall x, y | x in done && x != current && x < |adj| && y in adj[x] :: y in visited)
    && |res| <= (if ef <= |entries| then |entries| else ef)
  }

  lemma TakenFromFront(adj: Layer, ds: seq<Score>, entries: set<nat>, admit: set<nat>, ef: nat, visited: set<nat>,
                       cand: seq<Cand>, res: seq<Cand>, done: set<nat>, c: Cand, rest: seq<Cand>)
    requires Explored(adj, ds, entries, admit, ef, visited, cand, res, done)
    requires c in cand && Scored(rest, ds) && Ids(rest) == Ids(cand) - {c.id}
    ensures Half(adj, ds, entries, admit, ef, visited, rest, res, done + {c.id}, c.id)
    ensures c.id in visited && c.id < |adj|
  {
    assert c.id in Ids(cand);
    assert Ids(rest) + (done + {c.id}) == Ids(cand) + done;
  }

  /** The start of the main loop: the entries are the frontier, the admissible ones the results. */
  lemma EntriesExplored(adj: Layer, ds: seq<Score>, entries: seq<Cand>, admit: set<nat>, ef: nat, res: seq<Cand>)
    requires |adj| <= |ds| && Scored(entries, ds) && forall e | e in entries :: e.id < |adj|
    requires Scored(res, ds) && Ids(res) == Ids(entries) * admit && |res| <= |entries|
    ensures Explored(adj, ds, Ids(entries), admit, ef, Ids(entries), entries, res, {})
  {
    EntriesReachable(adj, entries);
    IdsCount(entries);
  }

  lemma ExploredScored(adj: Layer, ds: seq<Score>, entries: set<nat>, admit: set<nat>, ef: nat,
                       visited: set<nat>, cand: seq<Cand>, res: seq<Cand>, done: set<nat>)
    requires Explored(adj, ds, entries, admit, ef, visited, cand, res, done)
    ensures Scored(cand, ds) && Scored(res, ds) && |visited| <= |adj|
    ensures Within(WalkOf(cand, res, visited), |adj|) && |Ids(res)| == |res|
  {
    IdsCount(res);
    BelowCount(visited, |adj|);
  }

  /** Going on from c to a neighbour e already visited, or newly visited and considered. */
  lemma HalfNext(adj: Layer, ds: seq<Score>, entries: set<nat>, admit: set<nat>, ef: nat,
                 visited: set<nat>, cand: seq<Cand>, res: seq<Cand>, done: set<nat>, current: nat,
                 e: nat, cand': seq<Cand>, res': seq<Cand>)
    requires Half(adj, ds, entries, admit, ef, visited, cand, res, done, current)
    requires current in visited && current < |adj| && e in adj[current] && e < |adj|
    requires Front(ds, admit, ef, visited + {e}, cand', res', done)
    requires |res'| <= (if |res| < ef then ef else |res|)
    ensures Half(adj, ds, entries, admit, ef, visited + {e}, cand', res', done, current)
  {
    hide Front;
    ReachableStep(adj, entries, current, e);
  }

  lemma HalfFront(adj: Layer, ds: seq<Score>, entries: set<nat>, admit: set<nat>, ef: nat,
                  visited: set<nat>, cand: seq<Cand>, res: seq<Cand>, done: set<nat>, current: nat)
    requires Half(adj, ds, entries, admit, ef, visited, cand, res, done, current)
    ensures Front(ds, admit, ef, visited, cand, res, done)
  {}

  lemma HalfDone(adj: Layer, ds: seq<Score>, entries: set<nat>, admit: set<nat>, ef: nat,
                 visited: set<nat>, cand: seq<Cand>, res: seq<Cand>, done: set<nat>, current: nat)
    requires Half(adj, ds, entries, admit, ef, visited, cand, res, done, current)
    requires current < |adj| && forall y | y in adj[current] :: y in visited
    ensures Explored(adj, ds, entries, admit, ef, visited, cand, res, done)
  {}

  /** Visiting the links of the node taken from the frontier is expanding it. */
  lemma ExpandsByVisits(adj: Layer, ds: seq<Score>, admit: set<nat>, ef: nat, cand: seq<Cand>, rest: seq<Cand>,
                        res: seq<Cand>, visited: set<nat>, c: Cand, t: Walk)
    requires InRange(adj, ds) && c in cand && Ids(rest) == Ids(cand) - {c.id}
    requires Within(WalkOf(cand, res, visited), |adj|) && Within(t, |adj|) && c.id < |adj|
    requires VisitsAll(ds, admit, ef, WalkOf(rest, res, visited), adj[c.id], t)
    ensures Expands(adj, ds, admit, ef, WalkOf(cand, res, visited), c.id, t)
  {
    assert c.id in Ids(cand);
    hide VisitAll, AllApart;
  }

  lemma LeadsFrom(adj: Layer, ds: seq<Score>, admit: set<nat>, ef: nat, w: Walk)
    requires InRange(adj, ds) && Within(w, |adj|)
    ensures Leads(adj, ds, admit, ef, w, Walked(adj, ds, admit, ef, w))
  {}

  lemma TopIsNearest(cand: seq<Cand>, ds: seq<Score>, c: Cand)
    requires Scored(cand, ds) && c in cand && forall x | x in Ids(cand) :: x < |ds| && c.dist <= ds[x]
    ensures IsNearestOf(c.id, Ids(cand), ds) && c.dist == ds[c.id]
  {
    assert c.id in Ids(cand);
  }

  lemma NoIds()
    ensures Ids([]) == {}
  {}

  lemma NoneScored(ds: seq<Score>)
    ensures Scored([], ds)
  {}

  lemma EntryIsNew(entries: seq<Cand>, i: nat)
    requires Distinct(entries) && i < |entries|
    ensures entries[i].id !in Ids(entries[..i])
  {}

  lemma EntriesReachable(adj: Layer, entries: seq<Cand>)
    requires forall e | e in entries :: e.id < |adj|
    ensures forall x | x in Ids(entries) :: x < |adj| && Reachable(adj, Ids(entries), x)
  {
    forall x | x in Ids(entries)
      ensures x < |adj| && Reachable(adj, Ids(entries), x)
    {
      ReachableStart(adj, Ids(entries), x);
    }
  }

  /** The loop stops early: all that is left on the frontier is farther than every result. */
  lemma FrontierCannotImprove(adj: Layer, ds: seq<Score>, entries: set<nat>, admit: set<nat>, ef: nat,
                              visited: set<nat>, cand: seq<Cand>, res: seq<Cand>, done: set<nat>, c: Cand)
    requires InRange(adj, ds) && Explored(adj, ds, entries, admit, ef, visited, cand, res, done)
    requires |res| >= ef && (forall x | x in Ids(cand) :: c.dist <= ds[x]) && forall r | r in res :: r.dist < c.dist
    ensures Certified(adj, ds, entries, admit, ef, res, visited)
  {
    forall x | x in Ids(cand)
      ensures NoCloser(ds, x, res) && x !in Ids(res)
    {
      if x in Ids(res) { InIds(res, ds, x); }
    }
  }

  /** The loop ran dry: everything queued was gone on from. */
  lemma FrontierExhausted(adj: Layer, ds: seq<Score>, entries: set<nat>, admit: set<nat>, ef: nat,
                          visited: set<nat>, res: seq<Cand>, done: set<nat>)
    requires InRange(adj, ds) && Explored(adj, ds, entries, admit, ef, visited, [], res, done)
    ensures Certified(adj, ds, entries, admit, ef, res, visited)
  {}
}
