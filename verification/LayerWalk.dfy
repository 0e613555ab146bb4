/**
 search_layer as a function of its inputs.  When no two nodes are equally far from the query, the
 queues of include/toyvdb/hnsw_index.hpp leave nothing open, and the walk over the graph is
 determined step by step; the code in module HnswIndex is proved to take it.
 */
module LayerWalk {
  import opened Types
  import opened Nearest
  import opened Graph

  /** The numeric_limits<Score>::max() that stands in for "no result yet". */
  const SCORE_MAX: Score := 340282346638528859811704183484516925440.0

  /** The frontier, the results and the visited nodes, as sets of ids. */
  datatype Walk = Walk(cand: set<nat>, res: set<nat>, visited: set<nat>)

  ghost predicate Below(s: set<nat>, n: nat) { forall x | x in s :: x < n }

  ghost predicate Within(w: Walk, n: nat) { Below(w.visited, n) && w.cand <= w.visited && w.res <= w.visited }

  // ---------------------------------------------------------------- the tops of the queues

  ghost predicate IsNearestOf(x: nat, s: set<nat>, ds: seq<Score>)
    requires Below(s, |ds|)
  {
    x in s && forall y | y in s :: ds[x] <= ds[y]
  }

  ghost predicate IsFarthestOf(x: nat, s: set<nat>, ds: seq<Score>)
    requires Below(s, |ds|)
  {
    x in s && forall y | y in s :: ds[y] <= ds[x]
  }

  lemma {:induction false} NearestExists(s: set<nat>, ds: seq<Score>) returns (x: nat)
    requires s != {} && Below(s, |ds|)
    ensures IsNearestOf(x, s, ds)
    decreases s
  {
    var any :| any in s;
    x := any;
    var rest := s - {any};
    if rest != {} {
      var y := NearestExists(rest, ds);
      if ds[y] < ds[any] { x := y; }
    }
    assert s == rest + {any};
  }

  lemma {:induction false} FarthestExists(s: set<nat>, ds: seq<Score>) returns (x: nat)
    requires s != {} && Below(s, |ds|)
    ensures IsFarthestOf(x, s, ds)
    decreases s
  {
    var any :| any in s;
    x := any;
    var rest := s - {any};
    if rest != {} {
      var y := FarthestExists(rest, ds);
      if ds[y] > ds[any] { x := y; }
    }
    assert s == rest + {any};
  }

  ghost function NearestOf(s: set<nat>, ds: seq<Score>): (x: nat)
    requires s != {} && Below(s, |ds|)
    ensures IsNearestOf(x, s, ds)
  {
    assert exists x :: IsNearestOf(x, s, ds) by { var _ := NearestExists(s, ds); }
    var x :| IsNearestOf(x, s, ds);
    x
  }

  ghost function FarthestOf(s: set<nat>, ds: seq<Score>): (x: nat)
    requires s != {} && Below(s, |ds|)
    ensures IsFarthestOf(x, s, ds)
  {
    assert exists x :: IsFarthestOf(x, s, ds) by { var _ := FarthestExists(s, ds); }
    var x :| IsFarthestOf(x, s, ds);
    x
  }

  /** The distance of the worst result. */
  ghost function Bound(res: set<nat>, ds: seq<Score>): Score
    requires Below(res, |ds|)
  {
    if res == {} then SCORE_MAX else ds[FarthestOf(res, ds)]
  }

  /** No two nodes are equally far. */
  ghost predicate AllApart(ds: seq<Score>) {
    forall x, y | 0 <= x < |ds| && 0 <= y < |ds| && ds[x] == ds[y] :: x == y
  }

  // ---------------------------------------------------------------- one neighbour

  /** What the inner loop may do with a neighbour not yet visited: ties leave open which result is dropped. */
  ghost predicate Visits(ds: seq<Score>, admit: set<nat>, ef: nat, w: Walk, e: nat, t: Walk)
    requires Within(w, |ds|) && e < |ds|
  {
    && t.visited == w.visited + {e}
    && if |w.res| < ef || ds[e] < Bound(w.res, ds) then
         && t.cand == w.cand + {e}
         && (if e !in admit then t.res == w.res
             else if |w.res| < ef then t.res == w.res + {e}
             else exists f :: IsFarthestOf(f, w.res + {e}, ds) && t.res == w.res + {e} - {f})
       else t.cand == w.cand && t.res == w.res
  }

  /** The same as a function. */
  ghost function Visit(ds: seq<Score>, admit: set<nat>, ef: nat, w: Walk, e: nat): (t: Walk)
    requires Within(w, |ds|) && e < |ds|
    ensures Within(t, |ds|) && t.visited == w.visited + {e}
    ensures t.visited == w.visited ==> t.cand == w.cand
  {
    if e in w.visited then assert w.visited + {e} == w.visited; w
    else if |w.res| < ef || ds[e] < Bound(w.res, ds) then
      Walk(w.cand + {e},
           if e !in admit then w.res
           else if |w.res| < ef then w.res + {e}
           else w.res + {e} - {FarthestOf(w.res + {e}, ds)},
           w.visited + {e})
    else Walk(w.cand, w.res, w.visited + {e})
  }

  lemma VisitIsDetermined(ds: seq<Score>, admit: set<nat>, ef: nat, w: Walk, e: nat, t: Walk)
    requires Within(w, |ds|) && e < |ds| && e !in w.visited && AllApart(ds)
    requires Visits(ds, admit, ef, w, e, t)
    ensures t == Visit(ds, admit, ef, w, e)
  {
    hide Bound;
  }

  // ---------------------------------------------------------------- one node, and the whole walk

  ghost function VisitAll(ds: seq<Score>, admit: set<nat>, ef: nat, w: Walk, list: seq<nat>): (t: Walk)
    requires Within(w, |ds|) && forall y | y in list :: y < |ds|
    ensures Within(t, |ds|) && w.visited <= t.visited
    ensures forall x | x in t.visited :: x in w.visited || x in list
    ensures t.visited == w.visited ==> t.cand == w.cand
    decreases |list|
  {
    if list == [] then w else
      assert list[0] in list && forall y | y in list[1..] :: y in list;
      VisitAll(ds, admit, ef, Visit(ds, admit, ef, w, list[0]), list[1..])
  }

  /** t is where visiting the list leads, if no two nodes are equally far. */
  ghost predicate VisitsAll(ds: seq<Score>, admit: set<nat>, ef: nat, w: Walk, list: seq<nat>, t: Walk) {
    && Within(w, |ds|) && Within(t, |ds|) && (forall y | y in list :: y < |ds|)
    && (AllApart(ds) ==> t == VisitAll(ds, admit, ef, w, list))
  }

  lemma {:induction false} VisitsConcat(ds: seq<Score>, admit: set<nat>, ef: nat, w: Walk, a: seq<nat>, t: Walk,
                                        b: seq<nat>, u: Walk)
    requires VisitsAll(ds, admit, ef, w, a, t) && VisitsAll(ds, admit, ef, t, b, u)
    ensures VisitsAll(ds, admit, ef, w, a + b, u)
  {
    if AllApart(ds) { VisitAllConcat(ds, admit, ef, w, a, b); }
  }

  lemma {:induction false} VisitAllConcat(ds: seq<Score>, admit: set<nat>, ef: nat, w: Walk, a: seq<nat>, b: seq<nat>)
    requires Within(w, |ds|) && (forall y | y in a :: y < |ds|) && (forall y | y in b :: y < |ds|)
    ensures VisitAll(ds, admit, ef, w, a + b) == VisitAll(ds, admit, ef, VisitAll(ds, admit, ef, w, a), b)
    decreases |a|
  {
    hide Visit;
    if a == [] {
      assert a + b == b;
    } else {
      assert a[0] in a && (forall y | y in a[1..] :: y in a) && (a + b)[1..] == a[1..] + b;
      VisitAllConcat(ds, admit, ef, Visit(ds, admit, ef, w, a[0]), a[1..], b);
    }
  }

  lemma VisitsNothing(ds: seq<Score>, admit: set<nat>, ef: nat, w: Walk)
    requires Within(w, |ds|)
    ensures VisitsAll(ds, admit, ef, w, [], w)
  {}

  /** One neighbour: nothing happens if it was visited before. */
  lemma VisitsOne(ds: seq<Score>, admit: set<nat>, ef: nat, w: Walk, e: nat, t: Walk)
    requires Within(w, |ds|) && Within(t, |ds|) && e < |ds|
    requires if e in w.visited then t == w else Visits(ds, admit, ef, w, e, t)
    ensures VisitsAll(ds, admit, ef, w, [e], t)
  {
    hide Visits, Visit;
    assert [e][1..] == [];
    assert VisitAll(ds, admit, ef, w, [e]) == Visit(ds, admit, ef, w, e);
    if e in w.visited { VisitAgain(ds, admit, ef, w, e); }
    else if AllApart(ds) { VisitIsDetermined(ds, admit, ef, w, e, t); }
  }

  lemma VisitAgain(ds: seq<Score>, admit: set<nat>, ef: nat, w: Walk, e: nat)
    requires Within(w, |ds|) && e < |ds| && e in w.visited
    ensures Visit(ds, admit, ef, w, e) == w
  {}

  /** The main loop of search_layer: what its results are when it stops. */
  ghost function Walked(adj: Layer, ds: seq<Score>, admit: set<nat>, ef: nat, w: Walk): set<nat>
    requires InRange(adj, ds) && Within(w, |adj|)
    decreases |adj| - |w.visited|, |w.cand|
  {
    BelowCount(w.visited, |adj|);
    if w.cand == {} then w.res else
      var c := NearestOf(w.cand, ds);
      if |w.res| >= ef && ds[c] > Bound(w.res, ds) then w.res else
        var t := Expanded(adj, ds, admit, ef, w, c);
        ExpandedShrinks(adj, ds, admit, ef, w, c);
        Walked(adj, ds, admit, ef, t)
  }

  /** c leaves the frontier and its links are visited. */
  ghost function Expanded(adj: Layer, ds: seq<Score>, admit: set<nat>, ef: nat, w: Walk, c: nat): (t: Walk)
    requires InRange(adj, ds) && Within(w, |adj|) && c in w.cand
    ensures Within(t, |adj|) && w.visited <= t.visited
  {
    VisitAll(ds, admit, ef, w.(cand := w.cand - {c}), adj[c])
  }

  /** t is where expanding c leads, if no two nodes are equally far. */
  ghost predicate Expands(adj: Layer, ds: seq<Score>, admit: set<nat>, ef: nat, w: Walk, c: nat, t: Walk) {
    && InRange(adj, ds) && Within(w, |adj|) && Within(t, |adj|) && c in w.cand
    && (AllApart(ds) ==> t == Expanded(adj, ds, admit, ef, w, c))
  }

  /** goal is what the loop will return from w on, if no two nodes are equally far. */
  ghost predicate Leads(adj: Layer, ds: seq<Score>, admit: set<nat>, ef: nat, w: Walk, goal: set<nat>)
    requires InRange(adj, ds)
  {
    Within(w, |adj|) && (AllApart(ds) ==> Walked(adj, ds, admit, ef, w) == goal)
  }

  /** A turn of the loop leads on to the same end. */
  lemma LeadsOn(adj: Layer, ds: seq<Score>, admit: set<nat>, ef: nat, w: Walk, goal: set<nat>, c: nat, t: Walk)
    requires InRange(adj, ds) && Leads(adj, ds, admit, ef, w, goal) && IsNearestOf(c, w.cand, ds)
    requires !(|w.res| >= ef && ds[c] > Bound(w.res, ds)) && Expands(adj, ds, admit, ef, w, c, t)
    ensures Leads(adj, ds, admit, ef, t, goal)
  {
    hide Bound, Expanded;
    if AllApart(ds) { assert c == NearestOf(w.cand, ds); }
  }

  /** The loop has nothing left, or stops early. */
  lemma LeadsHere(adj: Layer, ds: seq<Score>, admit: set<nat>, ef: nat, w: Walk, goal: set<nat>)
    requires InRange(adj, ds) && Leads(adj, ds, admit, ef, w, goal)
    requires w.cand != {} ==>
               exists c: nat :: IsNearestOf(c, w.cand, ds) && |w.res| >= ef && ds[c] > Bound(w.res, ds)
    ensures AllApart(ds) ==> w.res == goal
  {
    hide Bound, Expanded;
    if AllApart(ds) && w.cand != {} {
      var c: nat :| IsNearestOf(c, w.cand, ds) && |w.res| >= ef && ds[c] > Bound(w.res, ds);
      assert c == NearestOf(w.cand, ds);
    }
  }

  lemma ExpandedShrinks(adj: Layer, ds: seq<Score>, admit: set<nat>, ef: nat, w: Walk, c: nat)
    requires InRange(adj, ds) && Within(w, |adj|) && c in w.cand
    ensures var t := Expanded(adj, ds, admit, ef, w, c);
            && |w.visited| <= |t.visited| <= |adj|
            && (|t.visited| == |w.visited| ==> |t.cand| < |w.cand|)
  {
    var t := Expanded(adj, ds, admit, ef, w, c);
    BelowCount(t.visited, |adj|);
    SubsetCount(w.visited, t.visited);
    assert w.cand == (w.cand - {c}) + {c};
  }

  lemma {:induction false} BelowCount(s: set<nat>, n: nat)
    requires Below(s, n)
    ensures |s| <= n
    decreases n
  {
    if n == 0 {
      assert s == {};
    } else {
      BelowCount(s - {n - 1}, n - 1);
      assert s <= (s - {n - 1}) + {n - 1};
    }
  }

  /** The ids that search_layer returns from these entries, when no two nodes are equally far. */
  ghost function Reached(adj: Layer, ds: seq<Score>, entries: set<nat>, admit: set<nat>, ef: nat): set<nat>
    requires InRange(adj, ds) && Below(entries, |adj|)
  {
    Walked(adj, ds, admit, ef, Walk(entries, entries * admit, entries))
  }

  // ---------------------------------------------------------------- the walk stops early

  /**
   Four nodes, of which 0 leads to 1 and 2, and 1 to the nearest, 3.  With ef 1 the walk from 0 goes on
   from 2, whose distance is the bound, and then stops: 1 is beyond it, and 3 is never found.
   */
  lemma StopsEarly(adj: Layer, ds: seq<Score>)
    requires adj == [[1, 2], [3], [], []] && ds == [5.0, 4.0, 3.0, 2.0]
    ensures InRange(adj, ds) && Reached(adj, ds, {0}, {0, 1, 2, 3}, 1) == {2}
  {
    hide Walked, Expanded, Bound;
    var admit := {0, 1, 2, 3};
    var a, b, c := Walk({0}, {0}, {0}), Walk({1, 2}, {2}, {0, 1, 2}), Walk({1}, {2}, {0, 1, 2});
    assert {0} * admit == {0};
    FirstTurn(adj, ds);
    SecondTurn(adj, ds);
    WalkedTurn(adj, ds, admit, 1, a, 0, b);
    WalkedTurn(adj, ds, admit, 1, b, 2, c);
    BoundOne(ds, 2);
    WalkedStop(adj, ds, admit, 1, c, 1);
  }

  lemma FirstTurn(adj: Layer, ds: seq<Score>)
    requires adj == [[1, 2], [3], [], []] && ds == [5.0, 4.0, 3.0, 2.0]
    ensures InRange(adj, ds) && Bound({0}, ds) == 5.0
    ensures Expanded(adj, ds, {0, 1, 2, 3}, 1, Walk({0}, {0}, {0}), 0) == Walk({1, 2}, {2}, {0, 1, 2})
  {
    hide Visit, VisitAll;
    var admit, w := {0, 1, 2, 3}, Walk({}, {0}, {0});
    BoundOne(ds, 0);
    assert {0} - {0} == {} && adj[0] == [1, 2];
    VisitTwo(ds, admit, 1, w, 1, 2);
    VisitOfOne(ds, admit);
    VisitOfTwo(ds, admit);
  }

  lemma VisitOfOne(ds: seq<Score>, admit: set<nat>)
    requires ds == [5.0, 4.0, 3.0, 2.0] && 1 in admit
    ensures Visit(ds, admit, 1, Walk({}, {0}, {0}), 1) == Walk({1}, {1}, {0, 1})
  {
    hide FarthestOf, Bound;
    BoundOne(ds, 0);
    FarthestOne(ds, {0} + {1}, 0);
    assert {} + {1} == {1} && {0} + {1} - {0} == {1} && {0} + {1} == {0, 1};
  }

  lemma VisitOfTwo(ds: seq<Score>, admit: set<nat>)
    requires ds == [5.0, 4.0, 3.0, 2.0] && 2 in admit
    ensures Visit(ds, admit, 1, Walk({1}, {1}, {0, 1}), 2) == Walk({1, 2}, {2}, {0, 1, 2})
  {
    hide FarthestOf, Bound;
    BoundOne(ds, 1);
    FarthestOne(ds, {1} + {2}, 1);
    assert {1} + {2} - {1} == {2} && {1} + {2} == {1, 2} && {0, 1} + {2} == {0, 1, 2};
  }

  lemma VisitTwo(ds: seq<Score>, admit: set<nat>, ef: nat, w: Walk, x: nat, y: nat)
    requires Within(w, |ds|) && x < |ds| && y < |ds|
    ensures VisitAll(ds, admit, ef, w, [x, y]) == Visit(ds, admit, ef, Visit(ds, admit, ef, w, x), y)
  {
    hide Visit;
    var t := Visit(ds, admit, ef, w, x);
    assert [x, y][1..] == [y] && [y][1..] == [];
    assert VisitAll(ds, admit, ef, t, [y]) == VisitAll(ds, admit, ef, Visit(ds, admit, ef, t, y), []);
  }

  lemma SecondTurn(adj: Layer, ds: seq<Score>)
    requires adj == [[1, 2], [3], [], []] && ds == [5.0, 4.0, 3.0, 2.0]
    ensures InRange(adj, ds) && Bound({2}, ds) == 3.0
    ensures Expanded(adj, ds, {0, 1, 2, 3}, 1, Walk({1, 2}, {2}, {0, 1, 2}), 2) == Walk({1}, {2}, {0, 1, 2})
  {
    BoundOne(ds, 2);
    assert {1, 2} - {2} == {1} && adj[2] == [];
  }

  lemma FarthestOne(ds: seq<Score>, s: set<nat>, x: nat)
    requires Below(s, |ds|) && AllApart(ds) && x in s && forall y | y in s :: ds[y] <= ds[x]
    ensures FarthestOf(s, ds) == x
  {}

  lemma BoundOne(ds: seq<Score>, x: nat)
    requires x < |ds|
    ensures Below({x}, |ds|) && Bound({x}, ds) == ds[x]
  {}

  /** One turn of the loop that expands c. */
  lemma WalkedTurn(adj: Layer, ds: seq<Score>, admit: set<nat>, ef: nat, w: Walk, c: nat, t: Walk)
    requires InRange(adj, ds) && Within(w, |adj|) && AllApart(ds) && IsNearestOf(c, w.cand, ds)
    requires !(|w.res| >= ef && ds[c] > Bound(w.res, ds)) && t == Expanded(adj, ds, admit, ef, w, c)
    ensures Walked(adj, ds, admit, ef, w) == Walked(adj, ds, admit, ef, t)
  {
    hide Bound, Expanded;
    assert c == NearestOf(w.cand, ds);
  }

  lemma WalkedStop(adj: Layer, ds: seq<Score>, admit: set<nat>, ef: nat, w: Walk, c: nat)
    requires InRange(adj, ds) && Within(w, |adj|) && AllApart(ds) && IsNearestOf(c, w.cand, ds)
    requires |w.res| >= ef && ds[c] > Bound(w.res, ds)
    ensures Walked(adj, ds, admit, ef, w) == w.res
  {
    hide Bound, Expanded;
    assert c == NearestOf(w.cand, ds);
  }
}
