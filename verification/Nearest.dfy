/**
 Scored candidates, the priority queues and the sort that both indexes use, and what "the k
 nearest" means.  Queues and sort are known by their contracts only, so nothing below depends
 on how ties are broken.
 */
module Nearest {
  import opened Types

  /** A scored id: Cand in the HNSW index, SearchResult at the interface. */
  datatype Cand = Cand(dist: Score, id: nat)

  type Metric = (Vector, Vector) -> Score

  /** The distance of q to every slot. */
  ghost function Distances(metric: Metric, q: Vector, vectors: seq<Vector>): (ds: seq<Score>)
    ensures |ds| == |vectors|
  {
    seq(|vectors|, i requires 0 <= i < |vectors| => metric(q, vectors[i]))
  }

  ghost function Ids(s: seq<Cand>): set<nat> { set c | c in s :: c.id }

  ghost predicate Distinct(s: seq<Cand>) {
    forall i, j | 0 <= i < j < |s| :: s[i].id != s[j].id
  }

  /** Distinct ids with their true distances. */
  ghost predicate Scored(s: seq<Cand>, ds: seq<Score>) {
    Distinct(s) && forall c | c in s :: c.id < |ds| && c.dist == ds[c.id]
  }

  ghost predicate Ascending(s: seq<Cand>) {
    forall i, j | 0 <= i < j < |s| :: s[i].dist <= s[j].dist
  }

  /** out is k nearest members of elig, in ascending distance (all of them if there are fewer). */
  ghost predicate IsNearest(out: seq<Cand>, elig: set<nat>, ds: seq<Score>, k: nat) {
    && Scored(out, ds) && Ids(out) <= elig && Ascending(out)
    && |out| == (if k <= |elig| then k else |elig|)
    && forall x, c | x in elig - Ids(out) && c in out :: x < |ds| && c.dist <= ds[x]
  }

  ghost predicate SameScores(a: seq<Cand>, b: seq<Cand>) {
    |a| == |b| && forall i | 0 <= i < |a| :: a[i].dist == b[i].dist
  }

  /** No two members of elig are equally far. */
  ghost predicate Untied(elig: set<nat>, ds: seq<Score>) {
    forall x, y | x in elig && y in elig && x < |ds| && y < |ds| && ds[x] == ds[y] :: x == y
  }

  // ---------------------------------------------------------------- sets of ids

  lemma InIds(s: seq<Cand>, ds: seq<Score>, x: nat)
    requires Scored(s, ds)
    ensures x in Ids(s) <==> x < |ds| && Cand(ds[x], x) in s
  {
    if x in Ids(s) {
      var c :| c in s && c.id == x;
      assert c == Cand(ds[x], x);
    }
  }

  lemma {:induction false} IdsCount(s: seq<Cand>)
    requires Distinct(s)
    ensures |Ids(s)| == |s|
    decreases |s|
  {
    if s != [] {
      var rest := s[..|s| - 1];
      IdsCount(rest);
      assert s == rest + [s[|s| - 1]];
      assert Ids(s) == Ids(rest) + {s[|s| - 1].id};
    }
  }

  lemma IdsPush(s: seq<Cand>, c: Cand)
    ensures Ids(s + [c]) == Ids(s) + {c.id}
    ensures Ids([c] + s) == Ids(s) + {c.id}
    ensures Distinct(s) && c.id !in Ids(s) ==> Distinct(s + [c]) && Distinct([c] + s)
  {
    assert forall x | x in s :: x.id in Ids(s);
    assert forall i | 0 <= i < |s| :: s[i].id in Ids(s);
  }

  lemma IdsRemove(s: seq<Cand>, i: nat)
    requires Distinct(s) && i < |s|
    ensures Distinct(s[..i] + s[i + 1..]) && Ids(s[..i] + s[i + 1..]) == Ids(s) - {s[i].id}
  {
    var r := s[..i] + s[i + 1..];
    forall x | x in Ids(s) - {s[i].id}
      ensures x in Ids(r)
    {
      var c :| c in s && c.id == x;
      var j :| 0 <= j < |s| && s[j] == c;
      assert c == if j < i then r[j] else r[j - 1];
    }
    forall c | c in r
      ensures c in s && c.id != s[i].id
    {
      var j :| 0 <= j < |r| && r[j] == c;
      assert c == if j < i then s[j] else s[j + 1];
    }
  }

  lemma SubsetCount(a: set<nat>, b: set<nat>)
    requires a <= b
    ensures |a| <= |b|
    ensures |a| == |b| ==> a == b
  {
    assert b == a + (b - a);
  }

  // ---------------------------------------------------------------- scores are determined

  /** Any two lists of k nearest have the same scores, position by position. */
  lemma NearestScoresUnique(a: seq<Cand>, b: seq<Cand>, elig: set<nat>, ds: seq<Score>, k: nat)
    requires IsNearest(a, elig, ds, k) && IsNearest(b, elig, ds, k)
    ensures SameScores(a, b)
  {
    forall i | 0 <= i < |a|
      ensures a[i].dist == b[i].dist
    {
      NoBetter(a, b, elig, ds, k, i);
      NoBetter(b, a, elig, ds, k, i);
    }
  }

  /** Without ties they are the same list. */
  lemma NearestUnique(a: seq<Cand>, b: seq<Cand>, elig: set<nat>, ds: seq<Score>, k: nat)
    requires IsNearest(a, elig, ds, k) && IsNearest(b, elig, ds, k) && Untied(elig, ds)
    ensures a == b
  {
    NearestScoresUnique(a, b, elig, ds, k);
    forall i | 0 <= i < |a|
      ensures a[i] == b[i]
    {
      assert a[i] in a && b[i] in b && a[i].id in Ids(a) && b[i].id in Ids(b);
    }
  }

  /** The first i + 1 of a name an id that the first i of b do not. */
  lemma Pigeonhole(a: seq<Cand>, b: seq<Cand>, i: nat) returns (j: nat)
    requires Distinct(a) && Distinct(b) && i < |a| && i <= |b|
    ensures j <= i && forall m | 0 <= m < i :: b[m].id != a[j].id
  {
    var near, far := a[..i + 1], b[..i];
    IdsCount(near);
    IdsCount(far);
    if Ids(near) <= Ids(far) { SubsetCount(Ids(near), Ids(far)); }
    var x :| x in Ids(near) && x !in Ids(far);
    var c :| c in near && c.id == x;
    j :| 0 <= j < |near| && near[j] == c;
    assert forall m | 0 <= m < i :: b[m] == far[m] && far[m].id in Ids(far);
  }

  lemma NoBetter(a: seq<Cand>, b: seq<Cand>, elig: set<nat>, ds: seq<Score>, k: nat, i: nat)
    requires IsNearest(a, elig, ds, k) && IsNearest(b, elig, ds, k) && i < |a|
    ensures a[i].dist >= b[i].dist
  {
    var j := Pigeonhole(a, b, i);
    var x := a[j].id;
    assert a[j] in a && a[j].dist == ds[x] <= a[i].dist && x in Ids(a);
    if x in Ids(b) {
      InIds(b, ds, x);
      var m :| 0 <= m < |b| && b[m] == Cand(ds[x], x);
      assert m >= i;
    } else {
      assert x in elig - Ids(b) && b[i] in b;
    }
  }

  /** The first k of an ascending list are its k nearest. */
  lemma TakeNearest(s: seq<Cand>, ds: seq<Score>, k: nat)
    requires Scored(s, ds) && Ascending(s)
    ensures IsNearest(s[..if k <= |s| then k else |s|], Ids(s), ds, k)
  {
    var n := if k <= |s| then k else |s|;
    var out := s[..n];
    IdsCount(s);
    assert forall c | c in out :: c in s;
    assert forall i | 0 <= i < n :: s[i] == out[i] && out[i].id in Ids(out);
    forall x, c | x in Ids(s) - Ids(out) && c in out
      ensures x < |ds| && c.dist <= ds[x]
    {
      InIds(s, ds, x);
      var j :| 0 <= j < |s| && s[j] == Cand(ds[x], x);
      assert j >= n;
    }
  }

  // ---------------------------------------------------------------- queues and sort

  /** top() and pop() of the max-heap: some farthest candidate. */
  method PopFarthest(h: seq<Cand>, ghost ds: seq<Score>) returns (top: Cand, rest: seq<Cand>)
    requires h != [] && Scored(h, ds)
    ensures top in h && top.id in Ids(h) && forall x | x in Ids(h) :: ds[x] <= top.dist
    ensures Scored(rest, ds) && Ids(rest) == Ids(h) - {top.id} && |rest| == |h| - 1
  {
    var best := 0;
    for i := 1 to |h|
      invariant best < |h| && forall j | 0 <= j < i :: h[j].dist <= h[best].dist
    {
      if h[best].dist < h[i].dist { best := i; }
    }
    top, rest := h[best], h[..best] + h[best + 1..];
    IdsRemove(h, best);
    assert forall c | c in rest :: c in h;
  }

  /** top() and pop() of the min-heap: some nearest candidate. */
  method PopNearest(h: seq<Cand>, ghost ds: seq<Score>) returns (top: Cand, rest: seq<Cand>)
    requires h != [] && Scored(h, ds)
    ensures top in h && top.id in Ids(h) && forall x | x in Ids(h) :: top.dist <= ds[x]
    ensures Scored(rest, ds) && Ids(rest) == Ids(h) - {top.id} && |rest| == |h| - 1
  {
    var best := 0;
    for i := 1 to |h|
      invariant best < |h| && forall j | 0 <= j < i :: h[best].dist <= h[j].dist
    {
      if h[i].dist < h[best].dist { best := i; }
    }
    top, rest := h[best], h[..best] + h[best + 1..];
    IdsRemove(h, best);
    assert forall c | c in rest :: c in h;
  }

  /** Any ascending arrangement: std::sort by distance, or a max-heap drained into a list from the back. */
  method ToAscending(h: seq<Cand>, ghost ds: seq<Score>) returns (out: seq<Cand>)
    requires Scored(h, ds)
    ensures Scored(out, ds) && Ids(out) == Ids(h) && Ascending(out) && |out| == |h|
  {
    out := [];
    var left := h;
    while left != []
      invariant Scored(left, ds) && Scored(out, ds) && Ascending(out)
      invariant Ids(left) !! Ids(out) && Ids(left) + Ids(out) == Ids(h) && |left| + |out| == |h|
      invariant forall x, c | x in Ids(left) && c in out :: ds[x] <= c.dist
      decreases |left|
    {
      var top, rest := PopFarthest(left, ds);
      IdsPush(out, top);
      out, left := [top] + out, rest;
    }
  }
}
