/** The exact index (include/toyvdb/flat_index.hpp): a list of ids and a bounded max-heap scan. */
module FlatIndex {
  import opened Types
  import opened Nearest
  import opened VectorStore
  import opened Bitset

  /** The ids in `among` that are live and, if there is an allowed-set, in it. */
  ghost function Eligible(among: set<nat>, live: seq<bool>, allowed: Option<set<nat>>): set<nat> {
    set x | x in among && x < |live| && live[x] && (allowed.Some? ==> x in allowed.value)
  }

  class FlatIndex {
    const store: VectorStore
    const metric: Metric
    var ids: seq<nat>

    /** The scan list names slots of the store, each once. */
    ghost predicate Valid()
      reads this, store
    {
      && store.Valid()
      && (forall i | 0 <= i < |ids| :: ids[i] < |store.extIds|)
      && (forall i, j | 0 <= i < j < |ids| :: ids[i] != ids[j])
    }

    constructor (store: VectorStore, metric: Metric)
      requires store.Valid()
      ensures Valid() && ids == [] && this.store == store && this.metric == metric
    {
      this.store, this.metric := store, metric;
      ids := [];
    }

    method Add(id: nat)
      modifies this
      ensures ids == old(ids) + [id]
    {
      ids := ids + [id];
    }

    /** std::remove: every occurrence goes, the rest keep their order. */
    method Remove(id: nat)
      modifies this
      ensures ids == Without(old(ids), id)
    {
      var kept: seq<nat>, all := [], ids;
      for i := 0 to |all|
        invariant kept == Without(all[..i], id)
      {
        WithoutSnoc(all[..i], all[i], id);
        assert all[..i + 1] == all[..i] + [all[i]];
        if all[i] != id { kept := kept + [all[i]]; }
      }
      assert all[..|all|] == all;
      ids := kept;
    }

    /** The k nearest of the eligible ids on the list. */
    method Search(q: Vector, k: nat, allowed: Bitset?) returns (out: seq<Cand>)
      requires Valid() && (allowed != null ==> allowed.Valid())
      ensures IsNearest(out,
                        Eligible(Listed(ids), store.live, if allowed == null then None else Some(allowed.Members())),
                        Distances(metric, q, store.Vectors()), k)
    {
      hide Rows, Kept, Scored, IsNearest, Count;
      ghost var ds := Distances(metric, q, store.Vectors());
      ghost var may: Option<set<nat>> := if allowed == null then None else Some(allowed.Members());
      EmptyHeap(ds, store.live, may, k);
      var heap: seq<Cand> := [];
      if k == 0 {
        Finished([], [], Eligible(Listed(ids), store.live, may), ds, 0);
        return [];
      }
      for i := 0 to |ids|
        invariant Scored(heap, ds) && |heap| <= k
        invariant Kept(heap, Eligible(Listed(ids[..i]), store.live, may), ds, k)
      {
        var id := ids[i];
        assert ids[..i + 1] == ids[..i] + [id];
        EligibleSnoc(ids[..i], id, store.live, may);
        var ok := store.IsLive(id);
        if ok && allowed != null { ok := allowed.Test(id); }
        if ok {
          var v := store.Get(id);
          heap := Offer(heap, Cand(metric(q, v), id), k, ds, Eligible(Listed(ids[..i]), store.live, may));
        }
      }
      assert ids[..|ids|] == ids;
      out := ToAscending(heap, ds);
      Finished(heap, out, Eligible(Listed(ids), store.live, may), ds, k);
    }
  }

  lemma EligibleSnoc(ids: seq<nat>, id: nat, live: seq<bool>, may: Option<set<nat>>)
    ensures Eligible(Listed(ids + [id]), live, may) ==
            if id < |live| && live[id] && (may.Some? ==> id in may.value)
            then Eligible(Listed(ids), live, may) + {id} else Eligible(Listed(ids), live, may)
  {}

  lemma EmptyHeap(ds: seq<Score>, live: seq<bool>, may: Option<set<nat>>, k: nat)
    ensures Scored([], ds) && Kept([], Eligible(Listed([]), live, may), ds, k)
  {}

  /** A heap that keeps the k nearest of all eligible ids, put in ascending order, is the answer. */
  lemma Finished(heap: seq<Cand>, out: seq<Cand>, elig: set<nat>, ds: seq<Score>, k: nat)
    requires k == 0 ==> heap == []
    requires k > 0 ==> Kept(heap, elig, ds, k)
    requires Scored(heap, ds) && |heap| <= k
    requires Scored(out, ds) && Ids(out) == Ids(heap) && Ascending(out) && |out| == |heap|
    ensures IsNearest(out, elig, ds, k)
  {
    IdsCount(heap);
    if k > 0 {
      SubsetCount(Ids(heap), elig);
      forall x, c | x in elig - Ids(out) && c in out
        ensures x < |ds| && c.dist <= ds[x]
      {
        assert c.id in Ids(out);
        InIds(heap, ds, c.id);
      }
    }
  }

  ghost function Listed(ids: seq<nat>): set<nat> { set x | x in ids }

  function Without(ids: seq<nat>, id: nat): seq<nat> {
    if ids == [] then [] else (if ids[0] == id then [] else [ids[0]]) + Without(ids[1..], id)
  }

  lemma {:induction false} WithoutSnoc(ids: seq<nat>, x: nat, id: nat)
    ensures Without(ids + [x], id) == Without(ids, id) + (if x == id then [] else [x])
  {
    if ids == [] {
      assert ids + [x] == [x];
    } else {
      WithoutSnoc(ids[1..], x, id);
      assert (ids + [x])[1..] == ids[1..] + [x];
    }
  }

  /** Removing an id keeps a list duplicate-free and drops exactly that id. */
  lemma {:induction false} WithoutMeans(ids: seq<nat>, id: nat)
    requires forall i, j | 0 <= i < j < |ids| :: ids[i] != ids[j]
    ensures forall i, j | 0 <= i < j < |Without(ids, id)| :: Without(ids, id)[i] != Without(ids, id)[j]
    ensures Listed(Without(ids, id)) == Listed(ids) - {id}
  {
    if ids != [] {
      WithoutMeans(ids[1..], id);
      var w := Without(ids[1..], id);
      assert ids == [ids[0]] + ids[1..];
      assert Listed(ids) == {ids[0]} + Listed(ids[1..]);
      assert ids[0] !in Listed(ids[1..]);
      assert forall i | 0 <= i < |w| :: w[i] in Listed(w);
      assert Listed([ids[0]] + w) == {ids[0]} + Listed(w);
    }
  }

  /** The heap holds the k nearest of seen. */
  ghost predicate Kept(heap: seq<Cand>, seen: set<nat>, ds: seq<Score>, k: nat) {
    && Ids(heap) <= seen && (|heap| < k ==> Ids(heap) == seen)
    && forall x, c | x in seen - Ids(heap) && c in heap :: x < |ds| && c.dist <= ds[x]
  }

  /** One turn of the scan: push while there is room, else replace a worse top. */
  method Offer(heap: seq<Cand>, c: Cand, k: nat, ghost ds: seq<Score>, ghost seen: set<nat>)
    returns (h: seq<Cand>)
    requires k > 0 && Scored(heap, ds) && |heap| <= k && Kept(heap, seen, ds, k)
    requires c.id < |ds| && c.dist == ds[c.id] && c.id !in seen
    ensures Scored(h, ds) && |h| <= k && Kept(h, seen + {c.id}, ds, k)
  {
    if |heap| < k {
      IdsPush(heap, c);
      return heap + [c];
    }
    var top, rest := PopFarthest(heap, ds);
    if c.dist < top.dist {
      IdsPush(rest, c);
      h := rest + [c];
      assert forall x | x in rest :: x.id in Ids(rest);
    } else {
      h := heap;
      assert forall x | x in heap :: x.id in Ids(heap);
    }
  }
}
