/**
 The engine (src/engine.cpp): store, index, write-ahead log and snapshot blob.  Its methods
 take the steps of module Recovery's state machine.
 */
module Engine {
  import opened Types
  import opened LittleEndian
  import opened OpCodec
  import opened LogStore
  import opened Recovery
  import opened Nearest
  import opened Graph
  import opened VectorStore
  import opened Bitset
  import opened FlatIndex
  import opened LayerWalk
  import opened HnswGraph
  import opened HnswIndex
  import BatchSearch

  datatype IndexKind = UseFlat | UseHnsw(m: nat, efConstruction: nat)

  /** The one index an engine owns. */
  datatype AnyIndex = Flat(flat: FlatIndex) | Hnsw(hnsw: HnswIndex)

  /** The live slots whose metadata the filter, if there is one, matches. */
  ghost function Matching(live: seq<bool>, meta: seq<Metadata>, filter: Option<Metadata -> bool>): set<nat>
    requires |live| == |meta|
  {
    set x: nat | x < |live| && live[x] && (filter.Some? ==> filter.value(meta[x]))
  }

  /** All that a search depends on, as a value; the flat index has no graph. */
  datatype View = View(metric: Metric, vectors: seq<Vector>, live: seq<bool>, meta: seq<Metadata>,
                       graph: Option<Layers>)

  datatype Layers = Layers(shape: Shape, m: nat)

  /** Where a search is exact: always with the flat index, on a wide enough graph otherwise. */
  ghost predicate Exact(v: View, q: Vector, k: nat, filter: Option<Metadata -> bool>, ef: nat)
    requires |v.live| == |v.meta|
  {
    v.graph.Some? ==>
      WideEnough(v.graph.value.shape, v.graph.value.m, Distances(v.metric, q, v.vectors), k,
                 if ef > 0 then ef else 64, Matching(v.live, v.meta, filter))
  }

  /** What a search finds before it is cut to k, when no two slots are equally far from the query. */
  ghost function Found(v: View, q: Vector, k: nat, filter: Option<Metadata -> bool>, ef: nat): set<nat>
    requires |v.live| == |v.meta|
  {
    var elig := Matching(v.live, v.meta, filter);
    if v.graph.None? then elig
    else FoundBy(v.graph.value.shape, v.graph.value.m, Distances(v.metric, q, v.vectors), k,
                 if ef > 0 then ef else 64, elig)
  }

  /**
   What search may return: matching ids with their distances, ascending; the k nearest where the
   search is exact; and, exact or not, a determined result when no two slots are equally far.
   */
  ghost predicate Answer(v: View, q: Vector, k: nat, filter: Option<Metadata -> bool>, ef: nat, out: seq<Cand>) {
    && |v.live| == |v.meta|
    && var ds, elig := Distances(v.metric, q, v.vectors), Matching(v.live, v.meta, filter);
       && Scored(out, ds) && Ids(out) <= elig && Ascending(out) && |out| <= k
       && (Exact(v, q, k, filter, ef) ==> IsNearest(out, elig, ds, k))
       && (AllApart(ds) ==> IsNearest(out, Found(v, q, k, filter, ef), ds, k))
  }

  /** Each slot of a batch holds what search may return for its query. */
  ghost predicate Answered(v: View, queries: seq<Vector>, k: nat, filter: Option<Metadata -> bool>, ef: nat,
                           results: seq<seq<Cand>>) {
    |results| == |queries| && forall i | 0 <= i < |queries| :: Answer(v, queries[i], k, filter, ef, results[i])
  }

  /** random_level(): any natural number. */
  method RandomLevel() returns (level: nat) {
    level :| 0 <= level;
  }

  class Engine {
    const dim: nat
    const metric: Metric
    const kind: IndexKind
    const durable: bool
    var store: VectorStore
    var index: AnyIndex
    const log: FileLogStore
    var blob: Option<seq<byte>>

    ghost function Parts(): set<object>
      reads this
    {
      {this, store, log, IndexObject()}
    }

    ghost function IndexObject(): object
      reads this
    {
      match index case Flat(f) => f case Hnsw(h) => h
    }

    /** The index covers the store: the flat list is the live ids, the graph has every slot. */
    ghost predicate Covered()
      reads this, Parts()
    {
      match index
      case Flat(f) =>
        f.store == store && f.metric == metric && f.Valid() && Listed(f.ids) == LiveIds(store.live, None)
      case Hnsw(h) =>
        && h.store == store && h.metric == metric && h.Valid()
        && |h.nodes| == |store.extIds| && forall i | 0 <= i < |h.built| :: h.built[i]
    }

    ghost predicate Valid()
      reads this, Parts()
    {
      && store.Valid() && store.dim == dim && log.Valid() && Covered() && (index.Flat? <==> kind.UseFlat?)
      && (index.Hnsw? ==> kind == UseHnsw(index.hnsw.m, index.hnsw.efConstruction))
    }

    ghost function Contents(): Db
      reads this, Parts()
      requires Valid()
    {
      store.Contents()
    }

    ghost function OnDisk(): Disk
      reads this, log
    {
      Disk(blob, log.file)
    }

    ghost function Model(): State
      reads this, Parts()
      requires Valid()
    {
      State(Contents(), OnDisk())
    }

    ghost function Searchable(): (v: View)
      reads this, Parts()
      requires Valid()
    {
      View(metric, store.Vectors(), store.live, store.meta,
                if index.Flat? then None else Some(Layers(index.hnsw.State(), index.hnsw.m)))
    }

    /** An engine over a given disk, before recovery: empty store, empty index. */
    constructor (dim: nat, metric: Metric, kind: IndexKind, durable: bool, disk: Disk)
      ensures Valid() && fresh(Parts()) && Contents() == map[] && OnDisk() == disk
      ensures this.dim == dim && this.metric == metric && this.kind == kind && this.durable == durable
    {
      var s := new VectorStore(dim);
      var i := MakeIndex(kind, s, metric);
      var l := new FileLogStore(disk.log);
      this.dim, this.metric, this.kind, this.durable := dim, metric, kind, durable;
      store, index, log, blob := s, i, l, disk.snapshot;
      new;
      assert s.live == [];
    }

    /** index_->add for a slot that has just come to life. */
    method IndexAdd(id: nat)
      requires store.Valid() && store.dim == dim && log.Valid() && (index.Flat? <==> kind.UseFlat?)
      requires index.Hnsw? ==> kind == UseHnsw(index.hnsw.m, index.hnsw.efConstruction)
      requires id < |store.extIds| && store.live[id]
      requires match index
               case Flat(f) =>
                 && f.store == store && f.metric == metric && f.Valid() && id !in f.ids
                 && Listed(f.ids) + {id} == LiveIds(store.live, None)
               case Hnsw(h) =>
                 && h.store == store && h.metric == metric && h.Valid()
                 && (forall i | 0 <= i < |h.built| :: h.built[i])
                 && (|h.nodes| == |store.extIds| || (|h.nodes| == id && |store.extIds| == id + 1))
      modifies IndexObject()
      ensures Valid() && Contents() == old(store.Contents())
      ensures store.extIds == old(store.extIds) && store.live == old(store.live)
    {
      hide Rows, Count, SlotMap, LiveIds, GoodGraph, GoodEntry, Inserted;
      match index
      case Flat(f) =>
        assert Listed(f.ids + [id]) == Listed(f.ids) + {id};
        f.Add(id);
      case Hnsw(h) =>
        var level := RandomLevel();
        ghost var was := h.State();
        ghost var rounds := h.Add(id, level);
        if |was.nodes| == id {
          InsertedBuilds(was, h.State(), id, level, rounds, h.m, h.efConstruction,
                         h.DistancesTo(store.Vectors()[id]), h.Admissible(null), store.Vectors(), metric);
        }
    }

    /** The Insert case of apply_op: only an id that was not live is added to the index. */
    method ApplyInsert(ext: Str, vec: Vector, m: Metadata) returns (r: Result<nat>)
      requires Valid()
      modifies store, IndexObject()
      ensures Valid()
      ensures r.Ok? <==> |vec| == dim
      ensures r.Err? ==> r.error == BadDimension && Contents() == old(Contents())
      ensures r.Ok? ==> Contents() == old(Contents())[ext := Entry(vec, m)]
      ensures r.Ok? ==> r.value < |store.extIds| && store.extIds[r.value] == ext
      ensures r.Ok? ==>
                store.extIds == if ext in old(store.extToInt) then old(store.extIds) else old(store.extIds) + [ext]
      ensures r.Ok? ==>
                (store.live ==
                 if ext in old(store.extToInt) then old(store.live)[r.value := true] else old(store.live) + [true])
    {
      hide Rows, Count, SlotMap, GoodGraph, GoodEntry, LiveIds;
      var before := store.Resolve(ext);
      store.ResolveMeans(ext);
      r := store.Insert(ext, vec, m);
      if r.Ok? {
        NowLive(old(store.live), store.live, r.value);
        if before.None? { IndexAdd(r.value); }
      }
    }

    /** The Update case: the index reads vectors from the store. */
    method ApplyUpdate(ext: Str, vec: Vector, m: Option<Metadata>) returns (r: Result<()>)
      requires Valid()
      modifies store
      ensures Valid()
      ensures var a := Apply(dim, old(Contents()), Op(OpKind.Update, ext, vec, m));
              if a.Ok? then r.Ok? && Contents() == a.value else r == Err(a.error) && Contents() == old(Contents())
      ensures store.extIds == old(store.extIds) && store.live == old(store.live)
    {
      hide Rows, Count, GoodGraph, GoodEntry, LiveIds, SlotMap;
      var x := store.Update(ext, vec, m);
      r := if x.Ok? then Ok(()) else Err(x.error);
    }

    /** The Delete case. */
    method ApplyErase(ext: Str)
      requires Valid()
      modifies store, IndexObject()
      ensures Valid()
      ensures Contents() == old(Contents()) - {ext} && store.extIds == old(store.extIds)
    {
      hide Rows, Count, GoodGraph, GoodEntry, SlotMap, Without;
      var id := store.Erase(ext);
      if id.Some? {
        NowDead(old(store.live), store.live, id.value);
        match index
        case Flat(f) =>
          WithoutMeans(f.ids, id.value);
          WithoutFrom(f.ids, id.value);
          f.Remove(id.value);
        case Hnsw(_) =>
      }
    }

    /** apply_op without logging, as recovery calls it. */
    method ApplyOp(op: Op) returns (r: Result<()>)
      requires Valid()
      modifies store, IndexObject()
      ensures Valid()
      ensures var a := Apply(dim, old(Contents()), op);
              if a.Ok? then r.Ok? && Contents() == a.value else r == Err(a.error) && Contents() == old(Contents())
    {
      hide Rows, Count, GoodGraph, GoodEntry, SlotMap, LiveIds;
      match op.kind
      case Insert =>
        var x := ApplyInsert(op.ext, op.vec, if op.meta.Some? then op.meta.value else map[]);
        r := if x.Ok? then Ok(()) else Err(x.error);
      case Update =>
        r := ApplyUpdate(op.ext, op.vec, op.meta);
      case Delete =>
        ApplyErase(op.ext);
        r := Ok(());
    }

    /** Write-ahead: the record goes to the log before memory changes. */
    method LogAndApply(op: Op) returns (r: Result<()>)
      requires Valid() && Logged(Contents(), op)
      modifies store, IndexObject(), log
      ensures Valid()
      ensures Contents() == Applied(dim, old(Contents()), op)
      ensures r.Ok? <==> Sized(dim, op)
      ensures if durable then WriteStep(dim, old(Model()), op, Model()) else OnDisk() == old(OnDisk())
    {
      hide Rows, Count, GoodGraph, GoodEntry, SlotMap, LiveIds, IsEncoding, Frame;
      if durable {
        var rec := EncodeOp(op);
        log.Append(rec);
      }
      r := ApplyOp(op);
    }

    /** insert */
    method Insert(ext: Str, vec: Vector, m: Metadata) returns (r: Result<()>)
      requires Valid()
      modifies store, IndexObject(), log
      ensures Valid()
      ensures Contents() == if |vec| == dim then old(Contents())[ext := Entry(vec, m)] else old(Contents())
      ensures r.Ok? <==> |vec| == dim
      ensures if durable then WriteStep(dim, old(Model()), Op(OpKind.Insert, ext, vec, Some(m)), Model())
              else OnDisk() == old(OnDisk())
      ensures blob == old(blob) && (durable ==>
                exists rec :: IsEncoding(rec, Op(OpKind.Insert, ext, vec, Some(m)))
                              && log.file == old(log.file) + Frame(rec))
    {
      hide Rows, Count, GoodGraph, GoodEntry, SlotMap, LiveIds, IsEncoding, Frame;
      r := LogAndApply(Op(OpKind.Insert, ext, vec, Some(m)));
    }

    /** update: an id that is not live is left alone, and nothing is logged. */
    method Update(ext: Str, vec: Vector, m: Option<Metadata>) returns (r: Result<bool>)
      requires Valid()
      modifies store, IndexObject(), log
      ensures Valid()
      ensures Contents() == Applied(dim, old(Contents()), Op(OpKind.Update, ext, vec, m))
      ensures r == (if ext !in old(Contents()) then Ok(false) else if |vec| == dim then Ok(true) else Err(BadDimension))
      ensures if durable then WriteStep(dim, old(Model()), Op(OpKind.Update, ext, vec, m), Model())
              else OnDisk() == old(OnDisk())
      ensures ext in old(Contents()) && |vec| == dim ==>
                Contents() == old(Contents())[ext := Entry(vec, if m.Some? then m.value else old(Contents())[ext].meta)]
      ensures ext !in old(Contents()) || |vec| != dim ==> Contents() == old(Contents())
      ensures ext !in old(Contents()) ==> OnDisk() == old(OnDisk())
      ensures blob == old(blob) && (durable && ext in old(Contents()) ==>
                exists rec :: IsEncoding(rec, Op(OpKind.Update, ext, vec, m)) && log.file == old(log.file) + Frame(rec))
    {
      hide Rows, Count, GoodGraph, GoodEntry, SlotMap, LiveIds, IsEncoding, Frame;
      var id := store.Resolve(ext);
      if id.None? { return Ok(false); }
      var x := LogAndApply(Op(OpKind.Update, ext, vec, m));
      r := if x.Ok? then Ok(true) else Err(BadDimension);
    }

    /** erase */
    method Erase(ext: Str) returns (done: bool)
      requires Valid()
      modifies store, IndexObject(), log
      ensures Valid()
      ensures Contents() == old(Contents()) - {ext} && done == (ext in old(Contents()))
      ensures if durable then WriteStep(dim, old(Model()), Op(OpKind.Delete, ext, [], None), Model())
              else OnDisk() == old(OnDisk())
      ensures ext !in old(Contents()) ==> OnDisk() == old(OnDisk())
      ensures blob == old(blob) && (durable && ext in old(Contents()) ==>
                exists rec :: IsEncoding(rec, Op(OpKind.Delete, ext, [], None))
                              && log.file == old(log.file) + Frame(rec))
    {
      hide Rows, Count, GoodGraph, GoodEntry, SlotMap, LiveIds, IsEncoding, Frame;
      var id := store.Resolve(ext);
      if id.None? {
        assert Contents() == Contents() - {ext};
        return false;
      }
      var _ := LogAndApply(Op(OpKind.Delete, ext, [], None));
      return true;
    }

    // -------------------------------------------------------------- search

    /** The allowed-set of a filter: the live slots whose metadata matches. */
    method BuildAllowed(filter: Metadata -> bool) returns (allowed: Bitset)
      requires Valid()
      ensures fresh(allowed) && allowed.Valid()
      ensures allowed.Members() == Matching(store.live, store.meta, Some(filter))
      ensures |store.live| == |store.meta|
      ensures forall x: nat :: x in allowed.Members() <==> x < |store.live| && store.live[x] && filter(store.meta[x])
    {
      hide Rows, Count, SlotMap, GoodGraph, GoodEntry, LiveIds;
      var n := |store.extIds|;
      allowed := new Bitset(n);
      for id := 0 to n
        invariant fresh(allowed) && allowed.Valid() && allowed.size == n
        invariant forall x: nat :: x in allowed.Members() <==> x < id && store.live[x] && filter(store.meta[x])
      {
        var ok := store.IsLive(id);
        if ok && filter(store.meta[id]) { allowed.Set(id); }
      }
    }

    /** allowed is the filter's bitset, or none where there is no filter. */
    ghost predicate Allows(allowed: Bitset?, filter: Option<Metadata -> bool>)
      reads this, Parts(), allowed
      requires Valid()
    {
      if filter.None? then allowed == null
      else allowed != null && allowed.Valid() && allowed.Members() == Matching(store.live, store.meta, filter)
    }

    /** The bitset of a filter, if there is one. */
    method AllowedFor(filter: Option<Metadata -> bool>) returns (allowed: Bitset?)
      requires Valid()
      ensures (allowed != null ==> fresh(allowed)) && Allows(allowed, filter)
    {
      allowed := null;
      if filter.Some? { allowed := BuildAllowed(filter.value); }
    }

    /** The call of the index, with the default ef of 64. */
    method IndexSearch(q: Vector, k: nat, ghost filter: Option<Metadata -> bool>, ef: nat, allowed: Bitset?)
      returns (out: seq<Cand>)
      requires Valid() && Allows(allowed, filter)
      ensures Valid() && Answer(Searchable(), q, k, filter, ef, out)
    {
      hide Rows, Count, SlotMap, GoodGraph, GoodEntry, IsNearest, Scored, Ids, Ascending, WideEnough, Certified,
           FoundBy, AllApart;
      ghost var ds, elig := Distances(metric, q, store.Vectors()), Matching(store.live, store.meta, filter);
      match index {
        case Flat(f) =>
          out := f.Search(q, k, allowed);
          assert Eligible(Listed(f.ids), store.live, if allowed == null then None else Some(allowed.Members())) == elig;
          NearestIsSound(out, elig, ds, k);
        case Hnsw(h) =>
          ghost var found, visited;
          out, found, visited := h.Search(q, k, if ef > 0 then ef else 64, allowed);
          assert h.Admissible(allowed) == elig;
      }
    }

    /** search: the dimension check, the filter's bitset and the index. */
    method Search(q: Vector, k: nat, filter: Option<Metadata -> bool>, ef: nat) returns (r: Result<seq<Cand>>)
      requires Valid()
      ensures r.Ok? <==> |q| == dim
      ensures Valid() && (r.Ok? ==> Answer(Searchable(), q, k, filter, ef, r.value))
      ensures |store.live| == |store.meta| == |store.Vectors()|
      ensures r.Ok? ==> forall c | c in r.value ::
                c.id < |store.live| && store.live[c.id] && (filter.Some? ==> filter.value(store.meta[c.id]))
                && c.dist == metric(q, store.Vectors()[c.id])
      ensures r.Ok? ==> |r.value| <= k && forall i, j | 0 <= i < j < |r.value| ::
                r.value[i].id != r.value[j].id && r.value[i].dist <= r.value[j].dist
      ensures r.Ok? && index.Flat? ==>
                var passing := set x: nat | x < |store.live| && store.live[x]
                                            && (filter.Some? ==> filter.value(store.meta[x]));
                && |r.value| == (if k <= |passing| then k else |passing|)
                && forall x, c | x in passing && c in r.value && (forall d | d in r.value :: d.id != x) ::
                     c.dist <= metric(q, store.Vectors()[x])
    {
      hide Rows, Count, SlotMap, GoodGraph, GoodEntry, LiveIds, Matching, Answer;
      ValidSlots();
      if |q| != dim { return Err(BadDimension); }
      if k == 0 {
        NoneWanted(Searchable(), q, filter, ef);
        AnswerMeans(Searchable(), q, k, filter, ef, []);
        return Ok([]);
      }
      var allowed := AllowedFor(filter);
      var out := IndexSearch(q, k, filter, ef, allowed);
      AnswerMeans(Searchable(), q, k, filter, ef, out);
      return Ok(out);
    }

    lemma ValidSlots()
      requires Valid()
      ensures |store.live| == |store.meta| == |store.Vectors()|
    {
      hide Rows, Count, SlotMap, GoodGraph, GoodEntry;
    }

    /** Every id in an answer is a live slot. */
    lemma HitsAreLive(q: Vector, k: nat, filter: Option<Metadata -> bool>, ef: nat, out: seq<Cand>)
      requires Valid() && Answer(Searchable(), q, k, filter, ef, out)
      ensures |store.live| == |store.meta| && |out| <= k
      ensures forall i | 0 <= i < |out| :: out[i].id < |store.live| && store.live[out[i].id]
    {
      hide Rows, Count, SlotMap, GoodGraph, GoodEntry, Exact, Scored, Ascending, IsNearest;
      assert forall i | 0 <= i < |out| :: out[i].id in Ids(out);
    }

    /** search_batch: every slot of the result holds an answer to its query, in whatever order the threads ran. */
    method SearchBatch(queries: seq<Vector>, k: nat, filter: Option<Metadata -> bool>, ef: nat,
                       numThreads: nat, hardware: nat) returns (r: Result<seq<seq<Cand>>>)
      requires Valid()
      ensures r.Ok? <==> forall q | q in queries :: |q| == dim
      ensures Valid() && (r.Ok? ==> Answered(Searchable(), queries, k, filter, ef, r.value))
    {
      hide Rows, Count, SlotMap, GoodGraph, GoodEntry, LiveIds, Matching, Answer;
      var n := |queries|;
      var results: seq<seq<Cand>> := seq(n, _ => []);
      for i := 0 to n
        invariant forall j | 0 <= j < i :: |queries[j]| == dim
      {
        if |queries[i]| != dim {
          assert queries[i] in queries;
          return Err(BadDimension);
        }
      }
      if n == 0 || k == 0 {
        ValidSlots();
        forall i | 0 <= i < n
          ensures Answer(Searchable(), queries[i], k, filter, ef, results[i])
        {
          NoneWanted(Searchable(), queries[i], filter, ef);
        }
        return Ok(results);
      }
      var allowed := AllowedFor(filter);
      var threads := BatchSearch.ThreadCount(numThreads, hardware, n);
      if threads <= 1 {
        results := RunRange(queries, k, filter, ef, allowed, results);
        return Ok(results);
      }
      var ws := BatchSearch.Ranges(n, threads);
      results := RunWorkers(ws, queries, k, filter, ef, allowed, results);
      return Ok(results);
    }

    /** The serial fast path: run_range over all queries. */
    method RunRange(queries: seq<Vector>, k: nat, ghost filter: Option<Metadata -> bool>, ef: nat, allowed: Bitset?,
                    initial: seq<seq<Cand>>) returns (results: seq<seq<Cand>>)
      requires Valid() && Allows(allowed, filter) && |initial| == |queries|
      ensures Valid() && Answered(Searchable(), queries, k, filter, ef, results)
    {
      hide Rows, Count, SlotMap, GoodGraph, GoodEntry, LiveIds, Matching, Answer;
      results := initial;
      for i := 0 to |queries|
        invariant |results| == |queries|
        invariant forall j | 0 <= j < i :: Answer(Searchable(), queries[j], k, filter, ef, results[j])
      {
        var out := IndexSearch(queries[i], k, filter, ef, allowed);
        results := results[i := out];
      }
    }

    /** The workers, sharing one bitset, one step at a time in any order until all are joined. */
    method RunWorkers(ws: seq<BatchSearch.Range>, queries: seq<Vector>, k: nat,
                      ghost filter: Option<Metadata -> bool>, ef: nat, allowed: Bitset?,
                      initial: seq<seq<Cand>>) returns (results: seq<seq<Cand>>)
      requires Valid() && Allows(allowed, filter)
      requires BatchSearch.Tiles(ws, |queries|) && |initial| == |queries|
      ensures Valid() && Answered(Searchable(), queries, k, filter, ef, results)
    {
      hide Rows, Count, SlotMap, GoodGraph, GoodEntry, LiveIds, Matching, Answer;
      hide BatchSearch.Left, BatchSearch.IsInterleaving, BatchSearch.Tiles;
      ghost var v := Searchable();
      ghost var answer := (q: Vector, out: seq<Cand>) => Answer(v, q, k, filter, ef, out);
      var s := BatchSearch.State(initial, seq(|ws|, t requires 0 <= t < |ws| => ws[t].lo));
      ghost var states, schedule: seq<nat> := [s], [];
      BatchSearch.NotStarted(ws, queries, answer, s);
      while exists t :: 0 <= t < |ws| && s.next[t] < ws[t].hi
        invariant BatchSearch.Inv(ws, queries, answer, s)
        invariant |states| == |schedule| + 1 && states[|schedule|] == s
        invariant BatchSearch.IsInterleaving(ws, queries, answer, states, schedule)
        decreases BatchSearch.Left(ws, s, |ws|)
      {
        var t :| 0 <= t < |ws| && s.next[t] < ws[t].hi;
        var out := IndexSearch(queries[s.next[t]], k, filter, ef, allowed);
        BatchSearch.TakeStep(ws, queries, answer, states, schedule, t, out);
        s := BatchSearch.After(s, t, out);
        states, schedule := states + [s], schedule + [t];
      }
      BatchSearch.EveryInterleavingAnswers(ws, queries, answer, states, schedule);
      results := s.results;
      assert forall i | 0 <= i < |queries| :: answer(queries[i], results[i]);
    }

    // -------------------------------------------------------------- snapshot and compaction

    /** The loop of snapshot(): one framed Insert per live slot. */
    method SnapshotBytes() returns (out: seq<byte>)
      requires Valid()
      ensures IsSnapshot(out, Contents())
    {
      hide Rows, Count, SlotMap, GoodGraph, GoodEntry, LiveIds, Fixed, IsEncoding, Covered;
      out := [];
      ghost var recs: seq<Record>, ops: seq<Op> := [], [];
      ghost var db := Contents();
      for id := 0 to |store.extIds|
        invariant Encodes(recs, ops) && out == BlobFrames(recs)
        invariant forall op | op in ops :: op.ext in db && op == InsertOf(op.ext, db[op.ext])
        invariant forall j | 0 <= j < id && store.live[j] ::
                    store.extIds[j] in db && InsertOf(store.extIds[j], db[store.extIds[j]]) in ops
      {
        var ok := store.IsLive(id);
        if ok {
          var v := store.Get(id);
          var op := Op(OpKind.Insert, store.extIds[id], v, Some(store.meta[id]));
          store.LiveSlot(id);
          var rec := EncodeOp(op);
          BlobSnoc(recs, rec);
          recs, ops := recs + [rec], ops + [op];
          out := out + (Fixed(|rec|, 4) + rec);
        }
      }
      assert Dumps(ops, db) by {
        forall x | x in db
          ensures InsertOf(x, db[x]) in ops
        {
          store.EntrySlot(x);
        }
      }
    }

    /** snapshot: publish the blob, then truncate the log; `between` is the disk a crash in between leaves. */
    method Snapshot() returns (ghost between: Disk)
      requires Valid()
      modifies this`blob, log
      ensures Valid() && Contents() == old(Contents())
      ensures durable ==> between == Disk(blob, old(log.file))
      ensures if durable then SnapshotStep(old(Model()), Model()) else OnDisk() == old(OnDisk())
    {
      hide Rows, Count, SlotMap, GoodGraph, GoodEntry, LiveIds, IsSnapshot;
      between := OnDisk();
      if !durable { return; }
      var out := SnapshotBytes();
      blob := Some(out);
      between := OnDisk();
      log.Truncate();
    }

    /** The first loop of compact: copy out the live entries. */
    method CollectLive() returns (live: seq<LiveEntry>)
      requires Valid()
      ensures Lists(live, Contents()) && forall e | e in live :: |e.entry.vec| == dim
    {
      hide Rows, Count, SlotMap, GoodGraph, GoodEntry, LiveIds, Covered;
      live := [];
      ghost var db := Contents();
      for id := 0 to |store.extIds|
        invariant forall e | e in live :: e.ext in db && db[e.ext] == e.entry && |e.entry.vec| == dim
        invariant forall e | e in live :: e.ext in store.extToInt && store.extToInt[e.ext] < id
        invariant forall i, j | 0 <= i < j < |live| :: live[i].ext != live[j].ext
        invariant forall j | 0 <= j < id && store.live[j] ::
                    store.extIds[j] in db && LiveEntry(store.extIds[j], db[store.extIds[j]]) in live
      {
        var ok := store.IsLive(id);
        if ok {
          var v := store.Get(id);
          store.LiveSlot(id);
          assert forall i | 0 <= i < |live| :: live[i] in live;
          live := live + [LiveEntry(store.extIds[id], Entry(v, store.meta[id]))];
        }
      }
      forall x | x in db
        ensures LiveEntry(x, db[x]) in live
      {
        store.EntrySlot(x);
      }
    }

    /** The last loop of compact, into an empty store and index. */
    method Rebuild(live: seq<LiveEntry>)
      requires Valid() && store.extIds == [] && store.live == [] && Contents() == map[]
      requires DistinctExts(live) && forall e | e in live :: |e.entry.vec| == dim
      modifies store, IndexObject()
      ensures Valid() && Contents() == Loaded(live) && store.live == Trues(|store.extIds|)
    {
      NothingLoaded(live);
      hide Rows, Count, SlotMap, GoodGraph, GoodEntry, LiveIds, Loaded, Exts, DistinctExts, Trues;
      for j := 0 to |live|
        invariant Valid() && Contents() == Loaded(live[..j])
        invariant store.extIds == Exts(live[..j]) && store.live == Trues(j) && |store.extIds| == j
      {
        assert live[j] in live;
        LoadedSnoc(live, j);
        LoadNew(live[j]);
      }
      assert live[..|live|] == live;
    }

    method LoadNew(e: LiveEntry)
      requires Valid() && |e.entry.vec| == dim && e.ext !in store.extIds
      modifies store, IndexObject()
      ensures Valid() && Contents() == old(Contents())[e.ext := e.entry]
      ensures store.extIds == old(store.extIds) + [e.ext] && store.live == old(store.live) + [true]
    {
      hide Rows, Count, SlotMap, GoodGraph, GoodEntry, LiveIds;
      assert e.ext !in store.extToInt;
      var _ := ApplyInsert(e.ext, e.entry.vec, e.entry.meta);
    }

    /** compact: a fresh store and index from the live entries, then a snapshot. */
    method Compact()
      requires Valid()
      modifies this, log
      ensures Valid() && fresh(store) && fresh(IndexObject())
      ensures Contents() == old(Contents())
      ensures |store.extIds| == store.liveCount && store.live == Trues(|store.extIds|)
      ensures if durable then SnapshotStep(old(Model()), Model()) else OnDisk() == old(OnDisk())
    {
      hide Rows, Count, SlotMap, GoodGraph, GoodEntry, LiveIds, IsSnapshot, Loaded;
      var live := CollectLive();
      Reset();
      Rebuild(live);
      LoadedAll(live, old(Contents()));
      AllLive(|store.extIds|);
      ghost var _ := Snapshot();
    }

    /** Replace store and index by empty ones. */
    method Reset()
      requires Valid()
      modifies this`store, this`index
      ensures Valid() && fresh(store) && fresh(IndexObject()) && Contents() == map[]
      ensures store.extIds == [] && store.live == []
    {
      hide Rows, Count, GoodGraph, GoodEntry;
      var s := new VectorStore(dim);
      var i := MakeIndex(kind, s, metric);
      store, index := s, i;
      assert LiveIds(store.live, None) == {};
    }

    // -------------------------------------------------------------- recovery

    /** replay_blob */
    method ReplayBlob(data: seq<byte>) returns (r: Result<()>)
      requires Valid()
      modifies store, IndexObject()
      ensures Valid()
      ensures var a := ApplyRecords(dim, old(Contents()), BlobRecords(data));
              if a.Ok? then r.Ok? && Contents() == a.value else r == Err(a.error)
    {
      hide Rows, Count, SlotMap, GoodGraph, GoodEntry, LiveIds, BlobRecords, Decode, U32Value, Apply;
      var off := 0;
      ghost var goal := ApplyRecords(dim, Contents(), BlobRecords(data));
      assert data[0..] == data;
      while off + 4 <= |data|
        invariant off <= |data| && Valid()
        invariant ApplyRecords(dim, Contents(), BlobRecords(data[off..])) == goal
      {
        BlobAt(data, off);
        var len := U32Value(data[off..off + 4]);
        off := off + 4;
        if off + len > |data| { return Ok(()); }
        var op :- DecodeOp(data[off..off + len]);
        var _ :- ApplyOp(op);
        off := off + len;
      }
      BlobAt(data, off);
      return Ok(());
    }

    /** The callback of recover(), over the records that the log replays. */
    method ReplayLog() returns (r: Result<()>)
      requires Valid()
      modifies store, IndexObject()
      ensures Valid()
      ensures var a := ApplyRecords(dim, old(Contents()), Replayed(log.file));
              if a.Ok? then r.Ok? && Contents() == a.value else r == Err(a.error)
    {
      hide Rows, Count, SlotMap, GoodGraph, GoodEntry, LiveIds, Decode, Replayed, Apply;
      var recs := log.Replay();
      ghost var goal := ApplyRecords(dim, Contents(), recs);
      for i := 0 to |recs|
        invariant Valid() && ApplyRecords(dim, Contents(), recs[i..]) == goal
      {
        assert recs[i..][1..] == recs[i + 1..];
        var op :- DecodeOp(recs[i]);
        var _ :- ApplyOp(op);
      }
      return Ok(());
    }

    /** recover */
    method Recover() returns (r: Result<()>)
      requires Valid() && Contents() == map[]
      modifies store, IndexObject()
      ensures Valid() && OnDisk() == old(OnDisk())
      ensures var a := Recovery.Recover(dim, OnDisk());
              if a.Ok? then r.Ok? && Contents() == a.value else r == Err(a.error)
    {
      hide Rows, Count, SlotMap, GoodGraph, GoodEntry, LiveIds, BlobRecords, Replayed, ApplyRecords;
      if blob.Some? {
        var _ :- ReplayBlob(blob.value);
      }
      r := ReplayLog();
    }
  }

  /** Opening an engine with persistence: the constructor, which throws if recovery does. */
  method Open(dim: nat, metric: Metric, kind: IndexKind, disk: Disk) returns (r: Result<Engine>)
    ensures dim == 0 ==> r == Err(BadDimension)
    ensures dim > 0 ==> r.Ok? == Recovery.Recover(dim, disk).Ok?
    ensures r.Ok? ==> r.value.Valid() && fresh(r.value.Parts()) && r.value.durable && r.value.dim == dim
    ensures r.Ok? ==> r.value.metric == metric && r.value.kind == kind
    ensures r.Ok? ==> Recovery.Recover(dim, disk) == Ok(r.value.Contents()) && r.value.OnDisk() == disk
  {
    hide Rows, Count, SlotMap, GoodGraph, GoodEntry, LiveIds, Recovery.Recover;
    if dim == 0 { return Err(BadDimension); }
    var e := new Engine(dim, metric, kind, true, disk);
    var _ :- e.Recover();
    return Ok(e);
  }

  datatype LiveEntry = LiveEntry(ext: Str, entry: Entry)

  /** es lists the entries of db, each once. */
  ghost predicate Lists(es: seq<LiveEntry>, db: Db) {
    && (forall e | e in es :: e.ext in db && db[e.ext] == e.entry)
    && DistinctExts(es)
    && (forall x | x in db :: LiveEntry(x, db[x]) in es)
  }

  ghost function Loaded(es: seq<LiveEntry>): Db {
    if es == [] then map[] else Loaded(es[..|es| - 1])[es[|es| - 1].ext := es[|es| - 1].entry]
  }

  ghost predicate DistinctExts(es: seq<LiveEntry>) {
    forall i, j | 0 <= i < j < |es| :: es[i].ext != es[j].ext
  }

  ghost function Exts(es: seq<LiveEntry>): seq<Str> { seq(|es|, i requires 0 <= i < |es| => es[i].ext) }

  ghost function Trues(n: nat): seq<bool> { seq(n, _ => true) }

  lemma NothingLoaded(es: seq<LiveEntry>)
    ensures Loaded(es[..0]) == map[] && Exts(es[..0]) == [] && Trues(0) == []
  {}

  lemma LoadedSnoc(es: seq<LiveEntry>, j: nat)
    requires j < |es| && DistinctExts(es)
    ensures Loaded(es[..j + 1]) == Loaded(es[..j])[es[j].ext := es[j].entry]
    ensures Exts(es[..j + 1]) == Exts(es[..j]) + [es[j].ext] && es[j].ext !in Exts(es[..j])
    ensures Trues(j + 1) == Trues(j) + [true]
  {
    assert es[..j + 1][..j] == es[..j];
  }

  lemma {:induction false} LoadedFrom(es: seq<LiveEntry>, db: Db)
    requires forall e | e in es :: e.ext in db && db[e.ext] == e.entry
    ensures forall x | x in Loaded(es) :: x in db && Loaded(es)[x] == db[x]
    ensures forall e | e in es :: e.ext in Loaded(es)
    decreases |es|
  {
    if es != [] {
      LoadedFrom(es[..|es| - 1], db);
      assert es == es[..|es| - 1] + [es[|es| - 1]];
    }
  }

  lemma LoadedAll(es: seq<LiveEntry>, db: Db)
    requires Lists(es, db)
    ensures Loaded(es) == db
  {
    LoadedFrom(es, db);
    forall x | x in db
      ensures x in Loaded(es)
    {
      assert LiveEntry(x, db[x]) in es;
    }
  }

  lemma {:induction false} AllLive(n: nat)
    ensures Count(Trues(n)) == n
  {
    if n != 0 {
      AllLive(n - 1);
      assert Trues(n)[1..] == Trues(n - 1);
    }
  }

  /** One turn of the loop of replay_blob. */
  lemma BlobAt(data: seq<byte>, off: nat)
    requires off <= |data|
    ensures off + 4 > |data| ==> BlobRecords(data[off..]) == []
    ensures off + 4 <= |data| ==>
              var len := U32Value(data[off..off + 4]);
              BlobRecords(data[off..]) ==
                if off + 4 + len > |data| then []
                else [data[off + 4..off + 4 + len]] + BlobRecords(data[off + 4 + len..])
  {
    hide U32Value;
    var left := data[off..];
    if off + 4 <= |data| {
      assert left[..4] == data[off..off + 4];
      var len := U32Value(data[off..off + 4]);
      if off + 4 + len <= |data| {
        assert left[4..4 + len] == data[off + 4..off + 4 + len] && left[4 + len..] == data[off + 4 + len..];
      }
    }
  }

  lemma NoneWanted(v: View, q: Vector, filter: Option<Metadata -> bool>, ef: nat)
    requires |v.live| == |v.meta|
    ensures Answer(v, q, 0, filter, ef, [])
  {
    hide WideEnough;
  }

  /** An answer in terms of slots, flags, metadata and the metric. */
  lemma AnswerMeans(v: View, q: Vector, k: nat, filter: Option<Metadata -> bool>, ef: nat, out: seq<Cand>)
    requires Answer(v, q, k, filter, ef, out) && |v.vectors| == |v.live|
    ensures |v.live| == |v.meta|
    ensures forall c | c in out ::
              c.id < |v.live| && v.live[c.id] && (filter.Some? ==> filter.value(v.meta[c.id]))
              && c.dist == v.metric(q, v.vectors[c.id])
    ensures |out| <= k
    ensures forall i, j | 0 <= i < j < |out| :: out[i].id != out[j].id && out[i].dist <= out[j].dist
    ensures Exact(v, q, k, filter, ef) ==>
              var passing := set x: nat | x < |v.live| && v.live[x] && (filter.Some? ==> filter.value(v.meta[x]));
              && |out| == (if k <= |passing| then k else |passing|)
              && forall x, c | x in passing && c in out && (forall d | d in out :: d.id != x) ::
                   c.dist <= v.metric(q, v.vectors[x])
    ensures v.graph.None? ==> Exact(v, q, k, filter, ef)
  {
    hide WideEnough, FoundBy, AllApart;
    var elig, ds := Matching(v.live, v.meta, filter), Distances(v.metric, q, v.vectors);
    assert elig == set x: nat | x < |v.live| && v.live[x] && (filter.Some? ==> filter.value(v.meta[x]));
    assert forall c | c in out :: c.id in Ids(out);
    if Exact(v, q, k, filter, ef) {
      forall x, c | x in elig && c in out && (forall d | d in out :: d.id != x)
        ensures c.dist <= v.metric(q, v.vectors[x])
      {
        assert x in elig - Ids(out) && ds[x] == v.metric(q, v.vectors[x]);
      }
    }
  }

  /** An HNSW search is exact where layer 0 leads to all that match and ef, 64 unless given, covers them. */
  lemma ReachableMeansExact(v: View, q: Vector, k: nat, filter: Option<Metadata -> bool>, ef: nat, s: Shape, m: nat)
    requires |v.live| == |v.meta| && v.graph == Some(Layers(s, m)) && s.entry.Some?
    requires GoodGraph(s.nodes, s.built, m) && s.entry.value < |s.nodes| <= |v.vectors|
    requires var passing := set x: nat | x < |v.live| && v.live[x] && (filter.Some? ==> filter.value(v.meta[x]));
             |passing| <= k || |passing| <= (if ef == 0 then 64 else ef)
    requires var ep := Descend(s.nodes, s.built, m, Distances(v.metric, q, v.vectors), s.entry.value, s.maxLevel, 0);
             forall x: nat | x < |v.live| && v.live[x] && (filter.Some? ==> filter.value(v.meta[x])) ::
               Reachable(LayerOf(s.nodes, 0), {ep}, x)
    ensures Exact(v, q, k, filter, ef)
  {
    hide GoodGraph, Descend, Reachable, LayerOf;
    assert Matching(v.live, v.meta, filter)
        == set x: nat | x < |v.live| && v.live[x] && (filter.Some? ==> filter.value(v.meta[x]));
  }

  /** ef 0 stands for 64. */
  lemma DefaultEf(v: View, q: Vector, k: nat, filter: Option<Metadata -> bool>, out: seq<Cand>)
    ensures Answer(v, q, k, filter, 0, out) <==> Answer(v, q, k, filter, 64, out)
  {
    hide WideEnough, FoundBy, IsNearest, Scored, AllApart;
  }

  lemma NearestIsSound(out: seq<Cand>, elig: set<nat>, ds: seq<Score>, k: nat)
    requires IsNearest(out, elig, ds, k)
    ensures Scored(out, ds) && Ids(out) <= elig && Ascending(out) && |out| <= k
  {}

  lemma {:induction false} BlobSnoc(recs: seq<Record>, rec: Record)
    ensures BlobFrames(recs + [rec]) == BlobFrames(recs) + (Fixed(|rec|, 4) + rec)
  {
    hide Fixed;
    if recs == [] {
      assert recs + [rec] == [rec];
    } else {
      BlobSnoc(recs[1..], rec);
      assert (recs + [rec])[1..] == recs[1..] + [rec];
    }
  }

  /** The live set after a slot was set live, or a live slot appended. */
  lemma NowLive(before: seq<bool>, after: seq<bool>, id: nat)
    requires id < |after| && after == if id < |before| then before[id := true] else before + [true]
    requires id <= |before|
    ensures LiveIds(after, None) == LiveIds(before, None) + {id}
    ensures id in LiveIds(before, None) <==> id < |before| && before[id]
  {}

  lemma NowDead(before: seq<bool>, after: seq<bool>, id: nat)
    requires id < |before| && after == before[id := false]
    ensures LiveIds(after, None) == LiveIds(before, None) - {id}
  {}

  lemma {:induction false} WithoutFrom(ids: seq<nat>, id: nat)
    ensures forall i | 0 <= i < |Without(ids, id)| :: Without(ids, id)[i] in ids
  {
    if ids != [] { WithoutFrom(ids[1..], id); }
  }

  /** The switch over the index kind in the constructor and in compact. */
  method MakeIndex(kind: IndexKind, store: VectorStore, metric: Metric) returns (i: AnyIndex)
    requires store.Valid()
    ensures i.Flat? <==> kind.UseFlat?
    ensures i.Hnsw? ==> kind == UseHnsw(i.hnsw.m, i.hnsw.efConstruction)
    ensures match i
            case Flat(f) => fresh(f) && f.store == store && f.metric == metric && f.Valid() && f.ids == []
            case Hnsw(h) => fresh(h) && h.store == store && h.metric == metric && h.Valid() && h.nodes == []
  {
    match kind
    case UseFlat =>
      var f := new FlatIndex(store, metric);
      i := Flat(f);
    case UseHnsw(m, ef) =>
      var h := new HnswIndex(store, metric, m, ef);
      i := Hnsw(h);
  }

  lemma InsertedBuilds(s: Shape, t: Shape, id: nat, level: nat, rounds: map<nat, Round>, m: nat, ef: nat,
                       ds: seq<Score>, admit: set<nat>, vectors: seq<Vector>, metric: Metric)
    requires Inserted(s, t, id, level, rounds, m, ef, ds, admit, vectors, metric)
    requires |s.nodes| == |s.built| == id && forall i | 0 <= i < |s.built| :: s.built[i]
    ensures |t.nodes| == id + 1 && |t.built| == id + 1 && forall i | 0 <= i < |t.built| :: t.built[i]
  {
    hide GoodGraph, Descend;
  }
}
