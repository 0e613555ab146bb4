/**
 The RAG engine (src/rag.cpp): which chunk ids are in the database, what is stored under them, and
 the prompts that are built from what is retrieved.
 */
module RagEngine {
  import opened Types
  import opened Recovery
  import opened Nearest
  import opened VectorStore
  import opened Text
  import opened Prompt
  import opened Engine
  import opened HnswGraph
  import opened HnswIndex

  const HASH: byte := 35

  /** std::to_string */
  function Decimal(n: nat): Str {
    if n < 10 then [48 + n] else Decimal(n / 10) + [48 + n % 10]
  }

  /** The external id of chunk i of a document. */
  function ChunkId(doc: Str, i: nat): Str { doc + [HASH] + Decimal(i) }

  lemma {:induction false} DecimalDigits(n: nat)
    ensures Decimal(n) != [] && forall k | 0 <= k < |Decimal(n)| :: 48 <= Decimal(n)[k] <= 57
  {
    if n >= 10 { DecimalDigits(n / 10); }
  }

  lemma {:induction false} DecimalInjective(m: nat, n: nat)
    requires Decimal(m) == Decimal(n)
    ensures m == n
    decreases m
  {
    DecimalDigits(m / 10);
    DecimalDigits(n / 10);
    var a, b := Decimal(m), Decimal(n);
    assert a[|a| - 1] == 48 + m % 10 && b[|b| - 1] == 48 + n % 10;
    if m >= 10 && n >= 10 {
      assert a[..|a| - 1] == Decimal(m / 10) && b[..|b| - 1] == Decimal(n / 10);
      DecimalInjective(m / 10, n / 10);
    }
  }

  lemma OneHashLast(d: Str, i: nat, k: nat)
    requires |d| < k < |ChunkId(d, i)|
    ensures ChunkId(d, i)[k] != HASH
  {
    hide Decimal;
    DecimalDigits(i);
    assert ChunkId(d, i)[k] == Decimal(i)[k - |d| - 1];
  }

  /** Different documents or numbers give different ids: the number is what follows the last '#'. */
  lemma ChunkIdInjective(d: Str, i: nat, e: Str, j: nat)
    requires ChunkId(d, i) == ChunkId(e, j)
    ensures d == e && i == j
  {
    hide Decimal;
    var s, t := ChunkId(d, i), ChunkId(e, j);
    assert s[|d|] == HASH && t[|e|] == HASH;
    if |d| < |e| { OneHashLast(d, i, |e|); }
    if |e| < |d| { OneHashLast(e, j, |d|); }
    assert d == s[..|d|] && e == t[..|e|];
    assert Decimal(i) == s[|d| + 1..] && Decimal(j) == t[|e| + 1..];
    DecimalInjective(i, j);
  }

  /** Ids letter by letter: the document, '#' and the decimal number. */
  lemma ChunkIdLetters(doc: Str)
    ensures ChunkId(doc, 0) == doc + [35, 48] && ChunkId(doc, 7) == doc + [35, 55]
    ensures ChunkId(doc, 120) == doc + [35, 49, 50, 48]
  {
    assert Decimal(0) == [48] && Decimal(7) == [55] && Decimal(1) == [49];
    assert Decimal(12) == [49] + [50];
    assert Decimal(120) == Decimal(12) + [48];
  }

  /** The ids of the first n chunks of a document. */
  ghost function FirstIds(doc: Str, n: nat): set<Str> { set i: nat | i < n :: ChunkId(doc, i) }

  /** The ids that the recorded counts account for. */
  ghost function Recorded(docs: map<Str, nat>): set<Str> {
    set d, i: nat | d in docs && i < docs[d] :: ChunkId(d, i)
  }

  lemma {:induction false} FirstIdsCount(doc: Str, n: nat)
    ensures |FirstIds(doc, n)| == n
  {
    hide ChunkId;
    if n == 0 {
      assert FirstIds(doc, 0) == {};
    } else {
      FirstIdsCount(doc, n - 1);
      forall i: nat | i < n - 1
        ensures ChunkId(doc, i) != ChunkId(doc, n - 1)
      {
        if ChunkId(doc, i) == ChunkId(doc, n - 1) { ChunkIdInjective(doc, i, doc, n - 1); }
      }
      assert FirstIds(doc, n) == FirstIds(doc, n - 1) + {ChunkId(doc, n - 1)};
    }
  }

  ghost function Total(docs: map<Str, nat>): nat
    decreases |docs|
  {
    if docs == map[] then 0 else
      var d :| d in docs;
      docs[d] + Total(docs - {d})
  }

  /** As many ids are recorded as the counts add up to. */
  lemma {:induction false} RecordedCount(docs: map<Str, nat>)
    ensures |Recorded(docs)| == Total(docs)
    decreases |docs|
  {
    hide ChunkId;
    if docs == map[] {
      assert Recorded(docs) == {};
    } else {
      var d :| d in docs && Total(docs) == docs[d] + Total(docs - {d});
      RecordedCount(docs - {d});
      FirstIdsCount(d, docs[d]);
      RecordedWithout(docs, d);
    }
  }

  lemma RecordedWithout(docs: map<Str, nat>, d: Str)
    requires d in docs
    ensures Recorded(docs) == Recorded(docs - {d}) + FirstIds(d, docs[d])
    ensures Recorded(docs - {d}) !! FirstIds(d, docs[d])
  {
    hide ChunkId;
    var rest := docs - {d};
    forall x | x in Recorded(rest) && x in FirstIds(d, docs[d])
      ensures false
    {
      var e, i: nat :| e in rest && i < rest[e] && x == ChunkId(e, i);
      var j: nat :| j < docs[d] && x == ChunkId(d, j);
      ChunkIdInjective(e, i, d, j);
    }
    forall x | x in Recorded(docs)
      ensures x in Recorded(rest) + FirstIds(d, docs[d])
    {
      var e, i: nat :| e in docs && i < docs[e] && x == ChunkId(e, i);
      if e != d { assert e in rest && rest[e] == docs[e]; }
    }
    forall x | x in Recorded(rest)
      ensures x in Recorded(docs)
    {
      var e, i: nat :| e in rest && i < rest[e] && x == ChunkId(e, i);
      assert e in docs && docs[e] == rest[e];
    }
  }

  /** What is stored for one chunk of a document. */
  function ChunkEntry(embed: Str -> Vector, doc: Str, text: Str): Entry {
    Entry(embed(text), map[Ascii("doc") := StrValue(doc), Ascii("text") := StrValue(text)])
  }

  /** e is a chunk of the document, embedded and labelled, with a token in it. */
  ghost predicate IsChunkOf(embed: Str -> Vector, doc: Str, e: Entry) {
    exists text :: e == ChunkEntry(embed, doc, text) && Cost(text) > 0
  }

  /** Under every recorded id is a chunk of its document. */
  ghost predicate Described(embed: Str -> Vector, docs: map<Str, nat>, db: Db) {
    forall d, i: nat | d in docs && i < docs[d] ::
      ChunkId(d, i) in db && IsChunkOf(embed, d, db[ChunkId(d, i)])
  }

  /** A string in the metadata, or none. */
  function Label(m: Metadata, key: Str): Str {
    if key in m && m[key].StrValue? then m[key].s else []
  }

  datatype Retrieved = Retrieved(doc: Str, text: Str, score: Score)

  function Texts(found: seq<Retrieved>): seq<Str> {
    seq(|found|, i requires 0 <= i < |found| => found[i].text)
  }

  class RagEngine {
    const embed: Str -> Vector
    const window: nat
    const overlap: nat
    const retrieveK: nat
    const tokenBudget: nat
    const engine: Engine
    var docChunks: map<Str, nat>

    /** The live external ids are exactly those the recorded counts account for, and hold their chunks. */
    ghost predicate Valid()
      reads this, engine, engine.Parts()
    {
      && engine.Valid() && !engine.durable && (forall t :: |embed(t)| == engine.dim)
      && engine.Contents().Keys == Recorded(docChunks) && Described(embed, docChunks, engine.Contents())
    }

    /** An in-memory engine; the model yields vectors of its dimension. */
    constructor (dim: nat, metric: Metric, kind: IndexKind, embed: Str -> Vector, window: nat, overlap: nat,
                 retrieveK: nat, tokenBudget: nat)
      requires forall t :: |embed(t)| == dim
      ensures Valid() && docChunks == map[]
      ensures this.embed == embed && this.window == window && this.overlap == overlap
      ensures this.retrieveK == retrieveK && this.tokenBudget == tokenBudget
      ensures engine.dim == dim && engine.metric == metric && engine.kind == kind && engine.Contents() == map[]
    {
      var e := new Engine(dim, metric, kind, false, Disk(None, []));
      this.embed, this.window, this.overlap, engine := embed, window, overlap, e;
      this.retrieveK, this.tokenBudget := retrieveK, tokenBudget;
      docChunks := map[];
      new;
      assert Recorded(docChunks) == {};
    }

    /** size() of the store is the sum of the recorded counts. */
    lemma SizeIsTotal()
      requires Valid()
      ensures engine.store.liveCount == Total(docChunks)
    {
      RecordedCount(docChunks);
      engine.store.SizeIsLiveCount();
      assert |engine.Contents()| == |engine.Contents().Keys|;
    }

    /** Erase the first n chunks of a document. */
    method EraseChunks(doc: Str, n: nat)
      requires engine.Valid() && !engine.durable
      modifies engine.store, engine.IndexObject(), engine.log
      ensures engine.Valid()
      ensures engine.Contents() == old(engine.Contents()) - FirstIds(doc, n)
    {
      hide ChunkId, GoodGraph, GoodEntry, SlotMap, LiveIds, Rows, Count;
      NoneErased(engine.Contents(), doc);
      for i := 0 to n
        invariant engine.Valid() && engine.Contents() == old(engine.Contents()) - FirstIds(doc, i)
      {
        OneMore(doc, i);
        OneMoreErased(old(engine.Contents()), doc, i);
        var _ := engine.Erase(ChunkId(doc, i));
      }
    }

    /** Embed and insert the chunks of a document. */
    method InsertChunks(doc: Str, chunks: seq<Chunk>)
      requires engine.Valid() && !engine.durable && forall t :: |embed(t)| == engine.dim
      modifies engine.store, engine.IndexObject(), engine.log
      ensures engine.Valid()
      ensures engine.Contents() == Stored(embed, old(engine.Contents()), doc, chunks)
    {
      hide ChunkId, GoodGraph, GoodEntry, SlotMap, LiveIds, Rows, Count;
      for i := 0 to |chunks|
        invariant engine.Valid() && engine.Contents() == Stored(embed, old(engine.Contents()), doc, chunks[..i])
      {
        var e := ChunkEntry(embed, doc, chunks[i].text);
        assert chunks[..i + 1][..i] == chunks[..i];
        var _ := engine.Insert(ChunkId(doc, i), e.vec, e.meta);
      }
      assert chunks[..|chunks|] == chunks;
    }

    /** Drop the chunks of a previous ingest, then insert the new ones. */
    method ReplaceChunks(doc: Str, chunks: seq<Chunk>)
      requires Valid()
      modifies engine.store, engine.IndexObject(), engine.log
      ensures engine.Valid()
      ensures engine.Contents().Keys == Recorded(if chunks == [] then docChunks - {doc} else docChunks[doc := |chunks|])
      ensures Replaced(embed, docChunks, old(engine.Contents()), engine.Contents(), doc, chunks)
    {
      hide ChunkId, GoodGraph, GoodEntry, SlotMap, LiveIds, Rows, Count, ChunkEntry, Stored, Recorded, FirstIds,
           Replaced, Described;
      ghost var db := engine.Contents();
      if doc in docChunks { EraseChunks(doc, docChunks[doc]); }
      IngestReplaces(embed, docChunks, db, engine.Contents(), doc, chunks);
      InsertChunks(doc, chunks);
    }

    /** ingest: replace the document's chunks, touch no other document. */
    method Ingest(doc: Str, text: Str) returns (n: nat, ghost chunks: seq<Chunk>)
      requires Valid()
      modifies this`docChunks, engine.store, engine.IndexObject(), engine.log
      ensures Valid()
      ensures var w, o, tokens := Window(window), Overlap(window, overlap), Tokens(text);
              n == |chunks| == WindowCount(|tokens|, w, w - o) && AreChunks(chunks, tokens, w, w - o)
      ensures docChunks == if n == 0 then old(docChunks) - {doc} else old(docChunks)[doc := n]
      ensures Replaced(embed, old(docChunks), old(engine.Contents()), engine.Contents(), doc, chunks)
      ensures forall i: nat | i < n ::
                && ChunkId(doc, i) in engine.Contents()
                && engine.Contents()[ChunkId(doc, i)].vec == embed(chunks[i].text)
                && engine.Contents()[ChunkId(doc, i)].meta
                   == map[Ascii("doc") := StrValue(doc), Ascii("text") := StrValue(chunks[i].text)]
    {
      hide ChunkId, GoodGraph, GoodEntry, SlotMap, LiveIds, Rows, Count, WindowCount, AreChunks, Covers, ChunkEntry,
           Stored, Recorded, FirstIds, Replaced, Tokens, Described, Ascii;
      var cs := ChunkText(text, window, overlap);
      chunks, n := cs, |cs|;
      ChunksHaveTokens(cs, Tokens(text), Window(window), Overlap(window, overlap));
      ghost var before := engine.Contents();
      ReplaceChunks(doc, cs);
      ghost var db := engine.Contents();
      StoredEntries(embed, docChunks, before, db, doc, cs);
      StillDescribed(embed, docChunks, before, db, doc, cs);
      docChunks := if n == 0 then docChunks - {doc} else docChunks[doc := n];
      assert engine.Valid() && engine.Contents() == db;
    }

    /** remove: the document's chunks go, nothing else. */
    method Remove(doc: Str) returns (existed: bool)
      requires Valid()
      modifies this`docChunks, engine.store, engine.IndexObject(), engine.log
      ensures Valid()
      ensures existed == (doc in old(docChunks)) && docChunks == old(docChunks) - {doc}
      ensures forall x | x in engine.Contents() ::
                x in old(engine.Contents()) && engine.Contents()[x] == old(engine.Contents())[x]
    {
      hide ChunkId, GoodGraph, GoodEntry, SlotMap, LiveIds, Rows, Count, Recorded, FirstIds, Described;
      RecordedAfter(docChunks, doc, 0);
      ghost var before := engine.Contents();
      if doc !in docChunks {
        assert docChunks - {doc} == docChunks;
        return false;
      }
      EraseChunks(doc, docChunks[doc]);
      OthersDescribed(embed, docChunks, before, engine.Contents(), doc);
      docChunks := docChunks - {doc};
      return true;
    }

    /** What a hit of a search is: a chunk of an ingested document, with a token in it. */
    lemma HitIsChunk(id: nat)
      requires Valid() && id < |engine.store.live| && engine.store.live[id]
      ensures var m := engine.store.meta[id];
              Label(m, Ascii("doc")) in docChunks && Cost(Label(m, Ascii("text"))) > 0
    {
      hide ChunkId, GoodGraph, GoodEntry, SlotMap, LiveIds, Rows, Count, Cost, Ascii;
      engine.store.LiveSlot(id);
      var ext := engine.store.extIds[id];
      assert ext in Recorded(docChunks);
      var d, i: nat :| d in docChunks && i < docChunks[d] && ext == ChunkId(d, i);
      var text :| engine.Contents()[ext] == ChunkEntry(embed, d, text) && Cost(text) > 0;
      LabelsOf(embed, d, text);
    }

    /** retrieve: the chunks behind the hits of a search for the embedded query, in their order. */
    method Retrieve(query: Str, k: nat) returns (found: seq<Retrieved>, ghost hits: seq<Cand>)
      requires Valid()
      ensures Valid()
      ensures Answer(engine.Searchable(), embed(query), k, None, 0, hits) && |found| == |hits| <= k
      ensures forall i | 0 <= i < |hits| :: hits[i].id < |engine.store.meta| &&
                var m := engine.store.meta[hits[i].id];
                found[i] == Retrieved(Label(m, Ascii("doc")), Label(m, Ascii("text")), hits[i].dist)
      ensures forall c | c in found :: c.doc in docChunks && Cost(c.text) > 0
    {
      hide ChunkId, GoodGraph, GoodEntry, SlotMap, LiveIds, Rows, Count, Cost, Ascii, Described, Recorded;
      hide Answer, Label;
      ghost var v := engine.Searchable();
      var answer := engine.Search(embed(query), k, None, 0);
      assert engine.Searchable() == v && Valid();
      var out := answer.value;
      hits := out;
      engine.HitsAreLive(embed(query), k, None, 0, out);
      found := [];
      for i := 0 to |out|
        invariant |found| == i
        invariant forall j | 0 <= j < i ::
                    var m := engine.store.meta[out[j].id];
                    found[j] == Retrieved(Label(m, Ascii("doc")), Label(m, Ascii("text")), out[j].dist)
        invariant forall c | c in found :: c.doc in docChunks && Cost(c.text) > 0
      {
        HitIsChunk(out[i].id);
        var m := engine.store.meta[out[i].id];
        found := found + [Retrieved(Label(m, Ascii("doc")), Label(m, Ascii("text")), out[i].dist)];
      }
    }

    /**
     build_prompt: the prompt of what is retrieved.  It keeps the budget whenever that covers query
     and template and at most ten chunks are asked for, or it is at most 34 above the query.
     */
    method BuildPrompt(query: Str) returns (prompt: Str, ghost texts: seq<Str>, ghost hits: seq<Cand>)
      requires Valid()
      ensures Valid() && Answer(engine.Searchable(), embed(query), retrieveK, None, 0, hits)
      ensures |texts| == |hits| <= retrieveK
      ensures forall i | 0 <= i < |hits| :: hits[i].id < |engine.store.meta| &&
                texts[i] == Label(engine.store.meta[hits[i].id], Ascii("text"))
      ensures NoneBlank(texts) && prompt == PromptText(query, Used(tokenBudget, query, texts))
      ensures Suffices(tokenBudget, query, retrieveK) ==> Cost(prompt) <= tokenBudget
    {
      hide GoodGraph, GoodEntry, SlotMap, LiveIds, Rows, Count, Cost, Answer, Described, Recorded, PromptText, Used;
      hide Ascii, Label;
      var found;
      found, hits := Retrieve(query, retrieveK);
      TextsOf(found);
      texts := Texts(found);
      prompt := Build(tokenBudget, query, Texts(found));
      if Suffices(tokenBudget, query, retrieveK) { NoneBlankFits(tokenBudget, query, texts); }
    }
  }

  lemma StoredEntries(embed: Str -> Vector, docs: map<Str, nat>, db: Db, db2: Db, doc: Str, chunks: seq<Chunk>)
    requires Replaced(embed, docs, db, db2, doc, chunks)
    ensures forall i: nat | i < |chunks| ::
              && ChunkId(doc, i) in db2
              && db2[ChunkId(doc, i)].vec == embed(chunks[i].text)
              && db2[ChunkId(doc, i)].meta
                 == map[Ascii("doc") := StrValue(doc), Ascii("text") := StrValue(chunks[i].text)]
  {
    hide ChunkId, Ascii;
  }

  lemma TextsOf(found: seq<Retrieved>)
    requires forall c | c in found :: Cost(c.text) > 0
    ensures |Texts(found)| == |found| && NoneBlank(Texts(found))
  {
    hide Cost;
    assert forall i | 0 <= i < |found| :: found[i] in found && Texts(found)[i] == found[i].text;
  }

  lemma LabelsOf(embed: Str -> Vector, doc: Str, text: Str)
    ensures var m := ChunkEntry(embed, doc, text).meta;
            Label(m, Ascii("doc")) == doc && Label(m, Ascii("text")) == text
  {
    assert |Ascii("doc")| != |Ascii("text")|;
  }

  lemma ChunksHaveTokens(chunks: seq<Chunk>, tokens: seq<Str>, w: nat, o: nat)
    requires Covers(chunks, tokens, w, o)
    ensures forall c | c in chunks :: Cost(c.text) > 0
  {
    hide TokensFrom;
    forall c | c in chunks
      ensures Cost(c.text) > 0
    {
      assert |tokens[c.start..c.end]| == c.end - c.start;
    }
  }

  lemma StillDescribed(embed: Str -> Vector, docs: map<Str, nat>, db: Db, db2: Db, doc: Str, chunks: seq<Chunk>)
    requires Described(embed, docs, db) && Replaced(embed, docs, db, db2, doc, chunks)
    requires forall c | c in chunks :: Cost(c.text) > 0
    ensures Described(embed, if |chunks| == 0 then docs - {doc} else docs[doc := |chunks|], db2)
  {
    hide ChunkId, ChunkEntry, Cost;
    var docs2 := if |chunks| == 0 then docs - {doc} else docs[doc := |chunks|];
    forall d, i: nat | d in docs2 && i < docs2[d]
      ensures ChunkId(d, i) in db2 && IsChunkOf(embed, d, db2[ChunkId(d, i)])
    {
      if d == doc {
        assert chunks[i] in chunks && Cost(chunks[i].text) > 0;
      } else {
        assert d in docs && docs2[d] == docs[d];
      }
    }
  }

  lemma OthersDescribed(embed: Str -> Vector, docs: map<Str, nat>, db: Db, db2: Db, doc: Str)
    requires Described(embed, docs, db) && db2.Keys == Recorded(docs - {doc})
    requires forall x | x in db2 :: x in db && db2[x] == db[x]
    ensures Described(embed, docs - {doc}, db2)
  {
    hide ChunkId, ChunkEntry, Cost;
    var rest := docs - {doc};
    forall d, i: nat | d in rest && i < rest[d]
      ensures ChunkId(d, i) in db2 && IsChunkOf(embed, d, db2[ChunkId(d, i)])
    {
      assert ChunkId(d, i) in Recorded(rest);
      assert d in docs && docs[d] == rest[d];
    }
  }

  /** db2 holds doc's new chunks in place of its old ones, and the chunks of all other documents as before. */
  ghost predicate Replaced(embed: Str -> Vector, docs: map<Str, nat>, db: Db, db2: Db, doc: Str, chunks: seq<Chunk>) {
    && (forall i: nat | i < |chunks| ::
          ChunkId(doc, i) in db2 && db2[ChunkId(doc, i)] == ChunkEntry(embed, doc, chunks[i].text))
    && (forall d, i: nat | d in docs && d != doc && i < docs[d] ::
          ChunkId(d, i) in db && ChunkId(d, i) in db2 && db2[ChunkId(d, i)] == db[ChunkId(d, i)])
  }

  lemma IngestReplaces(embed: Str -> Vector, docs: map<Str, nat>, db: Db, left: Db, doc: Str, chunks: seq<Chunk>)
    requires db.Keys == Recorded(docs)
    requires left == if doc in docs then db - FirstIds(doc, docs[doc]) else db
    ensures var n, r := |chunks|, Stored(embed, left, doc, chunks);
            && r.Keys == Recorded(if n == 0 then docs - {doc} else docs[doc := n])
            && Replaced(embed, docs, db, r, doc, chunks)
  {
    hide ChunkId, ChunkEntry, Stored, Recorded, FirstIds;
    var r := Stored(embed, left, doc, chunks);
    StoredMeans(embed, left, doc, chunks);
    RecordedAfter(docs, doc, |chunks|);
    assert left.Keys == Recorded(docs - {doc});
    forall d, i: nat | d in docs && d != doc && i < docs[d]
      ensures ChunkId(d, i) in db && ChunkId(d, i) in r && r[ChunkId(d, i)] == db[ChunkId(d, i)]
    {
      OtherDocument(docs, doc, |chunks|, d, i);
      assert ChunkId(d, i) in left && left[ChunkId(d, i)] == db[ChunkId(d, i)];
    }
  }

  /** A recorded chunk of another document is not among doc's ids. */
  lemma OtherDocument(docs: map<Str, nat>, doc: Str, n: nat, d: Str, i: nat)
    requires d in docs && d != doc && i < docs[d]
    ensures ChunkId(d, i) in Recorded(docs - {doc}) && ChunkId(d, i) in Recorded(docs)
    ensures ChunkId(d, i) !in FirstIds(doc, n)
  {
    hide ChunkId;
    assert d in docs - {doc} && (docs - {doc})[d] == docs[d];
    if ChunkId(d, i) in FirstIds(doc, n) {
      var j: nat :| j < n && ChunkId(d, i) == ChunkId(doc, j);
      ChunkIdInjective(d, i, doc, j);
    }
  }

  /** db after storing chunks under the ids doc#0, doc#1, ... */
  ghost function Stored(embed: Str -> Vector, db: Db, doc: Str, chunks: seq<Chunk>): Db
    decreases |chunks|
  {
    if chunks == [] then db else
      var n := |chunks| - 1;
      Stored(embed, db, doc, chunks[..n])[ChunkId(doc, n) := ChunkEntry(embed, doc, chunks[n].text)]
  }

  lemma {:induction false} StoredMeans(embed: Str -> Vector, db: Db, doc: Str, chunks: seq<Chunk>)
    ensures var r := Stored(embed, db, doc, chunks);
            && r.Keys == db.Keys + FirstIds(doc, |chunks|)
            && (forall i: nat | i < |chunks| ::
                  ChunkId(doc, i) in r && r[ChunkId(doc, i)] == ChunkEntry(embed, doc, chunks[i].text))
            && (forall x | x in db && x !in FirstIds(doc, |chunks|) :: r[x] == db[x])
    decreases |chunks|
  {
    hide ChunkId, ChunkEntry;
    if chunks == [] {
      assert FirstIds(doc, 0) == {};
    } else {
      var n := |chunks| - 1;
      var before, r := Stored(embed, db, doc, chunks[..n]), Stored(embed, db, doc, chunks);
      StoredMeans(embed, db, doc, chunks[..n]);
      assert r == before[ChunkId(doc, n) := ChunkEntry(embed, doc, chunks[n].text)];
      OneMore(doc, n);
      hide FirstIds, Stored;
      forall i: nat | i < |chunks|
        ensures ChunkId(doc, i) in r && r[ChunkId(doc, i)] == ChunkEntry(embed, doc, chunks[i].text)
      {
        if i < n {
          if ChunkId(doc, i) == ChunkId(doc, n) { ChunkIdInjective(doc, i, doc, n); }
          assert chunks[..n][i] == chunks[i];
        }
      }
    }
  }

  /** What is recorded once doc has n chunks. */
  lemma RecordedAfter(docs: map<Str, nat>, doc: Str, n: nat)
    ensures Recorded(docs[doc := n]) == Recorded(docs - {doc}) + FirstIds(doc, n)
    ensures doc in docs ==> Recorded(docs) - FirstIds(doc, docs[doc]) == Recorded(docs - {doc})
    ensures doc !in docs ==> Recorded(docs) == Recorded(docs - {doc})
    ensures n == 0 ==> FirstIds(doc, n) == {}
  {
    RecordedWithout(docs[doc := n], doc);
    assert docs[doc := n] - {doc} == docs - {doc};
    if doc in docs { RecordedWithout(docs, doc); } else { assert docs - {doc} == docs; }
  }

  lemma OneMore(doc: Str, i: nat)
    ensures FirstIds(doc, i + 1) == FirstIds(doc, i) + {ChunkId(doc, i)}
  {}

  lemma OneMoreErased(db: Db, doc: Str, i: nat)
    ensures db - FirstIds(doc, i + 1) == (db - FirstIds(doc, i)) - {ChunkId(doc, i)}
  {
    OneMore(doc, i);
  }

  lemma NoneErased(db: Db, doc: Str)
    ensures db - FirstIds(doc, 0) == db
  {}
}
