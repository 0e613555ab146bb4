# toy-vector-db in Dafny

A model of the database below its HTTP shell, with proofs: the durable engine (write-ahead log,
snapshots, recovery), the vector store, the exact and the HNSW index, parallel batch search, and the
document chunker. `dafny verify dfyconfig.toml` checks everything.

What the modules are, from the bytes up:

- `LittleEndian`, `Crc32`, `OpCodec`, `LogStore` -- integers in bytes, the record checksum, the record
  format with its Writer and Reader, and the framed log file.
- `Recovery` -- the map from external ids to entries, the disk (optional snapshot blob, log bytes), a
  state machine of writes, snapshots, crashes and reopenings, and the theorems about its runs.
- `VectorStore` -- arena, tombstones and id tables as a class that refines that map.
- `Nearest`, `Bitset`, `FlatIndex` -- what "the k nearest" means, the allowed-set, the exact index.
- `Graph`, `LayerWalk`, `Visited`, `HnswSearch`, `HnswGraph`, `HnswIndex` -- one layer of the graph and
  what the traversals achieve on it, the search of a layer as a function, the epoch-stamped visited set,
  the invariant of the layered graph, and the index itself.
- `BatchSearch` -- worker ranges and every interleaving of the workers.
- `Engine`, `Answers`, `EngineRuns` -- the engine class, whose methods take the steps of `Recovery`, what
  its searches answer, and what becomes of it over whole runs.
- `Text`, `Prompt`, `RagEngine` -- tokens and chunks, prompts within a budget, the RAG engine.

Definitions that the code and its contracts share -- the checksum's polynomial, formats, character classes,
the template, what an insertion does to the graph -- are pinned by lemmas that do not use them: by concrete
bytes and numbers, or in terms of the metric, the vectors and the parameters (names ending in `Bytes`,
`Values`, `Letters`, `Text` and `Means`).

How the source is read. Objects with mutable fields are classes, and each method is proved against a
function or relation on values. A distance is a `real` given by an arbitrary function of two vectors;
a float is its 32-bit pattern. `std::priority_queue` and `std::sort` are methods known by their
contracts only, so ties are broken arbitrarily. The order of an unordered map is an arbitrary
enumeration, the level of a new HNSW node an arbitrary number, a metadata filter an arbitrary
predicate, and the scheduler of worker threads an arbitrary choice. A crash is a process crash: bytes
already written survive. Exceptions are `Err` results. 32-bit registers and 64-bit words are lists of
bits, least significant first. Casts to `uint32_t` are written out as dropping the higher bytes.

Main results:

- The engine recovers (`EngineRuns.ExecuteRecovers`). Let a program make any calls on a new durable engine,
  and let its process die in any of them after any byte, with a snapshot or compaction between a death in
  a write and the next write, and records below 4 GiB. Then the engine holds every completed write in order and each interrupted one wholly or not
  at all; opening its disk again throws exactly when the log is poisoned by an operation that was rejected
  for its vector length, and otherwise gives back what the engine holds; with vectors of the right length
  no opening ever throws.
- It rests on theorems about every point of every run of the state machine: what memory holds
  (`Recovery.RunIsItsWrites`), what recovery yields (`RunRecovers`), and that a crash inside an append or
  between publishing a snapshot and truncating the log is atomic (`CrashIsAtomic`, `SnapshotIsAtomic`).
  They are stated for logs that are whole wherever something is written, which follows from the order of
  the steps (`OrderlyIsCareful`, `OrderlyRunRecovers`, `OrderlyRunIsAtomic`).
- A record appended behind a torn one is replayed as on a clean log exactly when the two frames overlap;
  a few stray bytes or a torn header lose it, and with it a write that memory has
  (`LogStore.AppendBehindTornTailIff`, `Recovery.WriteBehindTornTailIff`, `WriteBehindTornTailIsLost`).
- Engines that hold the same map, and one engine before and after compaction, answer every query on which
  they are exact with the same scores (`Answers.SameAnswers`, `CompactKeepsAnswers`). A batch search, under
  every interleaving of its threads, answers each query as a search of its own does: with the same scores
  where the search is exact, and with the same result, exact or not, when no two slots are equally far
  (`Engine.Engine.SearchBatch`, `Answers.BatchIsSerial`).
- A layer search of the HNSW index carries a certificate, adding nodes keeps the graph invariant and is
  described completely, and a search is exact when everything eligible is reachable and `ef` covers it
  -- and, when all is asked for, only then. When no two nodes are equally far, a search is a function of
  the graph and the query (`HnswIndex.HnswIndex.SearchLayer`, `Add`, `Search`).
- A prompt that the RAG engine builds keeps its token budget under a condition on budget, query and number
  of chunks that is exact for chunks holding a token (`RagEngine.RagEngine.BuildPrompt`,
  `Prompt.NoneBlankBudgetIff`).
- Two payloads that differ only inside four consecutive bytes never share a checksum
  (`Crc32.BurstDetected`), and a log altered so replays exactly the records before.

Where the code does not do what one might expect, the code is kept and the exact behaviour is proved:

- A vector of the wrong length is logged before it is rejected (src/engine.cpp:41-52), and the record
  makes recovery throw until the next snapshot: `RecoverableIff`, `RunRecovers`, `PoisonedRun`.
- Nothing cuts a torn record off (src/log_store.cpp:92-110), although include/toyvdb/crc32.hpp:13 says
  the log is truncated there, so writes behind it can be lost: `WriteBehindTornTailIff` says exactly when
  one is not, `WriteBehindTornTailIsLost` gives two families that are. The theorems about runs ask for a
  snapshot or compaction before the next write that is logged (`Recovery.Allowed`, `EngineRuns.Prudent`).
- A live HNSW node can have no links and be unreachable: `IsolatedLiveNode`.
- The prompt's reserve has room for ten bullets only, although include/toyvdb/rag.hpp:78-79 says the whole
  prompt stays within budget. `NoneBlankBudgetIff` says for which budgets and numbers of chunks it does,
  whatever the chunks, if each holds a token -- as all do that `build_prompt` passes, since `ingest` stores
  no others. `BudgetKeptIff` is the bound for a direct caller of `PromptBuilder::build`, who may pass blank
  ones too; `Overrun` and `NoneBlankOverrun` give lists that break the budget.
- include/toyvdb/crc32.hpp:10 names the CRC-32 of section 3.2.9 of IEEE 802.3, whose reflected
  polynomial is 0xEDB88320; the code's constant is 0xEDB88820, and the model has the code's.
- include/toyvdb/op_codec.hpp:15-19 omits the metadata presence byte that src/op_codec.cpp:109-116
  writes; include/toyvdb/vector_store.hpp:28 says an Insert without metadata leaves it unchanged, while
  src/vector_store.cpp:46-47 stores an empty map. The model follows the code in both.

## Model

| member | source | states |
|---|---|---|
| `Crc32.ShiftBijective` | include/toyvdb/crc32.hpp:20 | each step of the shift register is a bijection, with an explicit inverse, because the polynomial's top bit is set |
| `Crc32.TableStep` | include/toyvdb/crc32.hpp:31-34 | one table look-up and shift does what xoring a byte in and eight register steps do |
| `Crc32.MakeTable` | include/toyvdb/crc32.hpp:15-25 | entry i is eight register steps applied to i, and entry 128 is the number 0xEDB88820 |
| `Crc32.Crc32` | include/toyvdb/crc32.hpp:29-36 | the table-driven loop returns the bit-serial checksum of any data |
| `Crc32.ChecksumValues` | include/toyvdb/crc32.hpp:20-36 | the checksums of no bytes, of FF FF FF FF and of FF FF FF 7F are the numbers 0, 0xFFFFFFFF and 0x124777DF |
| `Crc32.BurstDetected` | include/toyvdb/crc32.hpp:10-36 | two payloads of equal length that differ only inside four consecutive bytes have different checksums |
| `LogStore.ReplayFrames` | src/log_store.cpp:45-59 | replaying framed records followed by any bytes yields those records, then what the bytes alone yield |
| `LogStore.ReplayTorn` | src/log_store.cpp:92-108 | whole records followed by any proper prefix of one more frame replay as exactly the whole records, in order |
| `LogStore.ReplayStopsAtCorruption` | src/log_store.cpp:104-106 | a payload altered inside four consecutive bytes stops the replay with exactly the records before it |
| `LogStore.FrameBytes` | src/log_store.cpp:45-56 | a frame byte by byte: checksum, then length, both lowest byte first, then the payload |
| `LogStore.FirstReplayed` | src/log_store.cpp:68-108 | a file's first replayed record is a given one exactly when the file begins with its frame |
| `LogStore.AppendBehindTornTailIff` | src/log_store.cpp:32-57 | a record appended behind any torn tail is replayed, after the whole records before it and alone, exactly when there was no tail or the tail repeats inside the new frame |
| `LogStore.StrayBytesLoseRecord` | src/log_store.cpp:92-102 | behind one, two or three stray bytes every record whose length fits in three, two or one bytes is never replayed |
| `LogStore.TornHeaderSwallows` | src/log_store.cpp:92-102 | a tear that kept its header swallows everything appended until the torn length is reached |
| `LogStore.FileLogStore.Append` | src/log_store.cpp:45-59 | the file grows by one frame, header then payload, at whatever its end is |
| `LogStore.FileLogStore.Replay` | src/log_store.cpp:68-111 | the read loop yields the records of the reference reader, stopping at the first short or corrupt frame |
| `LogStore.FileLogStore.Truncate` | src/log_store.cpp:113-120 | the file is empty |
| `OpCodec.DecodeEncode` | src/op_codec.cpp:58-145 | decoding an encoding gives the operation back (of a Delete, its id) for every enumeration order of the metadata, if lengths and counts are below 2^32 |
| `OpCodec.ProperPrefixRejected` | src/op_codec.cpp:36-40 | every proper prefix of every encoding is rejected |
| `OpCodec.OpLocal` | src/op_codec.cpp:121-145 | a record that decodes is decoded the same whatever bytes follow it, and reading stays inside it |
| `OpCodec.ShortRecordIsEncodable` | src/op_codec.cpp:19-25 | a record below 4 GiB stored every one of its lengths and counts exactly |
| `OpCodec.RecordBytes` | src/op_codec.cpp:102-119 | an insert, an update without metadata and an erase, byte by byte |
| `OpCodec.EntryFormat` | src/op_codec.cpp:58-83 | a metadata entry of each of the four types, byte by byte |
| `OpCodec.UnknownTypeRejected` | src/op_codec.cpp:125-132 | a record without or with an unknown type byte is rejected; 1, 2 and 3 are insert, update and delete |
| `OpCodec.UnknownTagRejected` | src/op_codec.cpp:85-98 | an unknown value tag is rejected; any nonzero byte is true; any nonzero flag announces metadata |
| `OpCodec.LaterEntryWins` | src/op_codec.cpp:85-98 | of two entries with one key the later one counts |
| `OpCodec.EncodeOp` | src/op_codec.cpp:102-119 | the Writer produces an encoding of the operation for some enumeration of its metadata |
| `OpCodec.DecodeOp` | src/op_codec.cpp:121-145 | the Reader computes the reference decoder on all bytes, with the same exceptions |
| `OpCodec.Writer.WriteEntries` | src/op_codec.cpp:58-83 | the entries are appended one after the other in the order given |
| `OpCodec.Reader.Entries` | src/op_codec.cpp:85-98 | the loop reads the counted entries, a repeated key overwriting, or throws where the reference does |
| `Recovery.ApplyMeans` | src/vector_store.cpp:43-108 | what the three operations do to the map, and when they throw, case by case |
| `Recovery.BlobBytes` | src/engine.cpp:229-244 | a blob byte by byte: each record behind its length |
| `Recovery.ReplayTwice` | src/vector_store.cpp:43-108 | making any sequence of calls, rejected ones included, over its own result changes nothing |
| `Recovery.CarriedByKey` | src/vector_store.cpp:43-108 | calls act on each key by one composed effect: keep, put or change |
| `Recovery.ReplayIff` | src/engine.cpp:250-275 | a replay gets through exactly when every operation with a wrong length is an update that finds its id gone, and then yields what the calls did; with right lengths only it always does |
| `Recovery.ReplayTwiceNeedsSizes` | src/vector_store.cpp:87-95 | without the right lengths a second replay can throw where the first did not |
| `Recovery.BlobRoundTrip` | src/engine.cpp:250-260 | replay_blob finds exactly the records that were framed into the blob |
| `Recovery.SnapshotRebuilds` | src/engine.cpp:223-260 | replaying a snapshot into an empty engine gives the map it was taken of |
| `Recovery.WriteKeepsInv` | src/engine.cpp:39-91 | after a write, recovery yields memory's map, or throws exactly when the log is poisoned; memory is the base with every logged call carried out; a write that logs nothing may come behind a torn record |
| `Recovery.CrashedAppendRecovers` | src/log_store.cpp:55-56 | any number of a frame's bytes at the end of the log recover the map before the operation, or after it (or its exception) when all were written |
| `Recovery.CrashInWriteKeepsInv` | src/log_store.cpp:55-56 | reopening on such a disk keeps the invariant, so runs go on from there |
| `Recovery.SnapshotKeepsInv` | src/engine.cpp:223-248 | a snapshot makes the engine recoverable again, also from a torn or poisoned log |
| `Recovery.CrashedSnapshotRecovers` | src/engine.cpp:246-247 | the new blob with the old log recovers the snapshotted map, or throws exactly when a rejected operation in the log still finds its id |
| `Recovery.CrashInSnapshotKeepsInv` | src/engine.cpp:246-247 | reopening on that disk keeps the invariant, so runs go on from there |
| `Recovery.RunRecovers` | src/engine.cpp:262-275 | at every point of every run, recovery throws exactly when the log is poisoned, and otherwise yields memory's map |
| `Recovery.SizedRunRecovers` | src/engine.cpp:262-275 | with vectors of the right length only, recovery always yields memory's map |
| `Recovery.CrashIsAtomic` | src/engine.cpp:39-67 | at every point of every run, a crash after any number of bytes of any record recovers the map before the operation, or after it if the record was complete |
| `Recovery.SnapshotIsAtomic` | src/engine.cpp:223-248 | at every point of every run, a crash halfway through a snapshot recovers exactly the snapshotted map or throws; it throws exactly when a rejected operation in the log still finds its id, never when none was rejected |
| `Recovery.OrderlyIsCareful` | src/engine.cpp:39-67 | if records are below 4 GiB and a snapshot separates each crash in an append from the next write, the log is whole wherever something is written |
| `Recovery.OrderlyRunRecovers` | src/engine.cpp:262-275 | at every point of every such run, recovery throws exactly when the log is poisoned, and otherwise yields memory's map; with vectors of the right length it always does |
| `Recovery.OrderlyRunIsAtomic` | src/engine.cpp:223-248 | at every point of every such run, a crash in the next append or halfway through the next snapshot is as if it had not begun or had ended |
| `Recovery.RunIsItsWrites` | src/engine.cpp:39-91 | memory at every point of every run is every completed write carried out in order, and each interrupted one wholly or not at all |
| `Recovery.CleanStateReopens` | src/engine.cpp:30-36 | where no operation was rejected, opening succeeds on every disk that a death can leave |
| `Recovery.EncodingExists` | src/op_codec.cpp:102-119 | every operation has an encoding, so no step is blocked for want of one |
| `Recovery.RecoverableIff` | src/engine.cpp:41-52 | a write leaves the engine recoverable exactly when it was not logged or its vector has the right length |
| `Recovery.PoisonedRun` | src/engine.cpp:41-52 | one insert of a vector that is too short into a fresh engine is a run after which recovery throws |
| `Recovery.WriteBehindTornTailIff` | src/log_store.cpp:32-57 | after a crash that tore a record, a write changes memory, and the log replays as if the tear were not there exactly when the two frames overlap; then recovery has the write, and in every case it has what tear and frame yield by themselves |
| `Recovery.WriteBehindTornTailIsLost` | src/log_store.cpp:32-57 | after such a crash, a write behind one to three bytes (if its length fits the bytes still read), or behind a torn header (if both pieces are shorter than the torn frame), is in memory and not in what recovery yields |
| `VectorStore.RowsOverwrite` | src/vector_store.cpp:66 | overwriting one row of the arena changes that row and no other |
| `VectorStore.VectorStore.Insert` | src/vector_store.cpp:59-85 | refines the map's insert; revives and overwrites a known id's slot or appends the next dense one; other slots untouched; a wrong length changes nothing |
| `VectorStore.VectorStore.Update` | src/vector_store.cpp:87-100 | refines the map's update of a live id; absent metadata is kept; all else, and every failure, changes nothing |
| `VectorStore.VectorStore.Erase` | src/vector_store.cpp:102-108 | refines removal from the map by clearing one flag; no vector moves |
| `VectorStore.VectorStore.Get` | src/vector_store.cpp:110-114 | the slot's row of the arena, live or not |
| `VectorStore.VectorStore.Resolve` | src/vector_store.cpp:116-121 | an internal id exactly for the ids in the map |
| `VectorStore.VectorStore.SizeIsLiveCount` | include/toyvdb/vector_store.hpp:106 | the live count is the number of entries in the map |
| `Bitset.Bitset.Set` | include/toyvdb/bitset.hpp:29 | exactly bit i is added; test() sees it if i is below the size |
| `Bitset.Bitset.Reset` | include/toyvdb/bitset.hpp:30 | exactly bit i is removed |
| `Bitset.Bitset.Test` | include/toyvdb/bitset.hpp:32-35 | membership, false beyond the size |
| `Bitset.Bitset.Intersect` | include/toyvdb/bitset.hpp:38-42 | keeps exactly the bits that the other set has too, stray bits beyond its size included |
| `Nearest.NearestScoresUnique` | include/toyvdb/flat_index.hpp:39-73 | any two lists of k nearest have the same scores, position by position |
| `Nearest.NearestUnique` | include/toyvdb/flat_index.hpp:39-73 | without ties there is one list of k nearest |
| `Nearest.ToAscending` | include/toyvdb/flat_index.hpp:67-72 | draining the max-heap from the back gives the same ids in ascending distance |
| `FlatIndex.Offer` | include/toyvdb/flat_index.hpp:58-64 | one turn of the scan keeps the heap holding the k nearest of what was seen |
| `FlatIndex.FlatIndex.Search` | include/toyvdb/flat_index.hpp:39-73 | min(k, eligible) distinct eligible ids with true distances, ascending, every omitted one no closer |
| `FlatIndex.FlatIndex.Remove` | include/toyvdb/flat_index.hpp:33-37 | every occurrence of the id goes, the rest keep their order |
| `FlatIndex.WithoutMeans` | include/toyvdb/flat_index.hpp:33-37 | removal keeps the list duplicate-free and drops exactly that id |
| `Visited.Visited.Bump` | include/toyvdb/hnsw_index.hpp:90-96 | a fresh, empty set after every call, the 32-bit wrap-around included |
| `Visited.Visited.Ensure` | include/toyvdb/hnsw_index.hpp:87-89 | growing marks nothing once an epoch has begun |
| `Visited.Visited.TestSet` | include/toyvdb/hnsw_index.hpp:97-101 | tells whether the id was marked and marks it alone |
| `Graph.Greedy` | include/toyvdb/hnsw_index.hpp:143-159 | ends on every graph, at a node no farther than the start and with no closer neighbour |
| `HnswIndex.HnswIndex.GreedyUpper` | include/toyvdb/hnsw_index.hpp:143-159 | the loops end where the greedy walk ends |
| `HnswSearch.Consider` | include/toyvdb/hnsw_index.hpp:190-199 | one neighbour keeps the frontier and results such that everything left out is no closer than every result, and changes them as the reference visit does |
| `HnswSearch.FrontierCannotImprove` | include/toyvdb/hnsw_index.hpp:184-185 | stopping early is certified: what remains on the frontier is farther than all results |
| `HnswIndex.HnswIndex.SearchLayer` | include/toyvdb/hnsw_index.hpp:162-210 | returns a certified result: distinct, live, allowed, true distances, the closest of the admissible visited, and gone on from every visited node that is returned or closer than a returned one; without ties it is the reference walk's |
| `LayerWalk.VisitIsDetermined` | include/toyvdb/hnsw_index.hpp:188-201 | when no two nodes are equally far, what happens to a neighbour is a function of the queues as sets |
| `LayerWalk.LeadsOn` | include/toyvdb/hnsw_index.hpp:180-204 | and so is each turn of the main loop, which leads on to the same end |
| `LayerWalk.StopsEarly` | include/toyvdb/hnsw_index.hpp:184-185 | on a concrete graph the walk stops at the bound and leaves the nearest node unfound |
| `HnswIndex.HnswIndex.Traverse` | include/toyvdb/hnsw_index.hpp:180-204 | the main loop returns a certified result and, when no two nodes are equally far, exactly the ids of the reference walk |
| `Graph.LinksOfReturned` | include/toyvdb/hnsw_index.hpp:162-210 | a link out of a returned node leads to a node that is returned, inadmissible, or no closer than all returned |
| `Graph.PathIsFollowed` | include/toyvdb/hnsw_index.hpp:162-210 | a link path from an entry through nodes closer than the worst returned ends at a node that is returned, inadmissible, or no closer |
| `Graph.ShortResultIsComplete` | include/toyvdb/hnsw_index.hpp:185-193 | with fewer than ef results every admissible reachable node is among them |
| `Graph.WideSearchIsExact` | include/toyvdb/hnsw_index.hpp:162-210 | if all admissible nodes are reachable and ef covers their number, all are returned |
| `HnswIndex.HnswIndex.SelectNeighbors` | include/toyvdb/hnsw_index.hpp:213-236 | at most m, ascending, a nearest first, no pick closer to an earlier pick than to the query, everything left out too late or closer to a nearer pick than to the query |
| `Graph.SelectionMeans` | include/toyvdb/hnsw_index.hpp:213-236 | the same of every selection, in ids, distances and the metric |
| `Graph.SelectionHasNearest` | include/toyvdb/hnsw_index.hpp:213-236 | a selection starts with a nearest candidate whenever there is one and m is positive |
| `Graph.ShortSelection` | include/toyvdb/hnsw_index.hpp:213-236 | if fewer than m are kept, everything left out is closer to some pick than to the query |
| `HnswIndex.HnswIndex.Connect` | include/toyvdb/hnsw_index.hpp:239-243 | each end is appended to the other's list on that layer; nothing else changes |
| `HnswIndex.HnswIndex.Prune` | include/toyvdb/hnsw_index.hpp:246-260 | a list within the cap is kept; of a longer one at most cap stay, a nearest first, and every dropped entry is no closer than all of a full list or closer to some kept entry than to the node; nothing else changes |
| `HnswGraph.TrimmedMeans` | include/toyvdb/hnsw_index.hpp:246-260 | what Trimmed says, in metric and vectors, with the kept entries ascending and spread out |
| `HnswGraph.RelinkedMeans` | include/toyvdb/hnsw_index.hpp:303-306 | how linking and pruning change another node's list: not at all, by the new back link, or by thinning the list with it |
| `HnswGraph.TrimmedIsGood` | include/toyvdb/hnsw_index.hpp:246-260 | pruning always restores the cap, invents no link and repeats none |
| `HnswGraph.RelinkedIsGood` | include/toyvdb/hnsw_index.hpp:303-306 | linking a new node on a layer and pruning its neighbours keeps the graph invariant |
| `HnswGraph.DescendLevel` | include/toyvdb/hnsw_index.hpp:287-290 | the descent ends on the layer it was to reach, and not at the new node |
| `HnswGraph.DescendMeans` | include/toyvdb/hnsw_index.hpp:287-290 | the descent never moves away and ends where no neighbour on the last layer it passed is closer |
| `HnswIndex.HnswIndex.LinkLayer` | include/toyvdb/hnsw_index.hpp:298-308 | one layer: a certified search, a selection from it, links both ways, pruned lists; the invariant holds again |
| `HnswIndex.HnswIndex.Add` | include/toyvdb/hnsw_index.hpp:263-315 | keeps the invariant (level+1 lists, links to other nodes that reach the layer, none twice, entry point of maximum level) and the bounds 2M on layer 0 and M above; a built node is left alone; otherwise the whole insertion, layer by layer |
| `HnswGraph.InsertedNode` | include/toyvdb/hnsw_index.hpp:266-285 | the new node's slot, level and mark; it becomes the entry point exactly when it is the first or the highest |
| `HnswGraph.InsertedAlone` | include/toyvdb/hnsw_index.hpp:281-298 | above its own level and the old top layer, and in an empty graph, the new node has no links |
| `HnswGraph.InsertedLinks` | include/toyvdb/hnsw_index.hpp:298-306 | each shared layer: a certified search with efConstruction, a selection of at most M from it, links to that, and neighbours' lists pruned to 2M on layer 0 and to M above |
| `HnswGraph.InsertedEntries` | include/toyvdb/hnsw_index.hpp:286-309 | the top shared layer is searched from the end of the descent, each layer below from all that the one above found, or from its start again if that is nothing |
| `HnswIndex.HnswIndex.Search` | include/toyvdb/hnsw_index.hpp:318-340 | sound always; the k nearest of a certified result; the k nearest of all eligible if these are reachable and ef covers them (or there are none); if k covers them, only if they are reachable; without ties, the k nearest of what the reference walk finds |
| `HnswIndex.SearchBoth` | include/toyvdb/flat_index.hpp:16-17 | where the graph is wide enough for what is eligible, both indexes return the same ascending list of scores; an index without an entry point is included |
| `HnswIndex.IsolatedLiveNode` | include/toyvdb/hnsw_index.hpp:170-172 | insert, erase, insert: one live node, and a search that returns nothing |
| `Engine.Engine.constructor` | src/engine.cpp:19-28 | an empty engine over a given disk, with the metric and the index parameters it was given |
| `Engine.MakeIndex` | src/engine.cpp:20-27 | an empty index of the configured kind, an HNSW one with the configured M and efConstruction; Engine.Valid keeps them |
| `Engine.Engine.ApplyInsert` | src/engine.cpp:47-55 | the map's insert, with the index kept covering the store: the flat list is exactly the live ids, each once; the graph has every slot |
| `Engine.Engine.ApplyErase` | src/engine.cpp:60-64 | the map's removal, with the index kept covering the store |
| `Engine.Engine.ApplyOp` | src/engine.cpp:46-67 | the map operation, or its exception with the map unchanged |
| `Engine.Engine.LogAndApply` | src/engine.cpp:39-67 | a write step: the record is in the log whether or not the vector is then rejected |
| `Engine.Engine.Insert` | src/engine.cpp:69-73 | a write step of the state machine, and the map's insert |
| `Engine.Engine.Update` | src/engine.cpp:75-83 | the same for update; an id that is not live leaves the disk as it was |
| `Engine.Engine.Erase` | src/engine.cpp:85-91 | the same for erase |
| `Engine.Engine.BuildAllowed` | src/engine.cpp:107-112 | a slot is in the bitset exactly if it is live and the filter accepts its metadata |
| `Engine.Engine.Search` | src/engine.cpp:93-115 | throws exactly for a wrong query length; every hit is live, passes the filter and has its true distance; ascending, at most k; with the flat index min(k, passing slots) hits and no passing slot left out is closer; with HNSW the same when the graph reaches all and ef covers them; without ties a determined result |
| `Engine.AnswerMeans` | src/engine.cpp:93-115 | an answer in terms of slots, flags, metadata and the metric |
| `Engine.ReachableMeansExact` | src/engine.cpp:100-114 | an HNSW search is exact where layer 0 leads to all that passes the filter and ef, 64 unless given, covers it |
| `Engine.DefaultEf` | src/engine.cpp:100-101 | ef 0 is answered as ef 64 |
| `Engine.Engine.IndexSearch` | src/engine.cpp:100-114 | the same of one call of the index, given the bitset of the filter |
| `Engine.Engine.SnapshotBytes` | src/engine.cpp:229-244 | one framed Insert per live entry |
| `Engine.Engine.Snapshot` | src/engine.cpp:223-248 | a snapshot step; in between, the disk is the new blob with the old log |
| `Engine.Engine.Compact` | src/engine.cpp:186-221 | the map is kept, every slot is live, slots equal size, and a durable engine takes a snapshot step |
| `Engine.Engine.ReplayBlob` | src/engine.cpp:250-260 | applies the blob's records in order, or throws where the reference does |
| `Engine.Engine.Recover` | src/engine.cpp:262-275 | computes the reference recovery of the disk, which it leaves alone |
| `Engine.Open` | src/engine.cpp:30-36 | opening succeeds exactly when recovery does, with the recovered map, the disk unchanged, and the configured metric and index kind |
| `Answers.SameAnswers` | src/engine.cpp:262-275 | two engines with the same map, such as one before a crash and the one recovered, return the same scores for every query, k and filter on which both are exact |
| `Answers.CompactKeepsAnswers` | src/engine.cpp:186-221 | a query before and after compact() of one engine gets the same scores: always with the flat index, with HNSW where both searches are exact |
| `EngineRuns.Perform` | include/toyvdb/engine.hpp:52-85 | every call but a reopening is, on the engine itself, the step of the state machine that it stands for |
| `EngineRuns.DiskLeft` | src/engine.cpp:39-67 | a death in a call leaves a disk of the state machine's: part of one record, or the new blob with the old log, or what was there |
| `EngineRuns.Happen` | src/engine.cpp:30-36 | a call, or a death in it and the opening afterwards, is its step, or the opening throws on the disk that was left |
| `EngineRuns.Execute` | include/toyvdb/engine.hpp:52-85 | every sequence of calls on a new durable engine, with deaths in them, is a run of the state machine up to the first opening that throws |
| `EngineRuns.NeverRefused` | src/engine.cpp:262-275 | with vectors of the right length and a snapshot between a death in a write and the next write, no opening throws |
| `EngineRuns.ExecuteRecovers` | src/engine.cpp:262-275 | with a snapshot between a death in a write and the next write: the engine holds every completed write in order and each interrupted one wholly or not at all; recovering its disk throws exactly when the log is poisoned and otherwise gives what it holds; with vectors of the right length no opening throws |
| `BatchSearch.Ranges` | src/engine.cpp:157-174 | for all query and thread counts the ranges follow each other without gap or overlap and cover all queries, each but the last of ceil(n / threads) queries |
| `BatchSearch.ThreadCount` | src/engine.cpp:157-159 | as asked, else the hardware's, else one, but never more than there are queries |
| `BatchSearch.RangesPartition` | src/engine.cpp:166-174 | every query belongs to exactly one worker |
| `BatchSearch.EveryInterleavingAnswers` | src/engine.cpp:146-178 | every interleaving of worker steps that finishes has, in every slot, a result that the search may give for that query |
| `BatchSearch.TakeStep` | src/engine.cpp:146-155 | a worker with work left can always take its step, which keeps the interleaving and leaves less to do |
| `Engine.Engine.SearchBatch` | src/engine.cpp:117-180 | a wrong length anywhere throws before any search; otherwise slot i holds an answer to query i as `search` gives it, with one bitset built for the filter, for every thread count and under any scheduler |
| `Engine.Engine.RunWorkers` | src/engine.cpp:146-178 | the workers' searches are an interleaving, so every slot holds an answer |
| `Answers.BatchIsSerial` | src/engine.cpp:93-180 | a batch fails exactly when a search of its own per query does; slot by slot it has the same scores where the search is exact, and the same result when no two slots are equally far (or, where exact, no two matching ones) |
| `Answers.AnswersAgree` | src/engine.cpp:93-115 | any two results of one search agree in the same way |
| `Text.Tokenize` | src/rag.cpp:15-30 | computes the reference tokenizer |
| `Text.Characters` | src/rag.cpp:19-25 | the six white-space characters, and lower case for the letters A to Z alone |
| `Text.TokensSplit` | src/rag.cpp:15-30 | the tokens on the two sides of a white space do not see each other |
| `Text.JoinRoundTrip` | src/rag.cpp:55-62 | tokenizing joined tokens gives the tokens back |
| `Text.JoinOfTwo` | src/rag.cpp:57-61 | one space between two tokens, none around them |
| `Text.ChunkText` | src/rag.cpp:45-67 | every chunk but the last has `window` tokens (1 if that is 0) and shares `overlap` with the next (window - 1 if overlap is not below window); the first starts and the last ends the text; each is its tokens joined, and re-tokenizing gives them back |
| `Text.CountInNumbers` | src/rag.cpp:49-66 | how many chunks there are, in window and overlap |
| `Prompt.TemplateText` | src/rag.cpp:109-115 | the prompt piece by piece, in words, line ends, bullets and query |
| `Prompt.PromptCost` | src/rag.cpp:109-115 | a prompt has 14 + query + chunk tokens + one per bullet |
| `Prompt.TakenFits` | src/rag.cpp:98-107 | the chunks taken fit what is available and the next one would not |
| `Prompt.WithinBudgetIff` | src/rag.cpp:92-107 | with the reserve covered, the prompt is within budget exactly when its bullets exceed the unused tokens by at most ten; otherwise exactly when 14, the query and the blank chunks in front are |
| `Prompt.BudgetKeptIff` | src/rag.cpp:90-116 | for every budget, query and n: all lists of at most n chunks keep the budget exactly when n is at most ten with the reserve covered, and at most budget - query - 14 without |
| `Prompt.FewChunksFit` | src/rag.cpp:90-116 | a list within that bound always fits |
| `Prompt.Overrun` | src/rag.cpp:92-107 | at every budget some list one longer than the bound overruns it |
| `Prompt.NoneBlankBudgetIff` | src/rag.cpp:90-116 | for every budget, query and n: all lists of at most n chunks that hold a token keep the budget exactly when it covers query + 14 and n is at most 10 or it is at most query + 34 |
| `Prompt.NoneBlankFits` | src/rag.cpp:90-116 | a list within that bound always fits |
| `Prompt.NoneBlankOverrun` | src/rag.cpp:92-107 | ten one-word chunks and one that fills the rest overrun every budget above query + 34 |
| `Prompt.Build` | src/rag.cpp:90-116 | the prompt of the greedily taken chunks |
| `RagEngine.RagEngine.constructor` | src/rag.cpp:118-119 | an empty engine with the configuration it was given |
| `RagEngine.ChunkIdLetters` | src/rag.cpp:138 | the id is the document, '#' and the number in decimal |
| `RagEngine.ChunkIdInjective` | src/rag.cpp:138 | different documents or numbers give different ids, whatever characters a document id has |
| `RagEngine.RecordedCount` | src/rag.cpp:141-145 | as many ids are recorded as the counts add up to |
| `RagEngine.RagEngine.Ingest` | src/rag.cpp:121-147 | live ids stay exactly those recorded, each holding a chunk of its document with a token in it; the document has its new chunks, each embedded and labelled with the document and its text, and no old ones; other documents are untouched |
| `RagEngine.RagEngine.Remove` | src/rag.cpp:177-185 | the document's ids go and nothing else |
| `RagEngine.RagEngine.SizeIsTotal` | src/rag.cpp:121-147 | the store's size is the sum of the recorded counts |
| `RagEngine.RagEngine.Retrieve` | src/rag.cpp:149-170 | at most k chunks, one per hit of the search for the embedded query and in its order, each of an ingested document and with a token in it |
| `RagEngine.RagEngine.BuildPrompt` | src/rag.cpp:172-175 | the prompt of what is retrieved, within the budget whenever that covers query + 14 and at most ten chunks are asked for or it is at most query + 34 |

## Left out

- include/toyvdb/metadata.hpp: comparisons and filter trees; a filter is an arbitrary predicate on metadata, which covers every tree.
- include/toyvdb/distance.hpp: the three metrics and their rounding; no property depends on which function the distance is.
- src/blob_store.cpp and the POSIX calls of src/log_store.cpp: publishing a blob is one atomic step, the log is its bytes, `fsync` and power loss are not modelled.
- Slot numbers of 2^32 and above, and vectors of 2^32 floats and above, whose length check wraps: ids and lengths are unbounded here.
- Negative `M` and `efConstruction`: both are natural numbers; `HnswParams::efSearch` is never read by the source.
- BatchSearch: a worker's search and the store of its result are one step; memory ordering is the join at the end.
- Which of several equally distant ids is returned: it depends on the standard library.
- The probability distribution of node levels, and recall percentages.
- Bitset: `count` and `clear`; nothing calls them.
- VectorStore: the constructor's refusal of dimension 0 is at `Engine.Open`, the only place that can report it.
- RagEngine: `embed` is any function to vectors of the right length.
- Engine: `flush`, which only syncs; the returned internal id of `insert`, which is that of `ApplyInsert`.
- server/, bench/, examples/: transport, timing and printing.
- Recovery.RunRecovers: assumes records below 4 GiB, and a snapshot or compaction between a torn record and the next write that is logged; what happens without one is stated by `WriteBehindTornTailIff` and `WriteBehindTornTailIsLost`.
