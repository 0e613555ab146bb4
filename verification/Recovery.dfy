/**
 What the engine promises across crashes (src/engine.cpp, src/log_store.cpp).  Memory is the
 map from external ids to entries; the disk is an optional snapshot blob and the log's bytes.
 Writes, snapshots, crashes and reopenings are steps of a state machine, and the theorems
 say what recovery yields after every run of them.
 */
module Recovery {
  import opened Types
  import opened LittleEndian
  import opened OpCodec
  import opened LogStore

  // ---------------------------------------------------------------- operations on the map

  datatype Entry = Entry(vec: Vector, meta: Metadata)

  type Db = map<Str, Entry>

  /** VectorStore::apply, seen through external ids. */
  function Apply(dim: nat, db: Db, op: Op): Result<Db> {
    match op.kind
    case Insert =>
      if |op.vec| != dim then Err(BadDimension)
      else Ok(db[op.ext := Entry(op.vec, if op.meta.Some? then op.meta.value else map[])])
    case Update =>
      if op.ext !in db then Ok(db)
      else if |op.vec| != dim then Err(BadDimension)
      else Ok(db[op.ext := Entry(op.vec, if op.meta.Some? then op.meta.value else db[op.ext].meta)])
    case Delete => Ok(db - {op.ext})
  }

  /** The three operations on the map, by cases. */
  lemma ApplyMeans(dim: nat, db: Db, ext: Str, vec: Vector, meta: Option<Metadata>)
    ensures |vec| == dim ==>
              Apply(dim, db, Op(Insert, ext, vec, meta))
              == Ok(db[ext := Entry(vec, match meta case Some(m) => m case None => map[])])
    ensures |vec| == dim && ext in db ==>
              Apply(dim, db, Op(Update, ext, vec, meta))
              == Ok(db[ext := Entry(vec, match meta case Some(m) => m case None => db[ext].meta)])
    ensures ext !in db ==> Apply(dim, db, Op(Update, ext, vec, meta)) == Ok(db)
    ensures |vec| != dim ==> Apply(dim, db, Op(Insert, ext, vec, meta)) == Err(BadDimension)
    ensures |vec| != dim && ext in db ==> Apply(dim, db, Op(Update, ext, vec, meta)) == Err(BadDimension)
    ensures Apply(dim, db, Op(Delete, ext, vec, meta)) == Ok(db - {ext})
  {}

  function ApplyAll(dim: nat, db: Db, ops: seq<Op>): Result<Db>
    decreases |ops|
  {
    if ops == [] then Ok(db) else
      var db' :- Apply(dim, db, ops[0]);
      ApplyAll(dim, db', ops[1..])
  }

  /** A replay: decode and apply record by record, stopping at the first exception. */
  function ApplyRecords(dim: nat, db: Db, recs: seq<Record>): Result<Db>
    decreases |recs|
  {
    if recs == [] then Ok(db) else
      var op :- Decode(recs[0]);
      var db' :- Apply(dim, db, op);
      ApplyRecords(dim, db', recs[1..])
  }

  // ---------------------------------------------------------------- the snapshot blob

  function BlobFrames(recs: seq<Record>): seq<byte> {
    if recs == [] then [] else Fixed(|recs[0]|, 4) + recs[0] + BlobFrames(recs[1..])
  }

  /** The records that replay_blob finds. */
  function BlobRecords(blob: seq<byte>): seq<Record>
    decreases |blob|
  {
    if |blob| < 4 then [] else
      var len := U32Value(blob[..4]);
      if 4 + len > |blob| then [] else [blob[4..4 + len]] + BlobRecords(blob[4 + len..])
  }

  lemma {:induction false} BlobRoundTrip(recs: seq<Record>)
    requires forall r | r in recs :: Storable(r)
    ensures BlobRecords(BlobFrames(recs)) == recs
    decreases |recs|
  {
    hide Fixed, Number;
    if recs != [] {
      var b, r, rest := BlobFrames(recs), recs[0], BlobFrames(recs[1..]);
      assert Storable(r);
      assert b[..4] == Fixed(|r|, 4) && b[4..4 + |r|] == r && b[4 + |r|..] == rest;
      U32RoundTrip(|r|);
      BlobRoundTrip(recs[1..]);
    }
  }

  /** The blob byte by byte: each record behind its length. */
  lemma BlobBytes()
    ensures BlobFrames([[7, 8], [9]]) == [2, 0, 0, 0, 7, 8, 1, 0, 0, 0, 9]
  {
    hide Fixed;
    FourBytesOf(2);
    FourBytesOf(1);
    var rest: seq<Record> := [[9]];
    assert BlobFrames(rest[1..]) == [];
    assert [[7, 8], [9]][1..] == rest;
  }

  function InsertOf(ext: Str, e: Entry): Op { Op(Insert, ext, e.vec, Some(e.meta)) }

  /** ops re-creates db: one Insert for each live entry, in any order. */
  ghost predicate Dumps(ops: seq<Op>, db: Db) {
    && (forall op | op in ops :: op.ext in db && op == InsertOf(op.ext, db[op.ext]))
    && (forall x | x in db :: InsertOf(x, db[x]) in ops)
  }

  ghost predicate Encodes(recs: seq<Record>, ops: seq<Op>) {
    |recs| == |ops| && forall i | 0 <= i < |ops| :: IsEncoding(recs[i], ops[i])
  }

  /** blob is what snapshot() may write for db. */
  ghost predicate IsSnapshot(blob: seq<byte>, db: Db) {
    exists recs, ops :: Dumps(ops, db) && Encodes(recs, ops) && blob == BlobFrames(recs)
  }

  // ---------------------------------------------------------------- recovery

  datatype Disk = Disk(snapshot: Option<seq<byte>>, log: seq<byte>)

  function Base(dim: nat, disk: Disk): Result<Db> {
    if disk.snapshot.Some? then ApplyRecords(dim, map[], BlobRecords(disk.snapshot.value)) else Ok(map[])
  }

  /** recover(): the snapshot first, then the log on top. */
  function Recover(dim: nat, disk: Disk): Result<Db> {
    var base :- Base(dim, disk);
    ApplyRecords(dim, base, Replayed(disk.log))
  }

  // ---------------------------------------------------------------- replaying twice

  /** All that a sequence of operations does to one key. */
  datatype Effect = Keep | Put(entry: Option<Entry>) | Change(vec: Vector, meta: Option<Metadata>)

  function Act(f: Effect, e: Option<Entry>): Option<Entry> {
    match f
    case Keep => e
    case Put(x) => x
    case Change(vec, meta) =>
      if e.None? then None else Some(Entry(vec, if meta.Some? then meta.value else e.value.meta))
  }

  /** What one operation does to a key; one with a vector of the wrong length does nothing. */
  function EffectOf(dim: nat, op: Op, key: Str): Effect {
    if op.ext != key || !Sized(dim, op) then Keep else
      match op.kind
      case Insert => Put(Some(Entry(op.vec, if op.meta.Some? then op.meta.value else map[])))
      case Update => Change(op.vec, op.meta)
      case Delete => Put(None)
  }

  function Then(f: Effect, g: Effect): (h: Effect)
    ensures forall e :: Act(h, e) == Act(g, Act(f, e))
  {
    match g
    case Keep => f
    case Put(_) => g
    case Change(vec, meta) =>
      match f
      case Keep => g
      case Put(e) => Put(Act(g, e))
      case Change(_, m) => Change(vec, if meta.Some? then meta else m)
  }

  function EffectOfAll(dim: nat, ops: seq<Op>, key: Str): Effect {
    if ops == [] then Keep else Then(EffectOf(dim, ops[0], key), EffectOfAll(dim, ops[1..], key))
  }

  function Lookup(db: Db, key: Str): Option<Entry> { if key in db then Some(db[key]) else None }

  /** A vector of the right length, where the operation carries one. */
  predicate Sized(dim: nat, op: Op) { op.kind.Delete? || |op.vec| == dim }

  /** Memory after one call: a rejected vector leaves it as it was. */
  function Applied(dim: nat, db: Db, op: Op): Db {
    var r := Apply(dim, db, op);
    if r.Ok? then r.value else db
  }

  /** Memory after a sequence of calls, some of which may have been rejected. */
  function Carried(dim: nat, db: Db, ops: seq<Op>): Db
    decreases |ops|
  {
    if ops == [] then db else Carried(dim, Applied(dim, db, ops[0]), ops[1..])
  }

  /** Calls act on each key by their composed effect. */
  lemma {:induction false} CarriedByKey(dim: nat, db: Db, ops: seq<Op>)
    ensures forall k :: Lookup(Carried(dim, db, ops), k) == Act(EffectOfAll(dim, ops, k), Lookup(db, k))
    decreases |ops|
  {
    if ops != [] {
      var db' := Applied(dim, db, ops[0]);
      CarriedByKey(dim, db', ops[1..]);
      forall k
        ensures Lookup(Carried(dim, db, ops), k) == Act(EffectOfAll(dim, ops, k), Lookup(db, k))
      {
        assert Lookup(db', k) == Act(EffectOf(dim, ops[0], k), Lookup(db, k));
      }
    }
  }

  lemma LookupExtensional(a: Db, b: Db)
    requires forall k :: Lookup(a, k) == Lookup(b, k)
    ensures a == b
  {
    assert forall k :: k in a <==> Lookup(a, k).Some?;
    assert forall k | k in a :: a[k] == Lookup(a, k).value && k in b;
    assert forall k | k in b :: Lookup(b, k).Some? && k in a;
    assert forall k | k in a :: b[k] == Lookup(b, k).value;
  }

  /** Making any sequence of calls again over its own result changes nothing. */
  lemma ReplayTwice(dim: nat, db: Db, ops: seq<Op>)
    ensures Carried(dim, Carried(dim, db, ops), ops) == Carried(dim, db, ops)
  {
    CarriedByKey(dim, db, ops);
    var once := Carried(dim, db, ops);
    CarriedByKey(dim, once, ops);
    var twice := Carried(dim, once, ops);
    forall k
      ensures Lookup(twice, k) == Lookup(once, k)
    {
      var f := EffectOfAll(dim, ops, k);
      assert Act(f, Act(f, Lookup(db, k))) == Act(f, Lookup(db, k));
    }
    LookupExtensional(twice, once);
  }

  /** Each operation with a vector of the wrong length is an update that finds its id gone. */
  ghost predicate Harmless(dim: nat, db: Db, ops: seq<Op>) {
    forall i | 0 <= i < |ops| && !Sized(dim, ops[i]) ::
      ops[i].kind.Update? && ops[i].ext !in Carried(dim, db, ops[..i])
  }

  /** A replay, which stops at an exception, gets through exactly then, and yields what the calls did. */
  lemma {:induction false} ReplayIff(dim: nat, db: Db, ops: seq<Op>)
    ensures ApplyAll(dim, db, ops).Ok? <==> Harmless(dim, db, ops)
    ensures ApplyAll(dim, db, ops).Ok? ==> ApplyAll(dim, db, ops).value == Carried(dim, db, ops)
    ensures (forall op | op in ops :: Sized(dim, op)) ==> ApplyAll(dim, db, ops).Ok?
    decreases |ops|
  {
    hide Apply;
    if ops != [] {
      ApplyOkIff(dim, db, ops[0]);
      ReplayIff(dim, Applied(dim, db, ops[0]), ops[1..]);
      HarmlessStep(dim, db, ops);
    }
  }

  lemma ApplyOkIff(dim: nat, db: Db, op: Op)
    ensures Apply(dim, db, op).Ok? <==> Sized(dim, op) || (op.kind.Update? && op.ext !in db)
  {}

  lemma HarmlessStep(dim: nat, db: Db, ops: seq<Op>)
    requires ops != []
    ensures Harmless(dim, db, ops) <==>
            && (Sized(dim, ops[0]) || (ops[0].kind.Update? && ops[0].ext !in db))
            && Harmless(dim, Applied(dim, db, ops[0]), ops[1..])
  {
    hide Applied, Sized;
    var db', rest := Applied(dim, db, ops[0]), ops[1..];
    assert ops[..0] == [];
    assert forall i {:trigger rest[i]} | 0 <= i < |rest| ::
        rest[i] == ops[i + 1] && Carried(dim, db', rest[..i]) == Carried(dim, db, ops[..i + 1]) by {
      forall i | 0 <= i < |rest|
        ensures Carried(dim, db', rest[..i]) == Carried(dim, db, ops[..i + 1])
      {
        assert ops[..i + 1][1..] == rest[..i];
      }
    }
    if Harmless(dim, db, ops) {
      forall i | 0 <= i < |rest| && !Sized(dim, rest[i])
        ensures rest[i].kind.Update? && rest[i].ext !in Carried(dim, db', rest[..i])
      {
        assert !Sized(dim, ops[i + 1]);
      }
    } else {
      var i :| 0 <= i < |ops| && !Sized(dim, ops[i]) &&
               !(ops[i].kind.Update? && ops[i].ext !in Carried(dim, db, ops[..i]));
      if i > 0 { assert rest[i - 1] == ops[i]; }
    }
  }

  /** Without the right lengths a second replay can fail where the first did not. */
  lemma ReplayTwiceNeedsSizes()
    ensures exists ops :: ApplyAll(1, map[], ops).Ok? && ApplyAll(1, ApplyAll(1, map[], ops).value, ops).Err?
  {
    var a: Str := [97];
    var bad, good := Op(Update, a, [], None), Op(Insert, a, [0], None);
    var ops := [bad, good];
    assert ops[1..] == [good] && [good][1..] == [];
    var once := ApplyAll(1, map[], ops);
    assert once == ApplyAll(1, map[], [good]) == Apply(1, map[], good);
    assert Apply(1, once.value, bad).Err?;
  }

  lemma {:induction false} CarriedSnoc(dim: nat, db: Db, ops: seq<Op>, op: Op)
    ensures Carried(dim, db, ops + [op]) == Applied(dim, Carried(dim, db, ops), op)
    decreases |ops|
  {
    hide Applied;
    if ops == [] {
      assert [op][1..] == [];
    } else {
      CarriedSnoc(dim, Applied(dim, db, ops[0]), ops[1..], op);
      assert (ops + [op])[1..] == ops[1..] + [op];
    }
  }

  // ---------------------------------------------------------------- records and operations

  ghost predicate Decodable(recs: seq<Record>) {
    forall r | r in recs :: Decode(r).Ok?
  }

  ghost predicate SizedRecords(dim: nat, recs: seq<Record>) {
    forall r | r in recs :: Decode(r).Ok? && Sized(dim, Decode(r).value)
  }

  ghost function Decoded(recs: seq<Record>): seq<Op>
    requires Decodable(recs)
  {
    if recs == [] then [] else [Decode(recs[0]).value] + Decoded(recs[1..])
  }

  lemma {:induction false} RecordsAreOps(dim: nat, db: Db, recs: seq<Record>)
    requires Decodable(recs)
    ensures ApplyRecords(dim, db, recs) == ApplyAll(dim, db, Decoded(recs))
    ensures SizedRecords(dim, recs) ==> forall op | op in Decoded(recs) :: Sized(dim, op)
    decreases |recs|
  {
    hide Decode;
    if recs != [] {
      assert recs[0] in recs;
      var db' := Apply(dim, db, Decode(recs[0]).value);
      if db'.Ok? { RecordsAreOps(dim, db'.value, recs[1..]); } else { RecordsAreOps(dim, db, recs[1..]); }
      assert Decoded(recs)[1..] == Decoded(recs[1..]);
    }
  }

  lemma {:induction false} DecodedSnoc(recs: seq<Record>, rec: Record)
    requires Decodable(recs) && Decode(rec).Ok?
    ensures Decodable(recs + [rec])
    ensures Decoded(recs + [rec]) == Decoded(recs) + [Decode(rec).value]
    decreases |recs|
  {
    hide Decode;
    if recs == [] {
      assert recs + [rec] == [rec] && [rec][1..] == [];
    } else {
      DecodedSnoc(recs[1..], rec);
      assert (recs + [rec])[1..] == recs[1..] + [rec];
    }
  }

  lemma {:induction false} ApplyRecordsSnoc(dim: nat, db: Db, recs: seq<Record>, rec: Record)
    ensures ApplyRecords(dim, db, recs).Err? ==> ApplyRecords(dim, db, recs + [rec]).Err?
    ensures ApplyRecords(dim, db, recs).Ok? && Decode(rec).Ok? ==>
              ApplyRecords(dim, db, recs + [rec])
              == Apply(dim, ApplyRecords(dim, db, recs).value, Decode(rec).value)
    decreases |recs|
  {
    hide Decode, Apply;
    if recs == [] {
      assert recs + [rec] == [rec];
      assert [rec][1..] == [];
      if Decode(rec).Ok? { var r := Apply(dim, db, Decode(rec).value); }
    } else {
      assert (recs + [rec])[1..] == recs[1..] + [rec];
      if Decode(recs[0]).Ok? {
        var db' := Apply(dim, db, Decode(recs[0]).value);
        if db'.Ok? { ApplyRecordsSnoc(dim, db'.value, recs[1..], rec); }
      }
    }
  }

  // ---------------------------------------------------------------- the state machine

  datatype State = State(db: Db, disk: Disk)

  datatype Step =
    | Write(op: Op)            // insert, update or erase runs to its end, or throws
    | Snapshot                 // snapshot() runs to its end; compact() does the same to db and disk
    | CrashInWrite(op: Op)     // the process dies inside the append, and the engine is reopened
    | CrashInSnapshot          // it dies between publishing the blob and truncating the log
    | Reopen                   // it dies between operations, or is closed

  /** The engine skips the log for an update or erase of an id that is not live. */
  predicate Logged(db: Db, op: Op) { op.kind.Insert? || op.ext in db }

  ghost predicate WriteStep(dim: nat, s: State, op: Op, t: State) {
    if Logged(s.db, op) then
      && t.db == Applied(dim, s.db, op)
      && t.disk.snapshot == s.disk.snapshot
      && exists rec :: IsEncoding(rec, op) && t.disk.log == s.disk.log + Frame(rec)
    else
      t == s
  }

  ghost predicate SnapshotStep(s: State, t: State) {
    && t.db == s.db && t.disk.log == []
    && t.disk.snapshot.Some? && IsSnapshot(t.disk.snapshot.value, s.db)
  }

  /** Only the first `cut` bytes of the frame reached the file. */
  ghost predicate CrashInWriteStep(dim: nat, s: State, op: Op, rec: Record, cut: nat, t: State) {
    && Logged(s.db, op) && IsEncoding(rec, op) && cut <= |Frame(rec)|
    && t.disk == s.disk.(log := s.disk.log + Frame(rec)[..cut])
    && Recover(dim, t.disk) == Ok(t.db)
  }

  ghost predicate Next(dim: nat, s: State, step: Step, t: State) {
    match step
    case Write(op) => WriteStep(dim, s, op, t)
    case Snapshot => SnapshotStep(s, t)
    case CrashInWrite(op) => exists rec, cut :: CrashInWriteStep(dim, s, op, rec, cut, t)
    case CrashInSnapshot =>
      && t.disk.snapshot.Some? && IsSnapshot(t.disk.snapshot.value, s.db) && t.disk.log == s.disk.log
      && Recover(dim, t.disk) == Ok(t.db)
    case Reopen => t.disk == s.disk && Recover(dim, t.disk) == Ok(t.db)
  }

  /** Every record the call may write is below 4 GiB; an insert always carries metadata. */
  ghost predicate Fits(op: Op) {
    && (op.kind.Insert? ==> op.meta.Some?)
    && forall rec | IsEncoding(rec, op) :: Storable(rec)
  }

  ghost predicate WholeRecords(log: seq<byte>) {
    exists recs :: (forall r | r in recs :: Storable(r)) && log == Frames(recs)
  }

  /**
   What the caller must see to: records stay below 4 GiB, and nothing is written behind a torn
   record (a snapshot cuts it off first).
   */
  ghost predicate Allowed(s: State, step: Step) {
    match step
    case Write(op) => Logged(s.db, op) ==> WholeRecords(s.disk.log) && Fits(op)
    case CrashInWrite(op) => WholeRecords(s.disk.log) && Fits(op)
    case _ => true
  }

  /**
   Whether the log holds a rejected operation, and whether it stops a replay.  A half-done
   snapshot that could be reopened has defused it: the replay finds its id gone and skips it.
   */
  datatype Health = Clean | Tainted | Poisoned

  function HealthOf(dim: nat, s: State, health: Health, step: Step): Health {
    match step
    case Write(op) => if Logged(s.db, op) && !Sized(dim, op) then Poisoned else health
    case Snapshot => Clean
    case CrashInSnapshot => if health.Clean? then Clean else Tainted
    case _ => health
  }

  // ---------------------------------------------------------------- the invariant

  ghost predicate GoodDb(dim: nat, db: Db) {
    forall x | x in db :: |db[x].vec| == dim && Fits(InsertOf(x, db[x]))
  }

  ghost predicate GoodLog(log: seq<byte>) {
    var recs := Replayed(log);
    && (forall r | r in recs :: Storable(r))
    && exists t :: TornTail(t) && log == Frames(recs) + t
  }

  /** Memory is the base with every logged call carried out, those that were rejected included. */
  ghost predicate Explains(dim: nat, base: Db, recs: seq<Record>, db: Db) {
    Decodable(recs) && Carried(dim, base, Decoded(recs)) == db
  }

  ghost predicate Inv(dim: nat, s: State, health: Health) {
    && GoodDb(dim, s.db) && GoodLog(s.disk.log) && Base(dim, s.disk).Ok?
    && Explains(dim, Base(dim, s.disk).value, Replayed(s.disk.log), s.db)
    && (health.Clean? ==> SizedRecords(dim, Replayed(s.disk.log)))
    && if health.Poisoned? then Recover(dim, s.disk).Err? else Recover(dim, s.disk) == Ok(s.db)
  }

  lemma FreshEngine(dim: nat)
    ensures Inv(dim, State(map[], Disk(None, [])), Clean)
  {
    hide Frames, Replayed, GoodLog;
    assert [] == Frames([]) by { FramesOfNone(); }
    WholeIsGood([]);
  }

  lemma FramesOfNone()
    ensures Frames([]) == []
  {}

  lemma EmptyIsTorn()
    ensures TornTail([])
  {
    var rec: Record := [];
    assert Storable(rec) && Frame(rec)[..0] == [];
  }

  lemma WholeIsGood(recs: seq<Record>)
    requires forall r | r in recs :: Storable(r)
    ensures Replayed(Frames(recs)) == recs && GoodLog(Frames(recs))
  {
    hide Frames, Replayed, TornTail;
    EmptyIsTorn();
    assert Frames(recs) == Frames(recs) + [];
    ReplayTorn(recs, []);
  }

  /** What the log is after an append that got as far as `cut`. */
  lemma AppendedLog(log: seq<byte>, rec: Record, cut: nat)
    requires WholeRecords(log) && Storable(rec) && cut <= |Frame(rec)|
    ensures GoodLog(log + Frame(rec)[..cut])
    ensures Replayed(log + Frame(rec)[..cut]) ==
            if cut == |Frame(rec)| then Replayed(log) + [rec] else Replayed(log)
  {
    hide Frame, Frames, Replayed;
    var recs :| (forall r | r in recs :: Storable(r)) && log == Frames(recs);
    WholeIsGood(recs);
    if cut == |Frame(rec)| {
      FramesAppend(recs, rec);
      assert Frame(rec)[..cut] == Frame(rec);
      WholeIsGood(recs + [rec]);
    } else {
      var t := Frame(rec)[..cut];
      assert TornTail(t);
      ReplayTorn(recs, t);
    }
  }

  lemma EncodingDecodes(rec: Record, op: Op)
    requires IsEncoding(rec, op) && Storable(rec)
    ensures Decode(rec) == Ok(Kept(op))
  {
    hide OpBytes, Decode;
    var order :| OrderFor(op, order) && rec == OpBytes(op, order);
    ShortRecordIsEncodable(op, order);
    DecodeEncode(op, rec);
  }

  lemma SizeOfEncoding(op: Op, op2: Op, order: seq<Pair>)
    requires OrderFor(op, order) && OrderFor(op2, order) && !op.kind.Delete? && !op2.kind.Delete?
    requires op.ext == op2.ext && |op.vec| == |op2.vec| && op.meta == op2.meta
    ensures |OpBytes(op, order)| == |OpBytes(op2, order)|
  {
    hide Fixed, EntriesBytes, StrBytes;
  }

  lemma FitsAlike(op: Op, op2: Op)
    requires Fits(op) && op2.kind.Insert? && !op.kind.Delete?
    requires op.ext == op2.ext && |op.vec| == |op2.vec| && op.meta == op2.meta && op.meta.Some?
    ensures Fits(op2)
  {
    hide OpBytes, Enumerates;
    forall rec | IsEncoding(rec, op2)
      ensures Storable(rec)
    {
      var order :| OrderFor(op2, order) && rec == OpBytes(op2, order);
      SizeOfEncoding(op, op2, order);
      assert IsEncoding(OpBytes(op, order), op);
    }
  }

  lemma AppliedGood(dim: nat, db: Db, op: Op)
    requires GoodDb(dim, db) && Fits(op)
    ensures GoodDb(dim, Applied(dim, db, op))
  {
    hide Fits;
    var db' := Applied(dim, db, op);
    forall x | x in db'
      ensures |db'[x].vec| == dim && Fits(InsertOf(x, db'[x]))
    {
      if x == op.ext && !op.kind.Delete? && |op.vec| == dim {
        InsertHasMeta(op);
        if op.meta.Some? {
          FitsAlike(op, InsertOf(x, db'[x]));
        } else {
          FitsAlike(InsertOf(x, db[x]), InsertOf(x, db'[x]));
        }
      }
    }
  }

  lemma InsertHasMeta(op: Op)
    requires Fits(op)
    ensures op.kind.Insert? ==> op.meta.Some?
  {}

  // ---------------------------------------------------------------- each step keeps it

  lemma ApplyKept(dim: nat, db: Db, op: Op)
    ensures Apply(dim, db, Kept(op)) == Apply(dim, db, op)
    ensures Sized(dim, Kept(op)) == Sized(dim, op)
    ensures Sized(dim, op) ==> Apply(dim, db, op).Ok?
    ensures Logged(db, op) && !Sized(dim, op) ==> Apply(dim, db, op).Err?
  {}

  /** Recovery after one more whole record. */
  lemma RecoverAppended(dim: nat, s: State, op: Op, rec: Record, disk: Disk)
    requires Base(dim, s.disk).Ok? && IsEncoding(rec, op) && Storable(rec)
    requires disk.snapshot == s.disk.snapshot && Replayed(disk.log) == Replayed(s.disk.log) + [rec]
    ensures Recover(dim, s.disk).Err? ==> Recover(dim, disk).Err?
    ensures Recover(dim, s.disk).Ok? ==> Recover(dim, disk) == Apply(dim, Recover(dim, s.disk).value, op)
  {
    hide Decode, Replayed, Apply, BlobRecords;
    EncodingDecodes(rec, op);
    if Recover(dim, s.disk).Ok? { ApplyKept(dim, Recover(dim, s.disk).value, op); }
    ApplyRecordsSnoc(dim, Base(dim, s.disk).value, Replayed(s.disk.log), rec);
  }

  lemma ExplainsAppended(dim: nat, base: Db, recs: seq<Record>, db: Db, op: Op, rec: Record)
    requires Explains(dim, base, recs, db) && IsEncoding(rec, op) && Storable(rec)
    ensures Explains(dim, base, recs + [rec], Applied(dim, db, op))
    ensures SizedRecords(dim, recs) && Sized(dim, op) ==> SizedRecords(dim, recs + [rec])
  {
    hide Decode, Apply, Decoded, IsEncoding;
    EncodingDecodes(rec, op);
    DecodedSnoc(recs, rec);
    CarriedSnoc(dim, base, Decoded(recs), Kept(op));
    ApplyKept(dim, db, op);
  }

  /** A whole record added to a state that satisfies the invariant, with memory following. */
  lemma AppendKeepsInv(dim: nat, s: State, health: Health, op: Op, rec: Record, t: State)
    requires Inv(dim, s, health) && WholeRecords(s.disk.log) && Fits(op)
    requires Logged(s.db, op) && IsEncoding(rec, op)
    requires t == State(Applied(dim, s.db, op), s.disk.(log := s.disk.log + Frame(rec)))
    ensures Inv(dim, t, if Sized(dim, op) then health else Poisoned)
  {
    hide Decode, Replayed, Apply, GoodDb, GoodLog, Frame, WholeRecords, IsEncoding, Explains, SizedRecords;
    hide BlobRecords;
    assert Storable(rec);
    AppliedGood(dim, s.db, op);
    assert Frame(rec)[..|Frame(rec)|] == Frame(rec);
    AppendedLog(s.disk.log, rec, |Frame(rec)|);
    ApplyKept(dim, s.db, op);
    RecoverAppended(dim, s, op, rec, t.disk);
    ExplainsAppended(dim, Base(dim, s.disk).value, Replayed(s.disk.log), s.db, op, rec);
  }

  lemma WriteKeepsInv(dim: nat, s: State, health: Health, op: Op, t: State)
    requires Inv(dim, s, health) && WriteStep(dim, s, op, t) && Allowed(s, Write(op))
    ensures Inv(dim, t, HealthOf(dim, s, health, Write(op)))
  {
    hide Inv, Frame, WholeRecords, IsEncoding, Applied, Fits;
    if Logged(s.db, op) {
      var rec :| IsEncoding(rec, op) && t.disk.log == s.disk.log + Frame(rec);
      AppendKeepsInv(dim, s, health, op, rec, t);
    }
  }

  /** Recovery from every disk that a crash inside an append can leave. */
  lemma CrashedAppendRecovers(dim: nat, s: State, health: Health, op: Op, rec: Record, cut: nat)
    requires Inv(dim, s, health) && WholeRecords(s.disk.log)
    requires IsEncoding(rec, op) && Storable(rec) && cut <= |Frame(rec)|
    ensures var r := Recover(dim, s.disk.(log := s.disk.log + Frame(rec)[..cut]));
            if health.Poisoned? then r.Err?
            else r == if cut < |Frame(rec)| then Ok(s.db) else Apply(dim, s.db, op)
  {
    hide Decode, Replayed, Apply, GoodDb, GoodLog, Frame, WholeRecords, IsEncoding, Explains, SizedRecords;
    hide BlobRecords;
    AppendedLog(s.disk.log, rec, cut);
    if cut == |Frame(rec)| {
      RecoverAppended(dim, s, op, rec, s.disk.(log := s.disk.log + Frame(rec)[..cut]));
    }
  }

  lemma CrashInWriteKeepsInv(dim: nat, s: State, health: Health, op: Op, rec: Record, cut: nat, t: State)
    requires Inv(dim, s, health) && CrashInWriteStep(dim, s, op, rec, cut, t)
    requires Allowed(s, CrashInWrite(op))
    ensures !health.Poisoned? && Inv(dim, t, health)
    ensures t.db == if cut == |Frame(rec)| then Applied(dim, s.db, op) else s.db
  {
    hide Decode, Replayed, Apply, GoodDb, GoodLog, Frame, WholeRecords, IsEncoding, Explains, SizedRecords;
    hide BlobRecords;
    assert Storable(rec);
    CrashedAppendRecovers(dim, s, health, op, rec, cut);
    AppendedLog(s.disk.log, rec, cut);
    if cut == |Frame(rec)| {
      assert Frame(rec)[..cut] == Frame(rec);
      ApplyKept(dim, s.db, op);
      AppendKeepsInv(dim, s, health, op, rec, t);
    }
  }

  lemma {:induction false} InsertsRebuild(dim: nat, db: Db, acc: Db, recs: seq<Record>, ops: seq<Op>)
    requires |recs| == |ops|
    requires forall i | 0 <= i < |ops| :: Decode(recs[i]) == Ok(ops[i])
    requires forall op | op in ops :: op.ext in db && op == InsertOf(op.ext, db[op.ext]) && Sized(dim, op)
    requires forall x | x in acc :: x in db && acc[x] == db[x]
    ensures ApplyRecords(dim, acc, recs).Ok?
    ensures var r := ApplyRecords(dim, acc, recs).value;
            && (forall x | x in r :: x in db && r[x] == db[x])
            && (forall x | x in acc :: x in r)
            && (forall op | op in ops :: op.ext in r)
    decreases |recs|
  {
    hide Decode;
    if recs != [] {
      assert ops[0] in ops;
      assert Decode(recs[0]) == Ok(ops[0]);
      var acc' := Apply(dim, acc, ops[0]).value;
      InsertsRebuild(dim, db, acc', recs[1..], ops[1..]);
    }
  }

  /** Replaying a snapshot into an empty engine gives back the map it was taken of. */
  lemma SnapshotRebuilds(dim: nat, blob: seq<byte>, db: Db)
    requires GoodDb(dim, db) && IsSnapshot(blob, db)
    ensures ApplyRecords(dim, map[], BlobRecords(blob)) == Ok(db)
  {
    hide Decode, IsEncoding, BlobRecords, BlobFrames, ApplyRecords;
    var recs: seq<Record>, ops: seq<Op> :| Dumps(ops, db) && Encodes(recs, ops) && blob == BlobFrames(recs);
    forall i | 0 <= i < |ops|
      ensures Storable(recs[i]) && Decode(recs[i]) == Ok(ops[i]) && Sized(dim, ops[i])
    {
      assert ops[i] in ops;
      assert Fits(InsertOf(ops[i].ext, db[ops[i].ext]));
      assert IsEncoding(recs[i], ops[i]);
      EncodingDecodes(recs[i], ops[i]);
    }
    BlobRoundTrip(recs);
    InsertsRebuild(dim, db, map[], recs, ops);
    var r := ApplyRecords(dim, map[], recs).value;
    forall x | x in db
      ensures x in r
    {
      assert InsertOf(x, db[x]) in ops;
    }
    assert r == db;
  }

  lemma SnapshotKeepsInv(dim: nat, s: State, health: Health, t: State)
    requires Inv(dim, s, health) && SnapshotStep(s, t)
    ensures Inv(dim, t, Clean)
  {
    hide IsSnapshot, GoodDb, BlobRecords;
    hide Frames, Replayed, GoodLog, Decode;
    SnapshotRebuilds(dim, t.disk.snapshot.value, s.db);
    FramesOfNone();
    WholeIsGood([]);
  }

  /** The operations in the log. */
  ghost function LogOps(s: State): seq<Op>
    requires Decodable(Replayed(s.disk.log))
  {
    Decoded(Replayed(s.disk.log))
  }

  /**
   Recovery from the disk that a crash between publishing a snapshot and truncating the log
   leaves: the whole log is replayed over the map it led to.  That gives the snapshotted map,
   or stops at a rejected operation in the log that still finds its id.
   */
  lemma CrashedSnapshotRecovers(dim: nat, s: State, health: Health, blob: seq<byte>)
    requires Inv(dim, s, health) && IsSnapshot(blob, s.db)
    ensures var r := Recover(dim, Disk(Some(blob), s.disk.log));
            && (r == Ok(s.db) <==> Harmless(dim, s.db, LogOps(s)))
            && (r.Ok? <==> Harmless(dim, s.db, LogOps(s)))
            && (health.Clean? ==> r.Ok?)
  {
    hide IsSnapshot, GoodDb, GoodLog, BlobRecords, Replayed, SizedRecords, Decodable, Decoded, Harmless;
    hide Carried, ApplyAll, ApplyRecords;
    SnapshotRebuilds(dim, blob, s.db);
    var recs := Replayed(s.disk.log);
    RecordsAreOps(dim, s.db, recs);
    ReplayTwice(dim, Base(dim, s.disk).value, Decoded(recs));
    ReplayIff(dim, s.db, Decoded(recs));
  }

  lemma CrashInSnapshotKeepsInv(dim: nat, s: State, health: Health, t: State)
    requires Inv(dim, s, health) && Next(dim, s, CrashInSnapshot, t)
    ensures Inv(dim, t, HealthOf(dim, s, health, CrashInSnapshot)) && t.db == s.db
  {
    hide IsSnapshot, GoodDb, GoodLog, BlobRecords, Replayed, SizedRecords, Decodable, Decoded, Harmless;
    hide Carried, ApplyRecords;
    CrashedSnapshotRecovers(dim, s, health, t.disk.snapshot.value);
    SnapshotRebuilds(dim, t.disk.snapshot.value, s.db);
    ReplayTwice(dim, Base(dim, s.disk).value, LogOps(s));
  }

  lemma NextKeepsInv(dim: nat, s: State, health: Health, step: Step, t: State)
    requires Inv(dim, s, health) && Next(dim, s, step, t) && Allowed(s, step)
    ensures Inv(dim, t, HealthOf(dim, s, health, step))
  {
    hide Replayed, Frame, IsEncoding, IsSnapshot, Decode, GoodDb, GoodLog, Apply, Explains;
    match step
    case Write(op) => WriteKeepsInv(dim, s, health, op, t);
    case Snapshot => SnapshotKeepsInv(dim, s, health, t);
    case CrashInWrite(op) =>
      var rec, cut :| CrashInWriteStep(dim, s, op, rec, cut, t);
      CrashInWriteKeepsInv(dim, s, health, op, rec, cut, t);
    case CrashInSnapshot => CrashInSnapshotKeepsInv(dim, s, health, t);
    case Reopen =>
  }

  // ---------------------------------------------------------------- whole runs

  /** states[0] is a fresh engine and each state follows from the one before by its step. */
  ghost predicate IsRun(dim: nat, states: seq<State>, steps: seq<Step>) {
    && |states| == |steps| + 1
    && states[0] == State(map[], Disk(None, []))
    && forall i | 0 <= i < |steps| :: Next(dim, states[i], steps[i], states[i + 1])
  }

  function HealthAfter(dim: nat, states: seq<State>, steps: seq<Step>, n: nat): Health
    requires n <= |steps| < |states|
  {
    if n == 0 then Clean
    else HealthOf(dim, states[n - 1], HealthAfter(dim, states, steps, n - 1), steps[n - 1])
  }

  ghost predicate Careful(states: seq<State>, steps: seq<Step>)
    requires |steps| < |states|
  {
    forall i | 0 <= i < |steps| :: Allowed(states[i], steps[i])
  }

  lemma {:induction false} RunKeepsInv(dim: nat, states: seq<State>, steps: seq<Step>, n: nat)
    requires IsRun(dim, states, steps) && Careful(states, steps) && n <= |steps|
    ensures Inv(dim, states[n], HealthAfter(dim, states, steps, n))
    decreases n
  {
    hide Inv, Next, Allowed;
    if n == 0 {
      FreshEngine(dim);
    } else {
      RunKeepsInv(dim, states, steps, n - 1);
      assert Next(dim, states[n - 1], steps[n - 1], states[n - 1 + 1]);
      assert Allowed(states[n - 1], steps[n - 1]);
      NextKeepsInv(dim, states[n - 1], HealthAfter(dim, states, steps, n - 1), steps[n - 1], states[n]);
    }
  }

  /**
   At every point of every run, recovery fails exactly when the log is poisoned, and otherwise
   yields the map in memory.
   */
  lemma RunRecovers(dim: nat, states: seq<State>, steps: seq<Step>, n: nat)
    requires IsRun(dim, states, steps) && Careful(states, steps) && n <= |steps|
    ensures Recover(dim, states[n].disk).Err? <==> HealthAfter(dim, states, steps, n).Poisoned?
    ensures !HealthAfter(dim, states, steps, n).Poisoned? ==> Recover(dim, states[n].disk) == Ok(states[n].db)
  {
    RunKeepsInv(dim, states, steps, n);
  }

  /** With vectors of the right length only, no run is ever poisoned. */
  lemma SizedRunRecovers(dim: nat, states: seq<State>, steps: seq<Step>, n: nat)
    requires IsRun(dim, states, steps) && Careful(states, steps) && n <= |steps|
    requires forall step | step in steps && step.Write? :: Sized(dim, step.op)
    ensures Recover(dim, states[n].disk) == Ok(states[n].db)
  {
    StaysClean(dim, states, steps, n);
    RunRecovers(dim, states, steps, n);
  }

  lemma {:induction false} StaysClean(dim: nat, states: seq<State>, steps: seq<Step>, n: nat)
    requires n <= |steps| < |states|
    requires forall step | step in steps && step.Write? :: Sized(dim, step.op)
    ensures HealthAfter(dim, states, steps, n).Clean?
    decreases n
  {
    if n != 0 {
      StaysClean(dim, states, steps, n - 1);
      assert steps[n - 1] in steps;
    }
  }

  /**
   At every point of every run, a crash after any number of bytes of any record being appended
   recovers the map before the operation, or the map after it if the record was complete.
   */
  lemma CrashIsAtomic(dim: nat, states: seq<State>, steps: seq<Step>, n: nat, op: Op, rec: Record, cut: nat)
    requires IsRun(dim, states, steps) && Careful(states, steps) && n <= |steps|
    requires !HealthAfter(dim, states, steps, n).Poisoned? && WholeRecords(states[n].disk.log)
    requires IsEncoding(rec, op) && Storable(rec) && cut <= |Frame(rec)|
    ensures Recover(dim, states[n].disk.(log := states[n].disk.log + Frame(rec)[..cut]))
         == if cut < |Frame(rec)| then Ok(states[n].db) else Apply(dim, states[n].db, op)
  {
    hide Inv, Next, Allowed, Recover;
    RunKeepsInv(dim, states, steps, n);
    CrashedAppendRecovers(dim, states[n], HealthAfter(dim, states, steps, n), op, rec, cut);
  }

  /**
   At every point of every run, poisoned ones included, a crash halfway through a snapshot
   recovers exactly the snapshotted map or throws; it throws exactly when a rejected operation
   in the log still finds its id, never when none was rejected.
   */
  lemma SnapshotIsAtomic(dim: nat, states: seq<State>, steps: seq<Step>, n: nat, blob: seq<byte>)
    requires IsRun(dim, states, steps) && Careful(states, steps) && n <= |steps|
    requires IsSnapshot(blob, states[n].db)
    ensures Decodable(Replayed(states[n].disk.log))
    ensures Recover(dim, Disk(Some(blob), states[n].disk.log)) == Ok(states[n].db)
        <==> Harmless(dim, states[n].db, LogOps(states[n]))
    ensures Recover(dim, Disk(Some(blob), states[n].disk.log)).Ok?
        <==> Harmless(dim, states[n].db, LogOps(states[n]))
    ensures HealthAfter(dim, states, steps, n).Clean? ==> Harmless(dim, states[n].db, LogOps(states[n]))
  {
    hide Next, Allowed, Recover, Harmless, Carried;
    RunKeepsInv(dim, states, steps, n);
    CrashedSnapshotRecovers(dim, states[n], HealthAfter(dim, states, steps, n), blob);
  }

  // ---------------------------------------------------------------- careful by the steps alone

  /** An append was torn since the last snapshot, or may have been. */
  predicate MayBeTorn(steps: seq<Step>, n: nat)
    requires n <= |steps|
  {
    n != 0 && (steps[n - 1].CrashInWrite? || (!steps[n - 1].Snapshot? && MayBeTorn(steps, n - 1)))
  }

  /** Records stay below 4 GiB, and a snapshot separates a crash in an append from the next write. */
  ghost predicate Orderly(steps: seq<Step>) {
    forall i | 0 <= i < |steps| && (steps[i].Write? || steps[i].CrashInWrite?) ::
      Fits(steps[i].op) && !MayBeTorn(steps, i)
  }

  /** Along such a run the log is whole wherever nothing can have torn it. */
  lemma {:induction false} WholeUnlessTorn(dim: nat, states: seq<State>, steps: seq<Step>, n: nat)
    requires IsRun(dim, states, steps) && Orderly(steps) && n <= |steps| && !MayBeTorn(steps, n)
    ensures WholeRecords(states[n].disk.log)
    decreases n
  {
    hide Next, WholeRecords, Fits;
    if n == 0 {
      NothingIsWhole();
    } else {
      assert Next(dim, states[n - 1], steps[n - 1], states[n - 1 + 1]);
      if !steps[n - 1].Snapshot? { WholeUnlessTorn(dim, states, steps, n - 1); }
      NextKeepsWhole(dim, states[n - 1], steps[n - 1], states[n]);
    }
  }

  lemma NothingIsWhole()
    ensures WholeRecords([])
  {
    FramesOfNone();
  }

  lemma NextKeepsWhole(dim: nat, s: State, step: Step, t: State)
    requires Next(dim, s, step, t) && !step.CrashInWrite?
    requires !step.Snapshot? ==> WholeRecords(s.disk.log)
    requires step.Write? ==> Fits(step.op)
    ensures WholeRecords(t.disk.log)
  {
    hide Frame, Frames, IsEncoding, IsSnapshot, Recover, Applied;
    match step
    case Write(op) =>
      if Logged(s.db, op) {
        var rec :| IsEncoding(rec, op) && t.disk.log == s.disk.log + Frame(rec);
        var recs :| (forall r | r in recs :: Storable(r)) && s.disk.log == Frames(recs);
        FramesAppend(recs, rec);
        assert t.disk.log == Frames(recs + [rec]);
      }
    case Snapshot => NothingIsWhole();
    case CrashInSnapshot =>
    case Reopen =>
  }

  lemma OrderlyIsCareful(dim: nat, states: seq<State>, steps: seq<Step>)
    requires IsRun(dim, states, steps) && Orderly(steps)
    ensures Careful(states, steps)
  {
    hide Next, WholeRecords, Fits;
    forall i | 0 <= i < |steps|
      ensures Allowed(states[i], steps[i])
    {
      if steps[i].Write? || steps[i].CrashInWrite? { WholeUnlessTorn(dim, states, steps, i); }
    }
  }

  /**
   The run theorem for every run whose steps are orderly: recovery fails exactly when the log is
   poisoned, and otherwise yields the map in memory; with vectors of the right length only, it
   always does.
   */
  lemma OrderlyRunRecovers(dim: nat, states: seq<State>, steps: seq<Step>, n: nat)
    requires IsRun(dim, states, steps) && Orderly(steps) && n <= |steps|
    ensures Recover(dim, states[n].disk).Err? <==> HealthAfter(dim, states, steps, n).Poisoned?
    ensures !HealthAfter(dim, states, steps, n).Poisoned? ==> Recover(dim, states[n].disk) == Ok(states[n].db)
    ensures (forall step | step in steps && step.Write? :: Sized(dim, step.op)) ==>
              Recover(dim, states[n].disk) == Ok(states[n].db)
  {
    hide Next, Orderly, Careful, Recover;
    OrderlyIsCareful(dim, states, steps);
    RunRecovers(dim, states, steps, n);
    if forall step | step in steps && step.Write? :: Sized(dim, step.op) {
      SizedRunRecovers(dim, states, steps, n);
    }
  }

  /** And a crash in the next append, or halfway through the next snapshot, is as if it had not begun or had ended. */
  lemma OrderlyRunIsAtomic(dim: nat, states: seq<State>, steps: seq<Step>, n: nat,
                           op: Op, rec: Record, cut: nat, blob: seq<byte>)
    requires IsRun(dim, states, steps) && Orderly(steps) && n <= |steps|
    requires IsEncoding(rec, op) && Storable(rec) && cut <= |Frame(rec)| && IsSnapshot(blob, states[n].db)
    ensures !MayBeTorn(steps, n) && !HealthAfter(dim, states, steps, n).Poisoned? ==>
              Recover(dim, states[n].disk.(log := states[n].disk.log + Frame(rec)[..cut]))
              == if cut < |Frame(rec)| then Ok(states[n].db) else Apply(dim, states[n].db, op)
    ensures HealthAfter(dim, states, steps, n).Clean? ==>
              Recover(dim, Disk(Some(blob), states[n].disk.log)) == Ok(states[n].db)
  {
    hide Next, Orderly, Careful, Recover, Harmless, IsSnapshot, IsEncoding, Decode, Apply, Replayed;
    OrderlyIsCareful(dim, states, steps);
    SnapshotIsAtomic(dim, states, steps, n, blob);
    if !MayBeTorn(steps, n) && !HealthAfter(dim, states, steps, n).Poisoned? {
      WholeUnlessTorn(dim, states, steps, n);
      CrashIsAtomic(dim, states, steps, n, op, rec, cut);
    }
  }

  // ---------------------------------------------------------------- what survives

  /** The operations of the first n steps: all that ran to their end, and of those cut short the ones kept. */
  function Done(steps: seq<Step>, kept: seq<bool>, n: nat): seq<Op>
    requires n <= |steps| && n <= |kept|
  {
    if n == 0 then [] else
      Done(steps, kept, n - 1) +
      match steps[n - 1]
      case Write(op) => [op]
      case CrashInWrite(op) => if kept[n - 1] then [op] else []
      case _ => []
  }

  /**
   Memory at any point of any run, through crashes, snapshots and reopenings, is every completed
   call carried out in order, and each interrupted one either wholly or not at all.
   */
  lemma {:induction false} RunIsItsWrites(dim: nat, states: seq<State>, steps: seq<Step>, n: nat)
    returns (kept: seq<bool>)
    requires IsRun(dim, states, steps) && Careful(states, steps) && n <= |steps|
    ensures |kept| == n && states[n].db == Carried(dim, map[], Done(steps, kept, n))
    decreases n
  {
    hide Next, Allowed, Carried, Applied, Inv, Done;
    if n == 0 {
      kept := [];
      NothingDone(dim, steps);
    } else {
      var before := RunIsItsWrites(dim, states, steps, n - 1);
      RunKeepsInv(dim, states, steps, n - 1);
      assert Next(dim, states[n - 1], steps[n - 1], states[n - 1 + 1]) && Allowed(states[n - 1], steps[n - 1]);
      var last := StepIsItsWrite(dim, states[n - 1], HealthAfter(dim, states, steps, n - 1), steps[n - 1], states[n]);
      kept := before + [last];
      DoneNext(dim, steps, before, last, n - 1);
    }
  }

  lemma DoneNext(dim: nat, steps: seq<Step>, kept: seq<bool>, last: bool, n: nat)
    requires n < |steps| && n == |kept|
    ensures var db := Carried(dim, map[], Done(steps, kept, n));
            var db' := Carried(dim, map[], Done(steps, kept + [last], n + 1));
            match steps[n]
            case Write(op) => db' == Applied(dim, db, op)
            case CrashInWrite(op) => db' == if last then Applied(dim, db, op) else db
            case _ => db' == db
  {
    hide Carried, Applied;
    DonePrefix(steps, kept, last, n);
    var ops := Done(steps, kept, n);
    assert ops + [] == ops;
    if steps[n].Write? || steps[n].CrashInWrite? { CarriedSnoc(dim, map[], ops, steps[n].op); }
  }

  lemma NothingDone(dim: nat, steps: seq<Step>)
    ensures Carried(dim, map[], Done(steps, [], 0)) == map[]
  {}

  lemma {:induction false} DonePrefix(steps: seq<Step>, kept: seq<bool>, last: bool, n: nat)
    requires n <= |steps| && n <= |kept|
    ensures Done(steps, kept + [last], n) == Done(steps, kept, n)
    decreases n
  {
    if n != 0 { DonePrefix(steps, kept, last, n - 1); }
  }

  lemma StepIsItsWrite(dim: nat, s: State, health: Health, step: Step, t: State) returns (kept: bool)
    requires Inv(dim, s, health) && Next(dim, s, step, t) && Allowed(s, step)
    ensures match step
            case Write(op) => t.db == Applied(dim, s.db, op)
            case CrashInWrite(op) => t.db == if kept then Applied(dim, s.db, op) else s.db
            case _ => t.db == s.db
  {
    hide Inv, Replayed, Frame, IsEncoding, IsSnapshot, Recover;
    kept := false;
    match step
    case Write(op) => if !Logged(s.db, op) { assert s.db - {op.ext} == s.db; }
    case Snapshot =>
    case CrashInWrite(op) =>
      var rec, cut :| CrashInWriteStep(dim, s, op, rec, cut, t);
      CrashInWriteKeepsInv(dim, s, health, op, rec, cut, t);
      kept := cut == |Frame(rec)|;
    case CrashInSnapshot => CrashInSnapshotKeepsInv(dim, s, health, t);
    case Reopen => BaseOk(dim, s, health);
  }

  /** The disk that the next opening finds when the process dies at this step. */
  ghost predicate Leaves(s: State, step: Step, disk: Disk) {
    match step
    case CrashInWrite(op) =>
      && Logged(s.db, op)
      && exists rec, cut :: IsEncoding(rec, op) && 0 <= cut <= |Frame(rec)|
                            && disk == s.disk.(log := s.disk.log + Frame(rec)[..cut])
    case CrashInSnapshot =>
      disk.snapshot.Some? && IsSnapshot(disk.snapshot.value, s.db) && disk.log == s.disk.log
    case Reopen => disk == s.disk
    case _ => false
  }

  lemma OpenedIsNext(dim: nat, s: State, step: Step, t: State)
    requires Leaves(s, step, t.disk) && Recover(dim, t.disk) == Ok(t.db)
    ensures Next(dim, s, step, t)
  {
    hide Recover, IsEncoding, IsSnapshot, Frame;
    if step.CrashInWrite? {
      var rec, cut :| IsEncoding(rec, step.op) && 0 <= cut <= |Frame(rec)|
                      && t.disk == s.disk.(log := s.disk.log + Frame(rec)[..cut]);
      assert CrashInWriteStep(dim, s, step.op, rec, cut, t);
    }
  }

  /** Where no operation was rejected, every opening after a death succeeds. */
  lemma CleanStateReopens(dim: nat, s: State, step: Step, disk: Disk)
    requires Inv(dim, s, Clean) && Leaves(s, step, disk) && Allowed(s, step)
    requires step.CrashInWrite? ==> Sized(dim, step.op)
    ensures Recover(dim, disk).Ok?
  {
    hide Inv, Recover, IsEncoding, IsSnapshot, Frame, WholeRecords, Harmless, Apply, Replayed;
    match step
    case CrashInWrite(op) =>
      var rec, cut :| IsEncoding(rec, op) && 0 <= cut <= |Frame(rec)|
                      && disk == s.disk.(log := s.disk.log + Frame(rec)[..cut]);
      CrashedAppendRecovers(dim, s, Clean, op, rec, cut);
      ApplyKept(dim, s.db, op);
    case CrashInSnapshot =>
      assert disk == Disk(Some(disk.snapshot.value), s.disk.log);
      HalfSnapshotReopens(dim, s, disk.snapshot.value);
    case Reopen => BaseOk(dim, s, Clean);
  }

  lemma HalfSnapshotReopens(dim: nat, s: State, blob: seq<byte>)
    requires Inv(dim, s, Clean) && IsSnapshot(blob, s.db)
    ensures Recover(dim, Disk(Some(blob), s.disk.log)).Ok?
  {
    hide Recover, IsSnapshot, Harmless, Replayed;
    CrashedSnapshotRecovers(dim, s, Clean, blob);
  }

  // ---------------------------------------------------------------- steps that can and cannot be taken

  /** Every operation has an encoding, so the steps above can always be taken. */
  lemma EncodingExists(op: Op)
    ensures exists rec :: IsEncoding(rec, op)
  {
    var order: seq<Pair> := [];
    if op.meta.Some? { order := SomeOrder(op.meta.value); }
    assert IsEncoding(OpBytes(op, order), op);
  }

  lemma {:induction false} SomeOrder(meta: Metadata) returns (order: seq<Pair>)
    ensures Enumerates(order, meta)
    decreases |meta|
  {
    if meta == map[] {
      order := [];
    } else {
      var k :| k in meta;
      var rest := SomeOrder(meta - {k});
      assert (meta - {k}).Keys == meta.Keys - {k};
      order := rest + [Pair(k, meta[k])];
      forall x | x in meta
        ensures Pair(x, meta[x]) in order
      {
        if x != k { assert x in meta - {k}; }
      }
    }
  }

  /** Writing an operation keeps the engine recoverable exactly when its vector has the right length. */
  lemma RecoverableIff(dim: nat, s: State, health: Health, op: Op, t: State)
    requires Inv(dim, s, health) && !health.Poisoned? && WriteStep(dim, s, op, t) && Allowed(s, Write(op))
    ensures Recover(dim, t.disk) == Ok(t.db) <==> (Logged(s.db, op) ==> Sized(dim, op))
    ensures Recover(dim, t.disk).Ok? <==> (Logged(s.db, op) ==> Sized(dim, op))
  {
    WriteKeepsInv(dim, s, health, op, t);
  }

  /** One insert of a vector that is too short, into a fresh engine: it can never be opened again. */
  lemma PoisonedRun()
    ensures exists states: seq<State>, steps ::
              IsRun(1, states, steps) && Careful(states, steps) && Recover(1, states[|steps|].disk).Err?
  {
    hide Frames, Replayed, Recover, Frame, IsEncoding, OpBytes, Fits;
    var op := Op(Insert, [97], [], Some(map[]));
    ghost var rec := ShortInsert(op);
    var s, t := State(map[], Disk(None, [])), State(map[], Disk(None, Frame(rec)));
    var states, steps := [s, t], [Write(op)];
    assert WriteStep(1, s, op, t) by {
      assert s.disk.log + Frame(rec) == Frame(rec);
    }
    assert WholeRecords(s.disk.log) by {
      FramesOfNone();
    }
    assert HealthAfter(1, states, steps, 1) == HealthOf(1, s, Clean, Write(op)) by {
      assert HealthAfter(1, states, steps, 0) == Clean;
    }
    RunRecovers(1, states, steps, 1);
  }

  lemma ShortInsert(op: Op) returns (rec: Record)
    requires op == Op(Insert, [97], [], Some(map[]))
    ensures IsEncoding(rec, op) && Fits(op)
  {
    hide Fixed;
    assert OrderFor(op, []);
    rec := OpBytes(op, []);
    forall other | IsEncoding(other, op)
      ensures Storable(other)
    {
      var order :| OrderFor(op, order) && other == OpBytes(op, order);
      assert order == [];
    }
  }

  // ---------------------------------------------------------------- writing behind a torn record

  /**
   A crash inside an append leaves a torn record, and the next write lands behind it.  Memory has
   that write; recovery has what the tear and the new frame yield as a file of their own.  The log
   replays as if the tear were not there exactly when the two frames overlap, and then recovery
   has the write too.
   */
  lemma WriteBehindTornTailIff(dim: nat, s: State, health: Health, first: Op, torn: Record, cut: nat, t: State,
                               op: Op, rec: Record, u: State)
    requires Inv(dim, s, health) && Allowed(s, CrashInWrite(first))
    requires CrashInWriteStep(dim, s, first, torn, cut, t) && 0 < cut < |Frame(torn)|
    requires IsEncoding(rec, op) && Storable(rec) && Logged(s.db, op)
    requires WriteStep(dim, t, op, u) && u.disk.log == t.disk.log + Frame(rec)
    ensures t.db == s.db && u.db == Applied(dim, s.db, op)
    ensures Replayed(u.disk.log) == Replayed(s.disk.log) + [rec] <==> Overlaps(Frame(torn)[..cut], rec)
    ensures Overlaps(Frame(torn)[..cut], rec) ==> Recover(dim, u.disk) == Apply(dim, s.db, op)
    ensures Recover(dim, u.disk) == ApplyRecords(dim, s.db, Replayed(Frame(torn)[..cut] + Frame(rec)))
  {
    hide Inv, Frame, Frames, Replayed, Decode, Recover, WriteStep, IsEncoding, Overlaps, Apply, Applied;
    BehindTheTear(dim, s, health, first, torn, cut, t, op, u);
    ghost var recs, tail := LogBehindTear(s, torn, cut, t, u, rec);
    AppendBehindTornTailIff(recs, tail, rec);
    BaseOk(dim, s, health);
    RecoverBehind(dim, s, u.disk, recs, tail + Frame(rec));
    if Overlaps(tail, rec) { RecoverAppended(dim, s, op, rec, u.disk); }
  }

  lemma {:induction false} ApplyRecordsConcat(dim: nat, db: Db, a: seq<Record>, b: seq<Record>)
    requires ApplyRecords(dim, db, a).Ok?
    ensures ApplyRecords(dim, db, a + b) == ApplyRecords(dim, ApplyRecords(dim, db, a).value, b)
    decreases |a|
  {
    hide Decode, Apply;
    if a == [] {
      assert a + b == b;
    } else {
      assert (a + b)[1..] == a[1..] + b;
      ApplyRecordsConcat(dim, Apply(dim, db, Decode(a[0]).value).value, a[1..], b);
    }
  }

  lemma BaseOk(dim: nat, s: State, health: Health)
    requires Inv(dim, s, health)
    ensures Base(dim, s.disk).Ok?
    ensures if health.Poisoned? then Recover(dim, s.disk).Err? else Recover(dim, s.disk) == Ok(s.db)
  {}

  lemma RecoverBehind(dim: nat, s: State, disk: Disk, recs: seq<Record>, rest: seq<byte>)
    requires Recover(dim, s.disk) == Ok(s.db) && disk.snapshot == s.disk.snapshot
    requires (forall r | r in recs :: Storable(r)) && Replayed(s.disk.log) == recs && disk.log == Frames(recs) + rest
    ensures Recover(dim, disk) == ApplyRecords(dim, s.db, Replayed(rest))
  {
    hide Frames, Replayed, ApplyRecords, BlobRecords;
    ReplayFrames(recs, rest);
    ApplyRecordsConcat(dim, Base(dim, s.disk).value, recs, Replayed(rest));
  }

  lemma BehindTheTear(dim: nat, s: State, health: Health, first: Op, torn: Record, cut: nat, t: State,
                      op: Op, u: State)
    requires Inv(dim, s, health) && Allowed(s, CrashInWrite(first)) && Logged(s.db, op)
    requires CrashInWriteStep(dim, s, first, torn, cut, t) && cut < |Frame(torn)| && WriteStep(dim, t, op, u)
    ensures !health.Poisoned? && Storable(torn) && WholeRecords(s.disk.log)
    ensures t.db == s.db && t.disk == s.disk.(log := s.disk.log + Frame(torn)[..cut])
    ensures u.db == Applied(dim, s.db, op) && u.disk.snapshot == s.disk.snapshot
  {
    hide Inv, Frame, Frames, Replayed, Recover, IsEncoding, Applied;
    CrashInWriteKeepsInv(dim, s, health, first, torn, cut, t);
  }

  /** The log in its parts: whole records, the tear and the record behind it. */
  lemma LogBehindTear(s: State, torn: Record, cut: nat, t: State, u: State, rec: Record)
    returns (recs: seq<Record>, tail: seq<byte>)
    requires WholeRecords(s.disk.log) && Storable(torn) && cut < |Frame(torn)|
    requires t.disk.log == s.disk.log + Frame(torn)[..cut] && u.disk.log == t.disk.log + Frame(rec)
    ensures tail == Frame(torn)[..cut] && TornTail(tail)
    ensures (forall r | r in recs :: Storable(r)) && Replayed(s.disk.log) == recs && s.disk.log == Frames(recs)
    ensures u.disk.log == Frames(recs) + (tail + Frame(rec))
  {
    hide Frame, Frames, Replayed;
    recs :| (forall r | r in recs :: Storable(r)) && s.disk.log == Frames(recs);
    tail := Frame(torn)[..cut];
    WholeIsGood(recs);
  }

  /**
   Two ways in which the write is lost: the tear left fewer than four bytes and the record's length
   fits in the bytes still read as its length (16 MiB for one stray byte), or the tear kept its
   header and both pieces are still shorter than the torn frame.
   */
  predicate Hidden(torn: Record, cut: nat, rec: Record) {
    || (1 <= cut <= 3 && |rec| < Power256(4 - cut))
    || (8 <= cut && cut + |Frame(rec)| < |Frame(torn)|)
  }

  /** Then the write is in memory, and recovery gives the map before it. */
  lemma WriteBehindTornTailIsLost(dim: nat, s: State, health: Health, first: Op, torn: Record, cut: nat, t: State,
                                  op: Op, rec: Record, u: State)
    requires Inv(dim, s, health) && Allowed(s, CrashInWrite(first))
    requires CrashInWriteStep(dim, s, first, torn, cut, t) && 0 < cut < |Frame(torn)|
    requires IsEncoding(rec, op) && Logged(s.db, op)
    requires WriteStep(dim, t, op, u) && u.disk.log == t.disk.log + Frame(rec)
    requires Hidden(torn, cut, rec)
    ensures u.db == Applied(dim, s.db, op) && Recover(dim, u.disk) == Ok(s.db)
  {
    hide Inv, Frame, Frames, Replayed, Decode, WriteStep, OpBytes, Apply, Applied, Power256;
    BehindTheTear(dim, s, health, first, torn, cut, t, op, u);
    ghost var recs, tail := LogBehindTear(s, torn, cut, t, u, rec);
    BaseOk(dim, s, health);
    if cut <= 3 {
      EncodingNotEmpty(rec, op);
      StrayBytesLoseRecord(recs, tail, rec);
    } else {
      TornHeaderSwallows(recs, torn, cut, Frame(rec));
    }
  }

  lemma EncodingNotEmpty(rec: Record, op: Op)
    requires IsEncoding(rec, op)
    ensures |rec| >= 1
  {
    hide StrBytes, VectorBytes, U32Bytes, OptMetaBytes;
  }
}
