/**
 The record format of src/op_codec.cpp.  Encoders are functions to byte strings, decoders
 are functions of a byte string and an offset, and the Writer and Reader classes below are
 proved against them.  Metadata is an unordered map, so an encoding depends on the order in
 which it is enumerated; every statement is for every order.
 */
module OpCodec {
  import opened Types
  import opened LittleEndian

  // ---------------------------------------------------------------- encoders

  function U32Bytes(n: nat): (s: seq<byte>)
    ensures |s| == 4
  {
    Fixed(n, 4)
  }

  function U64Bytes(n: nat): (s: seq<byte>)
    ensures |s| == 8
  {
    Fixed(n, 8)
  }

  function StrBytes(s: Str): seq<byte> { U32Bytes(|s|) + s }

  function VectorBytes(v: Vector): (s: seq<byte>)
    ensures |s| == 4 * |v|
  {
    seq(4 * |v|, k requires 0 <= k < 4 * |v| => U32Bytes(v[k / 4])[k % 4])
  }

  function ValueBytes(v: MetaValue): seq<byte> {
    match v
    case IntValue(i) => [0] + U64Bytes(Pattern(i))
    case DoubleValue(d) => [1] + U64Bytes(d)
    case StrValue(s) => [2] + StrBytes(s)
    case BoolValue(b) => [3, if b then 1 else 0]
  }

  /** One key and value of a metadata map. */
  datatype Pair = Pair(key: Str, value: MetaValue)

  function EntryBytes(p: Pair): seq<byte> { StrBytes(p.key) + ValueBytes(p.value) }

  function EntriesBytes(order: seq<Pair>): seq<byte> {
    if order == [] then [] else EntryBytes(order[0]) + EntriesBytes(order[1..])
  }

  /** order lists the entries of meta, each once. */
  ghost predicate Enumerates(order: seq<Pair>, meta: Metadata) {
    && |order| == |meta|
    && (forall p | p in order :: p.key in meta && meta[p.key] == p.value)
    && (forall k | k in meta :: Pair(k, meta[k]) in order)
  }

  function OptMetaBytes(meta: Option<Metadata>, order: seq<Pair>): seq<byte> {
    if meta.Some? then [1] + (U32Bytes(|meta.value|) + EntriesBytes(order)) else [0]
  }

  function KindByte(k: OpKind): byte {
    match k case Insert => 1 case Update => 2 case Delete => 3
  }

  /** A well-formed choice of enumeration for op's metadata. */
  ghost predicate OrderFor(op: Op, order: seq<Pair>) {
    op.meta.Some? ==> Enumerates(order, op.meta.value)
  }

  ghost function OpBytes(op: Op, order: seq<Pair>): seq<byte>
    requires OrderFor(op, order)
  {
    [KindByte(op.kind)] + StrBytes(op.ext) +
    if op.kind.Delete? then [] else
      U32Bytes(|op.vec|) + VectorBytes(op.vec) + OptMetaBytes(op.meta, order)
  }

  /** rec is what encode_op may produce for op. */
  ghost predicate IsEncoding(rec: seq<byte>, op: Op) {
    exists order :: OrderFor(op, order) && rec == OpBytes(op, order)
  }

  // ---------------------------------------------------------------- decoders

  /** A decoded value and the offset after it, or the exception. */
  datatype Parsed<+T> = Got(value: T, next: nat) | Failed(error: Error) {
    predicate IsFailure() { Failed? }

    function PropagateFailure<U>(): Parsed<U>
      requires Failed?
    {
      Failed(error)
    }

    function Extract(): (T, nat)
      requires Got?
    {
      (value, next)
    }
  }

  function ParseRaw(s: seq<byte>, off: nat, n: nat): (r: Parsed<seq<byte>>)
    ensures r.Got? ==> |r.value| == n
  {
    if off + n > |s| then Failed(Truncated) else Got(s[off..off + n], off + n)
  }

  function ParseU8(s: seq<byte>, off: nat): Parsed<byte> {
    var (b, next) :- ParseRaw(s, off, 1);
    Got(b[0], next)
  }

  function ParseU32(s: seq<byte>, off: nat): (r: Parsed<nat>)
    ensures r.Got? ==> r.value < U32_LIMIT
  {
    var (b, next) :- ParseRaw(s, off, 4);
    Got(U32Value(b), next)
  }

  function ParseU64(s: seq<byte>, off: nat): Parsed<Double> {
    var (b, next) :- ParseRaw(s, off, 8);
    Got(U64Value(b), next)
  }

  function ParseStr(s: seq<byte>, off: nat): Parsed<Str> {
    var (n, next) :- ParseU32(s, off);
    ParseRaw(s, next, n)
  }

  function VectorOf(b: seq<byte>, n: nat): Vector
    requires |b| == 4 * n
  {
    seq(n, i requires 0 <= i < n => U32Value(b[4 * i..4 * i + 4]))
  }

  function ParseVector(s: seq<byte>, off: nat): Parsed<Vector> {
    var (n, next) :- ParseU32(s, off);
    var (b, next') :- ParseRaw(s, next, 4 * n);
    Got(VectorOf(b, n), next')
  }

  /** The two's complement bits of i, and back. */
  function Pattern(i: Int64): Double { if i < 0 then i + U64_LIMIT else i }

  function Signed(p: Double): Int64 {
    if p < 0x8000_0000_0000_0000 then p else p - U64_LIMIT
  }

  function ParseValue(s: seq<byte>, off: nat): Parsed<MetaValue> {
    var (tag, next) :- ParseU8(s, off);
    if tag == 0 then
      var (p, next') :- ParseU64(s, next);
      Got(IntValue(Signed(p)), next')
    else if tag == 1 then
      var (p, next') :- ParseU64(s, next);
      Got(DoubleValue(p), next')
    else if tag == 2 then
      var (t, next') :- ParseStr(s, next);
      Got(StrValue(t), next')
    else if tag == 3 then
      var (b, next') :- ParseU8(s, next);
      Got(BoolValue(b != 0), next')
    else
      Failed(BadValueType)
  }

  /** The loop of decode_metadata: a repeated key overwrites. */
  function ParseEntries(s: seq<byte>, off: nat, count: nat, acc: Metadata): Parsed<Metadata>
    decreases count
  {
    if count == 0 then Got(acc, off) else
      var (key, n1) :- ParseStr(s, off);
      var (v, n2) :- ParseValue(s, n1);
      ParseEntries(s, n2, count - 1, acc[key := v])
  }

  function ParseOptMeta(s: seq<byte>, off: nat): Parsed<Option<Metadata>> {
    var (flag, n1) :- ParseU8(s, off);
    if flag == 0 then Got(None, n1) else
      var (count, n2) :- ParseU32(s, n1);
      var (m, n3) :- ParseEntries(s, n2, count, map[]);
      Got(Some(m), n3)
  }

  function ParseOp(s: seq<byte>): Parsed<Op> {
    var (t, n1) :- ParseU8(s, 0);
    if t < 1 || t > 3 then Failed(BadOpType) else
      var kind := if t == 1 then Insert else if t == 2 then Update else Delete;
      var (ext, n2) :- ParseStr(s, n1);
      if kind.Delete? then Got(Op(kind, ext, [], None), n2) else
        var (vec, n3) :- ParseVector(s, n2);
        var (meta, n4) :- ParseOptMeta(s, n3);
        Got(Op(kind, ext, vec, meta), n4)
  }

  /** decode_op.  Bytes after the record's own are ignored. */
  function Decode(s: seq<byte>): Result<Op> {
    match ParseOp(s)
    case Got(op, _) => Ok(op)
    case Failed(e) => Err(e)
  }

  // ---------------------------------------------------------------- the format byte by byte

  /** Records of the three kinds, with and without metadata; 1.0f is 0x3F800000. */
  lemma RecordBytes(id: byte)
    ensures OpBytes(Op(Insert, [id], [0x3F80_0000], Some(map[])), [])
         == [1, 1, 0, 0, 0, id, 1, 0, 0, 0, 0, 0, 0x80, 0x3F, 1, 0, 0, 0, 0]
    ensures OpBytes(Op(Update, [id], [], None), []) == [2, 1, 0, 0, 0, id, 0, 0, 0, 0, 0]
    ensures OpBytes(Op(Delete, [id], [], None), []) == [3, 1, 0, 0, 0, id]
  {
    hide Fixed, VectorBytes;
    FourBytesOf(1);
    FourBytesOf(0);
    OneFloat();
    InsertBytes(id);
  }

  lemma InsertBytes(id: byte)
    ensures OpBytes(Op(Insert, [id], [0x3F80_0000], Some(map[])), [])
         == [1] + ([1, 0, 0, 0] + [id]) + ([1, 0, 0, 0] + [0, 0, 0x80, 0x3F] + ([1] + ([0, 0, 0, 0] + [])))
  {
    hide Fixed, VectorBytes;
    FourBytesOf(1);
    FourBytesOf(0);
    OneFloat();
  }

  lemma OneFloat()
    ensures VectorBytes([0x3F80_0000]) == [0, 0, 0x80, 0x3F] && VectorBytes([]) == []
  {
    hide Fixed;
    FourBytesOf(0x3F80_0000);
    var v: Vector := [0x3F80_0000];
    forall k | 0 <= k < 4
      ensures VectorBytes(v)[k] == U32Bytes(0x3F80_0000)[k]
    {
    }
  }

  /** One metadata entry of each type: key, tag, value. */
  lemma EntryFormat(k: byte, x: byte)
    ensures EntryBytes(Pair([k], IntValue(-1))) == [1, 0, 0, 0, k, 0] + seq(8, _ => 255)
    ensures EntryBytes(Pair([k], DoubleValue(x))) == [1, 0, 0, 0, k, 1, x, 0, 0, 0, 0, 0, 0, 0]
    ensures EntryBytes(Pair([k], StrValue([x]))) == [1, 0, 0, 0, k, 2, 1, 0, 0, 0, x]
    ensures EntryBytes(Pair([k], BoolValue(true))) == [1, 0, 0, 0, k, 3, 1]
    ensures EntryBytes(Pair([k], BoolValue(false))) == [1, 0, 0, 0, k, 3, 0]
  {
    hide Fixed;
    FourBytesOf(1);
    EightBytes(x);
  }

  lemma EightBytes(x: byte)
    ensures Fixed(x, 8) == [x, 0, 0, 0, 0, 0, 0, 0] && Fixed(U64_LIMIT - 1, 8) == seq(8, _ => 255)
  {
    hide Power256;
    Powers();
    assert Fixed(x, 8) == [x % 256] + Fixed(x / 256, 7) && x / 256 == 0;
    FixedZero(7);
    FixedAllOnes(0xFFFF_FFFF_FFFF_FFFF, 8);
  }

  /** decode_op accepts the type bytes 1, 2 and 3 only, and needs one. */
  lemma UnknownTypeRejected(s: seq<byte>)
    ensures s == [] ==> Decode(s) == Err(Truncated)
    ensures s != [] && s[0] !in [1, 2, 3] ==> Decode(s) == Err(BadOpType)
    ensures Decode(s).Ok? ==>
              s != [] && Decode(s).value.kind == if s[0] == 1 then Insert else if s[0] == 2 then Update else Delete
  {
    hide ParseStr, ParseVector, ParseOptMeta;
  }

  /** Value tags above 3 are rejected; any nonzero byte is true, and any nonzero flag announces metadata. */
  lemma UnknownTagRejected(s: seq<byte>, off: nat)
    requires off < |s|
    ensures s[off] > 3 ==> ParseValue(s, off) == Failed(BadValueType)
    ensures s[off] == 3 && off + 1 < |s| ==> ParseValue(s, off) == Got(BoolValue(s[off + 1] != 0), off + 2)
    ensures ParseOptMeta(s, off).Got? ==> (ParseOptMeta(s, off).value.Some? <==> s[off] != 0)
  {
    hide ParseStr, ParseU64, ParseEntries, ParseU32;
  }

  /** Of two entries with one key the later one counts. */
  lemma LaterEntryWins(k: byte, a: bool, b: bool)
    ensures var s := EntriesBytes([Pair([k], BoolValue(a)), Pair([k], BoolValue(b))]);
            ParseEntries(s, 0, 2, map[]) == Got(map[[k] := BoolValue(b)], |s|)
  {
    hide EntriesBytes;
    var x, y := Pair([k], BoolValue(a)), Pair([k], BoolValue(b));
    var order := [x, y];
    assert At(EntriesBytes(order), 0, EntriesBytes(order));
    ParseEntriesAt(EntriesBytes(order), 0, order, map[]);
    assert order[1..] == [y] && [y][1..] == [];
    var m: Metadata := map[];
    assert Filled(m, order) == Filled(m[[k] := BoolValue(a)], [y]) == m[[k] := BoolValue(a)][[k] := BoolValue(b)];
    assert m[[k] := BoolValue(a)][[k] := BoolValue(b)] == map[[k] := BoolValue(b)];
  }

  // ---------------------------------------------------------------- round trip

  /** e occupies s at off. */
  ghost predicate At(s: seq<byte>, off: nat, e: seq<byte>) {
    off + |e| <= |s| && s[off..off + |e|] == e
  }

  lemma AtSplit(s: seq<byte>, off: nat, a: seq<byte>, b: seq<byte>)
    requires At(s, off, a + b)
    ensures At(s, off, a) && At(s, off + |a|, b)
  {
    assert s[off..off + |a|] == s[off..off + |a + b|][..|a|] == a;
    assert s[off + |a|..off + |a| + |b|] == s[off..off + |a + b|][|a|..] == b;
  }

  lemma ParseU32At(s: seq<byte>, off: nat, n: nat)
    requires n < U32_LIMIT && At(s, off, U32Bytes(n))
    ensures ParseU32(s, off) == Got(n, off + 4)
  {
    U32RoundTrip(n);
  }

  lemma ParseU64At(s: seq<byte>, off: nat, n: nat)
    requires n < U64_LIMIT && At(s, off, U64Bytes(n))
    ensures ParseU64(s, off) == Got(n, off + 8)
  {
    U64RoundTrip(n);
  }

  lemma ParseStrAt(s: seq<byte>, off: nat, t: Str)
    requires |t| < U32_LIMIT && At(s, off, StrBytes(t))
    ensures ParseStr(s, off) == Got(t, off + |StrBytes(t)|)
  {
    AtSplit(s, off, U32Bytes(|t|), t);
    ParseU32At(s, off, |t|);
  }

  lemma VectorRoundTrip(v: Vector)
    ensures VectorOf(VectorBytes(v), |v|) == v
  {
    hide Fixed, Number;
    forall i | 0 <= i < |v|
      ensures U32Value(VectorBytes(v)[4 * i..4 * i + 4]) == v[i]
    {
      assert VectorBytes(v)[4 * i..4 * i + 4] == U32Bytes(v[i]);
      U32RoundTrip(v[i]);
    }
  }

  lemma ParseVectorAt(s: seq<byte>, off: nat, v: Vector)
    requires |v| < U32_LIMIT && At(s, off, U32Bytes(|v|) + VectorBytes(v))
    ensures ParseVector(s, off) == Got(v, off + 4 + 4 * |v|)
  {
    AtSplit(s, off, U32Bytes(|v|), VectorBytes(v));
    ParseU32At(s, off, |v|);
    VectorRoundTrip(v);
  }

  ghost predicate Short(v: MetaValue) { v.StrValue? ==> |v.s| < U32_LIMIT }

  lemma ParseIntAt(s: seq<byte>, off: nat, i: Int64)
    requires At(s, off, [0] + U64Bytes(Pattern(i)))
    ensures ParseValue(s, off) == Got(IntValue(i), off + 9)
  {
    hide U64Bytes, ParseU64;
    AtSplit(s, off, [0], U64Bytes(Pattern(i)));
    ParseU64At(s, off + 1, Pattern(i));
  }

  lemma ParseDoubleAt(s: seq<byte>, off: nat, d: Double)
    requires At(s, off, [1] + U64Bytes(d))
    ensures ParseValue(s, off) == Got(DoubleValue(d), off + 9)
  {
    hide U64Bytes, ParseU64;
    AtSplit(s, off, [1], U64Bytes(d));
    ParseU64At(s, off + 1, d);
  }

  lemma ParseTextAt(s: seq<byte>, off: nat, t: Str)
    requires |t| < U32_LIMIT && At(s, off, [2] + StrBytes(t))
    ensures ParseValue(s, off) == Got(StrValue(t), off + 1 + |StrBytes(t)|)
  {
    hide StrBytes, ParseStr;
    AtSplit(s, off, [2], StrBytes(t));
    ParseStrAt(s, off + 1, t);
  }

  lemma ParseBoolAt(s: seq<byte>, off: nat, b: bool)
    requires At(s, off, [3, if b then 1 else 0])
    ensures ParseValue(s, off) == Got(BoolValue(b), off + 2)
  {
    assert [3, if b then 1 else 0] == [3] + [if b then 1 else 0];
    AtSplit(s, off, [3], [if b then 1 else 0]);
  }

  lemma ParseValueAt(s: seq<byte>, off: nat, v: MetaValue)
    requires Short(v) && At(s, off, ValueBytes(v))
    ensures ParseValue(s, off) == Got(v, off + |ValueBytes(v)|)
  {
    hide At, ParseValue, U64Bytes, StrBytes;
    match v
    case IntValue(i) => ParseIntAt(s, off, i);
    case DoubleValue(d) => ParseDoubleAt(s, off, d);
    case StrValue(t) => ParseTextAt(s, off, t);
    case BoolValue(b) => ParseBoolAt(s, off, b);
  }

  ghost predicate ShortMeta(meta: Metadata) {
    |meta| < U32_LIMIT && forall k | k in meta :: |k| < U32_LIMIT && Short(meta[k])
  }

  /** acc after storing the entries in order. */
  ghost function Filled(acc: Metadata, order: seq<Pair>): Metadata
    decreases |order|
  {
    if order == [] then acc else Filled(acc[order[0].key := order[0].value], order[1..])
  }

  lemma {:induction false} ParseEntriesAt(s: seq<byte>, off: nat, order: seq<Pair>, acc: Metadata)
    requires forall p | p in order :: |p.key| < U32_LIMIT && Short(p.value)
    requires At(s, off, EntriesBytes(order))
    ensures ParseEntries(s, off, |order|, acc) == Got(Filled(acc, order), off + |EntriesBytes(order)|)
    decreases |order|
  {
    hide ParseStr, ParseValue, StrBytes, ValueBytes;
    if order != [] {
      var p, rest := order[0], order[1..];
      AtSplit(s, off, EntryBytes(p), EntriesBytes(rest));
      AtSplit(s, off, StrBytes(p.key), ValueBytes(p.value));
      ParseStrAt(s, off, p.key);
      ParseValueAt(s, off + |StrBytes(p.key)|, p.value);
      ParseEntriesAt(s, off + |EntryBytes(p)|, rest, acc[p.key := p.value]);
    }
  }

  lemma {:induction false} FilledFromMeta(acc: Metadata, meta: Metadata, order: seq<Pair>)
    requires forall p | p in order :: p.key in meta && meta[p.key] == p.value
    requires forall k | k in acc :: k in meta && acc[k] == meta[k]
    ensures forall k | k in Filled(acc, order) :: k in meta && Filled(acc, order)[k] == meta[k]
    ensures forall k | k in acc :: k in Filled(acc, order)
    ensures forall p | p in order :: p.key in Filled(acc, order)
    decreases |order|
  {
    if order != [] { FilledFromMeta(acc[order[0].key := order[0].value], meta, order[1..]); }
  }

  lemma FilledIsMeta(meta: Metadata, order: seq<Pair>)
    requires Enumerates(order, meta)
    ensures Filled(map[], order) == meta
  {
    FilledFromMeta(map[], meta, order);
    forall k | k in meta
      ensures k in Filled(map[], order)
    {
      assert Pair(k, meta[k]) in order;
    }
  }

  lemma ParseOptMetaAt(s: seq<byte>, off: nat, meta: Option<Metadata>, order: seq<Pair>)
    requires meta.Some? ==> ShortMeta(meta.value) && Enumerates(order, meta.value)
    requires At(s, off, OptMetaBytes(meta, order))
    ensures ParseOptMeta(s, off) == Got(meta, off + |OptMetaBytes(meta, order)|)
  {
    hide Fixed, Number, ParseEntries, EntriesBytes;
    if meta.Some? {
      var m := meta.value;
      AtSplit(s, off, [1], U32Bytes(|m|) + EntriesBytes(order));
      AtSplit(s, off + 1, U32Bytes(|m|), EntriesBytes(order));
      ParseU32At(s, off + 1, |m|);
      ParseEntriesAt(s, off + 5, order, map[]);
      FilledIsMeta(m, order);
    }
  }

  /** Every length and count that the format stores in four bytes fits them. */
  ghost predicate Encodable(op: Op) {
    && |op.ext| < U32_LIMIT
    && (op.kind.Delete? || (|op.vec| < U32_LIMIT && (op.meta.Some? ==> ShortMeta(op.meta.value))))
  }

  /** What the format keeps of an operation: a Delete is its id. */
  function Kept(op: Op): Op {
    if op.kind.Delete? then Op(Delete, op.ext, [], None) else op
  }

  lemma ParseOpOfBytes(op: Op, order: seq<Pair>)
    requires Encodable(op) && OrderFor(op, order)
    ensures ParseOp(OpBytes(op, order)) == Got(Kept(op), |OpBytes(op, order)|)
  {
    hide Fixed, Number, OptMetaBytes, ParseOptMeta;
    var s := OpBytes(op, order);
    var head := [KindByte(op.kind)] + StrBytes(op.ext);
    if op.kind.Delete? {
      assert s == head;
      AtSplit(s, 0, [3], StrBytes(op.ext));
      ParseStrAt(s, 1, op.ext);
    } else {
      var vb, mb := U32Bytes(|op.vec|) + VectorBytes(op.vec), OptMetaBytes(op.meta, order);
      assert s == head + (vb + mb);
      AtSplit(s, 0, head, vb + mb);
      AtSplit(s, 0, [KindByte(op.kind)], StrBytes(op.ext));
      AtSplit(s, |head|, vb, mb);
      ParseStrAt(s, 1, op.ext);
      ParseVectorAt(s, |head|, op.vec);
      ParseOptMetaAt(s, |head| + |vb|, op.meta, order);
    }
  }

  /** decode_op undoes encode_op, whatever order the metadata was enumerated in. */
  lemma DecodeEncode(op: Op, rec: seq<byte>)
    requires Encodable(op) && IsEncoding(rec, op)
    ensures Decode(rec) == Ok(Kept(op))
  {
    var order :| OrderFor(op, order) && rec == OpBytes(op, order);
    ParseOpOfBytes(op, order);
  }

  /** A record below 4 GiB stores every length exactly. */
  lemma ShortRecordIsEncodable(op: Op, order: seq<Pair>)
    requires OrderFor(op, order) && |OpBytes(op, order)| < U32_LIMIT
    ensures Encodable(op)
  {
    hide Fixed, ValueBytes;
    if !op.kind.Delete? && op.meta.Some? {
      EntriesLonger(order);
      forall k | k in op.meta.value
        ensures |k| < U32_LIMIT && Short(op.meta.value[k])
      {
        EntryWithin(order, Pair(k, op.meta.value[k]));
      }
    }
  }

  lemma {:induction false} EntryWithin(order: seq<Pair>, p: Pair)
    requires p in order
    ensures |p.key| <= |EntriesBytes(order)|
    ensures p.value.StrValue? ==> |p.value.s| <= |EntriesBytes(order)|
  {
    if p != order[0] { EntryWithin(order[1..], p); }
  }

  lemma {:induction false} EntriesLonger(order: seq<Pair>)
    ensures |order| <= |EntriesBytes(order)|
  {
    if order != [] { EntriesLonger(order[1..]); }
  }

  // ---------------------------------------------------------------- truncated records

  lemma RawLocal(s: seq<byte>, t: seq<byte>, off: nat, n: nat)
    requires ParseRaw(s, off, n).Got?
    ensures ParseRaw(s + t, off, n) == ParseRaw(s, off, n) && off + n <= |s|
  {
    assert (s + t)[off..off + n] == s[off..off + n];
  }

  lemma U32Local(s: seq<byte>, t: seq<byte>, off: nat)
    requires ParseU32(s, off).Got?
    ensures ParseU32(s + t, off) == ParseU32(s, off) && ParseU32(s, off).next <= |s|
  {
    RawLocal(s, t, off, 4);
  }

  lemma StrLocal(s: seq<byte>, t: seq<byte>, off: nat)
    requires ParseStr(s, off).Got?
    ensures ParseStr(s + t, off) == ParseStr(s, off) && ParseStr(s, off).next <= |s|
  {
    U32Local(s, t, off);
    RawLocal(s, t, off + 4, ParseU32(s, off).value);
  }

  lemma VectorLocal(s: seq<byte>, t: seq<byte>, off: nat)
    requires ParseVector(s, off).Got?
    ensures ParseVector(s + t, off) == ParseVector(s, off) && ParseVector(s, off).next <= |s|
  {
    U32Local(s, t, off);
    RawLocal(s, t, off + 4, 4 * ParseU32(s, off).value);
  }

  lemma ValueLocal(s: seq<byte>, t: seq<byte>, off: nat)
    requires ParseValue(s, off).Got?
    ensures ParseValue(s + t, off) == ParseValue(s, off) && ParseValue(s, off).next <= |s|
  {
    RawLocal(s, t, off, 1);
    var tag := ParseU8(s, off).value;
    if tag <= 1 {
      RawLocal(s, t, off + 1, 8);
    } else if tag == 2 {
      StrLocal(s, t, off + 1);
    } else {
      RawLocal(s, t, off + 1, 1);
    }
  }

  lemma {:induction false} EntriesLocal(s: seq<byte>, t: seq<byte>, off: nat, count: nat, acc: Metadata)
    requires off <= |s| && ParseEntries(s, off, count, acc).Got?
    ensures ParseEntries(s + t, off, count, acc) == ParseEntries(s, off, count, acc)
    ensures ParseEntries(s, off, count, acc).next <= |s|
    decreases count
  {
    if count != 0 {
      StrLocal(s, t, off);
      var key := ParseStr(s, off);
      ValueLocal(s, t, key.next);
      var v := ParseValue(s, key.next);
      EntriesLocal(s, t, v.next, count - 1, acc[key.value := v.value]);
    }
  }

  lemma OptMetaLocal(s: seq<byte>, t: seq<byte>, off: nat)
    requires ParseOptMeta(s, off).Got?
    ensures ParseOptMeta(s + t, off) == ParseOptMeta(s, off) && ParseOptMeta(s, off).next <= |s|
  {
    RawLocal(s, t, off, 1);
    if ParseU8(s, off).value != 0 {
      U32Local(s, t, off + 1);
      EntriesLocal(s, t, off + 5, ParseU32(s, off + 1).value, map[]);
    }
  }

  /** A record that decodes is decoded the same with anything after it. */
  lemma OpLocal(s: seq<byte>, t: seq<byte>)
    requires ParseOp(s).Got?
    ensures ParseOp(s + t) == ParseOp(s) && ParseOp(s).next <= |s|
  {
    RawLocal(s, t, 0, 1);
    StrLocal(s, t, 1);
    var ext := ParseStr(s, 1);
    if ParseU8(s, 0).value != 3 {
      VectorLocal(s, t, ext.next);
      OptMetaLocal(s, t, ParseVector(s, ext.next).next);
    }
  }

  /** decode_op rejects every proper prefix of every encoding. */
  lemma ProperPrefixRejected(op: Op, rec: seq<byte>, cut: nat)
    requires Encodable(op) && IsEncoding(rec, op) && cut < |rec|
    ensures Decode(rec[..cut]).Err?
  {
    var order :| OrderFor(op, order) && rec == OpBytes(op, order);
    ParseOpOfBytes(op, order);
    if ParseOp(rec[..cut]).Got? {
      assert rec == rec[..cut] + rec[cut..];
      OpLocal(rec[..cut], rec[cut..]);
    }
  }

  // ---------------------------------------------------------------- the code

  class Writer {
    var buf: seq<byte>

    constructor ()
      ensures buf == []
    {
      buf := [];
    }

    method Raw(b: seq<byte>)
      modifies this
      ensures buf == old(buf) + b
    {
      buf := buf + b;
    }

    /** Two pieces, one after the other. */
    method Raw2(a: seq<byte>, b: seq<byte>)
      modifies this
      ensures buf == old(buf) + (a + b)
    {
      Raw(a);
      Raw(b);
    }

    method WriteStr(s: Str)
      modifies this
      ensures buf == old(buf) + StrBytes(s)
    {
      Raw2(U32Bytes(|s|), s);
    }

    method WriteValue(v: MetaValue)
      modifies this
      ensures buf == old(buf) + ValueBytes(v)
    {
      hide Fixed;
      match v
      case IntValue(i) => Raw2([0], U64Bytes(Pattern(i)));
      case DoubleValue(d) => Raw2([1], U64Bytes(d));
      case StrValue(s) => Raw2([2], StrBytes(s));
      case BoolValue(b) =>
        Raw2([3], [if b then 1 else 0]);
        assert [3] + [if b then 1 else 0] == ValueBytes(v);
    }

    method WriteEntry(p: Pair)
      modifies this
      ensures buf == old(buf) + EntryBytes(p)
    {
      hide ValueBytes, StrBytes;
      WriteStr(p.key);
      WriteValue(p.value);
    }

    /** encode_metadata, over the entries in the order the hash map yields them. */
    method WriteEntries(order: seq<Pair>)
      modifies this
      ensures buf == old(buf) + EntriesBytes(order)
    {
      hide EntryBytes;
      for i := 0 to |order|
        invariant buf == old(buf) + EntriesBytes(order[..i])
      {
        WriteEntry(order[i]);
        EntriesSnoc(order[..i], order[i]);
        assert order[..i + 1] == order[..i] + [order[i]];
      }
      assert order[..|order|] == order;
    }
  }

  lemma {:induction false} EntriesSnoc(order: seq<Pair>, p: Pair)
    ensures EntriesBytes(order + [p]) == EntriesBytes(order) + EntryBytes(p)
  {
    hide EntryBytes;
    if order == [] {
      assert order + [p] == [p];
    } else {
      EntriesSnoc(order[1..], p);
      assert (order + [p])[1..] == order[1..] + [p];
    }
  }

  /** The entries in whatever order the hash map holds them: callers rely on no particular one. */
  method EntriesOf(meta: Metadata) returns (order: seq<Pair>)
    ensures Enumerates(order, meta)
  {
    order := [];
    var left := meta.Keys;
    while left != {}
      invariant left <= meta.Keys && |order| + |left| == |meta|
      invariant forall p | p in order :: p.key in meta && meta[p.key] == p.value
      invariant forall k | k in meta :: k in left || Pair(k, meta[k]) in order
      decreases |left|
    {
      var k :| k in left;
      order, left := order + [Pair(k, meta[k])], left - {k};
    }
  }

  /** encode_op */
  method EncodeOp(op: Op) returns (rec: seq<byte>)
    ensures IsEncoding(rec, op)
  {
    hide Fixed, EntriesBytes, Enumerates, StrBytes, VectorBytes;
    var order: seq<Pair> := [];
    if op.meta.Some? { order := EntriesOf(op.meta.value); }
    var w := new Writer();
    w.Raw([KindByte(op.kind)]);
    w.WriteStr(op.ext);
    if !op.kind.Delete? {
      w.Raw(U32Bytes(|op.vec|));
      w.Raw(VectorBytes(op.vec));
      if op.meta.Some? {
        w.Raw([1]);
        w.Raw(U32Bytes(|op.meta.value|));
        w.WriteEntries(order);
      } else {
        w.Raw([0]);
      }
    }
    rec := w.buf;
    assert rec == OpBytes(op, order);
  }

  class Reader {
    const s: seq<byte>
    var off: nat

    constructor (s: seq<byte>)
      ensures this.s == s && off == 0
    {
      this.s, off := s, 0;
    }

    /** The reader has moved on to p's offset and holds its value, or p failed. */
    ghost predicate Yields<T>(p: Parsed<T>, r: Result<T>)
      reads this
    {
      match p
      case Got(v, next) => r == Ok(v) && off == next
      case Failed(e) => r == Err(e)
    }

    method Raw(n: nat) returns (r: Result<seq<byte>>)
      modifies this
      ensures Yields(ParseRaw(s, old(off), n), r)
      ensures r.Ok? ==> |r.value| == n
    {
      if off + n > |s| { return Err(Truncated); }
      r := Ok(s[off..off + n]);
      off := off + n;
    }

    method U8() returns (r: Result<byte>)
      modifies this
      ensures Yields(ParseU8(s, old(off)), r)
    {
      var b :- Raw(1);
      return Ok(b[0]);
    }

    method U32() returns (r: Result<nat>)
      modifies this
      ensures Yields(ParseU32(s, old(off)), r)
    {
      var b :- Raw(4);
      return Ok(U32Value(b));
    }

    method U64() returns (r: Result<Double>)
      modifies this
      ensures Yields(ParseU64(s, old(off)), r)
    {
      var b :- Raw(8);
      return Ok(U64Value(b));
    }

    method ReadStr() returns (r: Result<Str>)
      modifies this
      ensures Yields(ParseStr(s, old(off)), r)
    {
      var n :- U32();
      r := Raw(n);
    }

    method Value() returns (r: Result<MetaValue>)
      modifies this
      ensures Yields(ParseValue(s, old(off)), r)
    {
      var tag :- U8();
      if tag == 0 {
        var p :- U64();
        return Ok(IntValue(Signed(p)));
      } else if tag == 1 {
        var p :- U64();
        return Ok(DoubleValue(p));
      } else if tag == 2 {
        var t :- ReadStr();
        return Ok(StrValue(t));
      } else if tag == 3 {
        var b :- U8();
        return Ok(BoolValue(b != 0));
      } else {
        return Err(BadValueType);
      }
    }

    /** decode_metadata */
    method Entries() returns (r: Result<Metadata>)
      modifies this
      ensures var count := ParseU32(s, old(off));
              if count.Failed? then r == Err(count.error)
              else Yields(ParseEntries(s, count.next, count.value, map[]), r)
    {
      hide Number, ParseStr, ParseValue;
      var count :- U32();
      var meta: Metadata := map[];
      ghost var start := off;
      for i := 0 to count
        invariant ParseEntries(s, off, count - i, meta) == ParseEntries(s, start, count, map[])
      {
        var key :- ReadStr();
        var v :- Value();
        meta := meta[key := v];
      }
      return Ok(meta);
    }
  }

  /** decode_op */
  method DecodeOp(bytes: seq<byte>) returns (r: Result<Op>)
    ensures r == Decode(bytes)
  {
    var rd := new Reader(bytes);
    var t :- rd.U8();
    if t < 1 || t > 3 { return Err(BadOpType); }
    var kind := if t == 1 then Insert else if t == 2 then Update else Delete;
    var ext :- rd.ReadStr();
    if kind.Delete? { return Ok(Op(kind, ext, [], None)); }
    var n :- rd.U32();
    var b :- rd.Raw(4 * n);
    var flag :- rd.U8();
    if flag == 0 { return Ok(Op(kind, ext, VectorOf(b, n), None)); }
    var m :- rd.Entries();
    return Ok(Op(kind, ext, VectorOf(b, n), Some(m)));
  }
}
