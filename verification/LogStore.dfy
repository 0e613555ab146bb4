/**
 The write-ahead log file (src/log_store.cpp) as its bytes.  A record is framed as
 [u32 crc][u32 len][payload]; replay stops at the first short or corrupt frame.
 */
module LogStore {
  import opened Types
  import opened LittleEndian
  import opened Crc32

  type Record = seq<byte>

  function Header(rec: Record): (h: seq<byte>)
    ensures |h| == 8
  {
    Fixed(Checksum(rec), 4) + Fixed(|rec|, 4)
  }

  function Frame(rec: Record): seq<byte> { Header(rec) + rec }

  function Frames(recs: seq<Record>): seq<byte> {
    if recs == [] then [] else Frame(recs[0]) + Frames(recs[1..])
  }

  /** The records that a replay of the file yields. */
  function Replayed(file: seq<byte>): seq<Record>
    decreases |file|
  {
    if |file| < 8 then [] else
      var crc, len := U32Value(file[..4]), U32Value(file[4..8]);
      if 8 + len > |file| then [] else
        var payload := file[8..8 + len];
        if Checksum(payload) != crc then [] else [payload] + Replayed(file[8 + len..])
  }

  /** A record whose length the frame stores exactly. */
  ghost predicate Storable(rec: Record) { |rec| < U32_LIMIT }

  lemma HeaderFields(rec: Record, rest: seq<byte>)
    requires Storable(rec)
    ensures var f := Header(rec) + rest;
            U32Value(f[..4]) == Checksum(rec) && U32Value(f[4..8]) == |rec|
  {
    hide Fixed;
    var f := Header(rec) + rest;
    assert f[..4] == Fixed(Checksum(rec), 4) && f[4..8] == Fixed(|rec|, 4);
    ChecksumRange(rec);
    U32RoundTrip(Checksum(rec));
    U32RoundTrip(|rec|);
  }

  lemma ReplayFrame(rec: Record, rest: seq<byte>)
    requires Storable(rec)
    ensures Replayed(Frame(rec) + rest) == [rec] + Replayed(rest)
  {
    hide Header, Checksum, U32Value;
    var f := Frame(rec) + rest;
    assert f == Header(rec) + (rec + rest);
    HeaderFields(rec, rec + rest);
    assert f[8..8 + |rec|] == rec && f[8 + |rec|..] == rest;
  }

  /** A replay of whole frames, then anything, is those records, then what the rest yields. */
  lemma {:induction false} ReplayFrames(recs: seq<Record>, rest: seq<byte>)
    requires forall r | r in recs :: Storable(r)
    ensures Replayed(Frames(recs) + rest) == recs + Replayed(rest)
    decreases |recs|
  {
    hide Frame, Replayed;
    if recs == [] {
      assert Frames(recs) + rest == rest;
    } else {
      assert Frames(recs) + rest == Frame(recs[0]) + (Frames(recs[1..]) + rest);
      ReplayFrame(recs[0], Frames(recs[1..]) + rest);
      ReplayFrames(recs[1..], rest);
      assert recs == [recs[0]] + recs[1..];
    }
  }

  /** What a crash inside an append can leave: a proper prefix of one frame. */
  ghost predicate TornTail(t: seq<byte>) {
    exists rec, cut | Storable(rec) && 0 <= cut < |Frame(rec)| :: t == Frame(rec)[..cut]
  }

  /** A header in front of too few bytes yields nothing. */
  lemma HeaderNeedsPayload(rec: Record, part: seq<byte>)
    requires Storable(rec) && |part| < |rec|
    ensures Replayed(Header(rec) + part) == []
  {
    hide Header, U32Value, Checksum;
    HeaderFields(rec, part);
  }

  lemma TornYieldsNothing(t: seq<byte>)
    requires TornTail(t)
    ensures Replayed(t) == []
  {
    hide Header, U32Value, Checksum;
    var rec, cut :| Storable(rec) && 0 <= cut < |Frame(rec)| && t == Frame(rec)[..cut];
    if cut >= 8 {
      assert t == Header(rec) + rec[..cut - 8];
      HeaderNeedsPayload(rec, rec[..cut - 8]);
    }
  }

  /** Whole records followed by a torn one replay as exactly the whole records, in order. */
  lemma ReplayTorn(recs: seq<Record>, t: seq<byte>)
    requires (forall r | r in recs :: Storable(r)) && TornTail(t)
    ensures Replayed(Frames(recs) + t) == recs
  {
    ReplayFrames(recs, t);
    TornYieldsNothing(t);
  }

  /** A payload altered inside four consecutive bytes stops the replay just before it. */
  lemma ReplayStopsAtCorruption(recs: seq<Record>, before: seq<byte>, m: seq<byte>, n: seq<byte>,
                                after: seq<byte>, rest: seq<byte>)
    requires forall r | r in recs :: Storable(r)
    requires |m| == |n| <= 4 && m != n && Storable(before + m + after)
    ensures Replayed(Frames(recs) + (Header(before + m + after) + (before + n + after) + rest)) == recs
  {
    hide Header, U32Value, Checksum;
    var good, bad := before + m + after, before + n + after;
    var f := Header(good) + bad + rest;
    ReplayFrames(recs, f);
    BurstDetected(before, m, n, after);
    assert f == Header(good) + (bad + rest);
    HeaderFields(good, bad + rest);
    assert f[8..8 + |good|] == bad;
  }

  /** A frame byte by byte: checksum, then length, both lowest byte first, then the payload. */
  lemma FrameBytes()
    ensures Frame([255, 255, 255, 127]) == [0xDF, 0x77, 0x47, 0x12, 4, 0, 0, 0, 255, 255, 255, 127]
    ensures Frame([]) == [0, 0, 0, 0, 0, 0, 0, 0]
  {
    hide Checksum, Fixed;
    ChecksumValues();
    FourBytesOf(0x1247_77DF);
    FourBytesOf(4);
    FourBytesOf(0);
  }

  // ---------------------------------------------------------------- appending behind a torn tail

  /** A file's first replayed record is rec exactly when the file begins with rec's frame. */
  lemma FirstReplayed(file: seq<byte>, rec: Record)
    requires Storable(rec)
    ensures (Replayed(file) != [] && Replayed(file)[0] == rec) <==> Frame(rec) <= file
    ensures Frame(rec) <= file ==> Replayed(file) == [rec] + Replayed(file[|Frame(rec)|..])
  {
    hide Fixed, Checksum, Number;
    if Replayed(file) != [] && Replayed(file)[0] == rec {
      ChecksumRange(rec);
      U32RoundTrip(Checksum(rec));
      U32RoundTrip(|rec|);
      NumberInjective(file[..4], Fixed(Checksum(rec), 4));
      NumberInjective(file[4..8], Fixed(|rec|, 4));
      assert file[..|Frame(rec)|] == file[..4] + file[4..8] + file[8..8 + |rec|];
    }
    if Frame(rec) <= file {
      assert file == Frame(rec) + file[|Frame(rec)|..];
      ReplayFrame(rec, file[|Frame(rec)|..]);
    }
  }

  /** The torn frame and the new one overlap so that the new one is read from the tear on. */
  predicate Overlaps(t: seq<byte>, rec: Record) {
    var f := Frame(rec);
    t <= f && f <= t + f && Replayed((t + f)[|f|..]) == []
  }

  /** No whole frame fits at the front of a torn tail. */
  lemma FrameInTornTail(t: seq<byte>, rec: Record)
    requires TornTail(t) && Storable(rec)
    ensures !(Frame(rec) <= t)
  {
    TornYieldsNothing(t);
    FirstReplayed(t, rec);
  }

  /**
   Nothing cuts a torn tail off, so a later append lands behind it.  It is replayed as if the
   log were clean exactly when there was no tail, or the tail repeats inside the new frame.
   */
  lemma AppendBehindTornTailIff(recs: seq<Record>, t: seq<byte>, rec: Record)
    requires (forall r | r in recs :: Storable(r)) && TornTail(t) && Storable(rec)
    ensures Replayed(Frames(recs) + (t + Frame(rec))) == recs + [rec] <==> t == [] || Overlaps(t, rec)
  {
    hide Frames, Frame, Replayed, TornTail;
    var f, whole := Frame(rec), t + Frame(rec);
    ReplayFrames(recs, whole);
    assert Replayed(whole) == [rec] <==> recs + Replayed(whole) == recs + [rec] by {
      assert (recs + Replayed(whole))[|recs|..] == Replayed(whole);
      assert (recs + [rec])[|recs|..] == [rec];
    }
    FirstReplayed(whole, rec);
    FrameInTornTail(t, rec);
    if f <= whole { PrefixOfJoined(t, f); }
    if t == [] {
      assert whole == f && whole[|f|..] == [];
      NothingReplayed();
    }
  }

  lemma NothingReplayed()
    ensures Replayed([]) == []
  {}

  lemma PrefixOfJoined(t: seq<byte>, f: seq<byte>)
    requires f <= t + f
    ensures t <= f || f <= t
  {
    if |t| <= |f| {
      assert f[..|t|] == (t + f)[..|t|];
    } else {
      assert t[..|f|] == (t + f)[..|f|];
    }
  }

  /**
   With one to three stray bytes the length field is read from the last checksum bytes and the
   low length bytes, so it is at least 256 times too long, and the record is never replayed.
   */
  lemma StrayBytesLoseRecord(recs: seq<Record>, t: seq<byte>, rec: Record)
    requires (forall r | r in recs :: Storable(r)) && 1 <= |t| <= 3 && 1 <= |rec| < Power256(4 - |t|)
    ensures Replayed(Frames(recs) + (t + Frame(rec))) == recs
  {
    hide Frames, U32Value, Fixed, Checksum, Power256;
    var f := t + Frame(rec);
    ReplayFrames(recs, f);
    StretchedLength(t, rec);
  }

  lemma StretchedLength(t: seq<byte>, rec: Record)
    requires 1 <= |t| <= 3 && |rec| < Power256(4 - |t|)
    ensures U32Value((t + Frame(rec))[4..8]) >= 256 * |rec|
  {
    hide Number, Fixed, Checksum, Power256;
    var crc, len, k := Fixed(Checksum(rec), 4), Fixed(|rec|, 4), 4 - |t|;
    LengthWindow(t, crc, len, rec);
    NumberBehind(crc[k..], len[..k]);
    FixedPrefix(|rec|, 4, k);
    FixedRoundTrip(|rec|, k);
  }

  lemma LengthWindow(t: seq<byte>, crc: seq<byte>, len: seq<byte>, rec: Record)
    requires |t| <= 4 && |crc| == |len| == 4
    ensures (t + (crc + len + rec))[4..8] == crc[4 - |t|..] + len[..4 - |t|]
  {}

  /** A tear behind the header swallows all that is appended until the torn length is reached. */
  lemma TornHeaderSwallows(recs: seq<Record>, torn: Record, cut: nat, later: seq<byte>)
    requires (forall r | r in recs :: Storable(r)) && Storable(torn)
    requires 8 <= cut && cut + |later| < |Frame(torn)|
    ensures Replayed(Frames(recs) + (Frame(torn)[..cut] + later)) == recs
  {
    hide Frames, Header, Replayed;
    var f := Frame(torn)[..cut] + later;
    ReplayFrames(recs, f);
    assert f == Header(torn) + (torn[..cut - 8] + later);
    HeaderNeedsPayload(torn, torn[..cut - 8] + later);
  }

  lemma {:induction false} FramesAppend(recs: seq<Record>, rec: Record)
    ensures Frames(recs + [rec]) == Frames(recs) + Frame(rec)
  {
    hide Frame;
    if recs == [] {
      assert recs + [rec] == [rec];
    } else {
      FramesAppend(recs[1..], rec);
      assert (recs + [rec])[1..] == recs[1..] + [rec];
    }
  }

  /** One turn of the replay loop, at offset off of the file. */
  lemma ReplayedAt(file: seq<byte>, off: nat)
    requires off <= |file|
    ensures off + 8 > |file| ==> Replayed(file[off..]) == []
    ensures off + 8 <= |file| ==>
              var crc, len := U32Value(file[off..off + 4]), U32Value(file[off + 4..off + 8]);
              var end := off + 8 + len;
              Replayed(file[off..]) ==
                if end > |file| || Checksum(file[off + 8..end]) != crc then []
                else [file[off + 8..end]] + Replayed(file[end..])
  {
    hide Checksum, U32Value;
    var left := file[off..];
    if off + 8 <= |file| {
      assert left[..4] == file[off..off + 4] && left[4..8] == file[off + 4..off + 8];
      var len := U32Value(file[off + 4..off + 8]);
      if off + 8 + len <= |file| {
        assert left[8..8 + len] == file[off + 8..off + 8 + len] && left[8 + len..] == file[off + 8 + len..];
      }
    }
  }

  // ---------------------------------------------------------------- the code

  class FileLogStore {
    var file: seq<byte>
    const table: seq<Word>

    ghost predicate Valid() { IsTable(table) }

    /** Opening creates the file if need be and leaves its bytes alone. */
    constructor (file: seq<byte>)
      ensures Valid() && this.file == file
    {
      this.file := file;
      var t := MakeTable();
      table := t;
    }

    /** append: header, then payload, at the end of the file whatever is there. */
    method Append(rec: Record)
      requires Valid()
      modifies this
      ensures file == old(file) + Frame(rec)
    {
      hide Fixed;
      var crc := Crc32.Crc32(table, rec);
      var header := Fixed(crc, 4) + Fixed(|rec|, 4);
      file := file + header;
      file := file + rec;
    }

    /** replay: the records handed to the callback, in order. */
    method Replay() returns (recs: seq<Record>)
      requires Valid()
      ensures recs == Replayed(file)
    {
      hide U32Value, IsTable, Replayed, Checksum;
      recs := [];
      var off := 0;
      assert file[0..] == file;
      while true
        invariant off <= |file| && recs + Replayed(file[off..]) == Replayed(file)
        decreases |file| - off
      {
        ReplayedAt(file, off);
        if off + 8 > |file| { break; }
        var crc, len := U32Value(file[off..off + 4]), U32Value(file[off + 4..off + 8]);
        if off + 8 + len > |file| { break; }
        var payload := file[off + 8..off + 8 + len];
        var actual := Crc32.Crc32(table, payload);
        if actual != crc { break; }
        recs, off := recs + [payload], off + 8 + len;
      }
    }

    method Truncate()
      modifies this
      ensures file == []
    {
      file := [];
    }
  }
}
