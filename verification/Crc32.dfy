/**
 The record checksum (include/toyvdb/crc32.hpp).  A 32-bit register is its list of
 bits, least significant first, so that `c >> 1` drops the head of the list.  The
 polynomial is the one in the code, 0xEDB88820, whatever the comment there says.
 */
module Crc32 {
  import opened Types

  type Word = w: seq<bool> | |w| == 32 witness Zeros(32)

  function Zeros(n: nat): (z: seq<bool>)
    ensures |z| == n
  {
    seq(n, _ => false)
  }

  /** The low n bits of v. */
  function Bits(v: nat, n: nat): (s: seq<bool>)
    ensures |s| == n
    decreases n
  {
    if n == 0 then [] else [v % 2 == 1] + Bits(v / 2, n - 1)
  }

  function Value(s: seq<bool>): nat {
    if s == [] then 0 else (if s[0] then 1 else 0) + 2 * Value(s[1..])
  }

  function Xor(a: seq<bool>, b: seq<bool>): (x: seq<bool>)
    requires |a| == |b|
    ensures |x| == |a|
  {
    seq(|a|, i requires 0 <= i < |a| => a[i] != b[i])
  }

  function ShiftRight(c: Word, n: nat): Word
    requires n <= 32
  {
    c[n..] + Zeros(n)
  }

  const POLY: Word := Bits(0xEDB88820, 32)

  function Ones(): Word { seq(32, _ => true) }

  function ByteWord(b: byte): Word { Bits(b, 8) + Zeros(24) }

  /** One step of the register (the body of the inner loop at line 20). */
  function Shift(c: Word): Word {
    if c[0] then Xor(POLY, ShiftRight(c, 1)) else ShiftRight(c, 1)
  }

  function Shifts(c: Word, n: nat): Word
    decreases n
  {
    if n == 0 then c else Shift(Shifts(c, n - 1))
  }

  /** The bit-serial reference: xor each byte in, then clock the register eight times. */
  function Feed(c: Word, data: seq<byte>): Word
    decreases |data|
  {
    if data == [] then c else Feed(Shifts(Xor(c, ByteWord(data[0])), 8), data[1..])
  }

  function Checksum(data: seq<byte>): nat {
    Value(Xor(Feed(Ones(), data), Ones()))
  }

  // ---------------------------------------------------------------- bits and numbers

  lemma {:induction false} ValueBound(s: seq<bool>)
    ensures |s| <= 8 ==> Value(s) < 256
    ensures |s| <= 32 ==> Value(s) < U32_LIMIT
  {
    ValueBelowPower(s);
    if |s| <= 8 { PowerMonotone(|s|, 8); PowersOf7And8(); }
    if |s| <= 32 { PowerMonotone(|s|, 32); PowerOf32(); }
  }

  function Power(n: nat): nat { if n == 0 then 1 else 2 * Power(n - 1) }

  lemma {:induction false} ValueBelowPower(s: seq<bool>)
    ensures Value(s) < Power(|s|)
  {
    if s != [] { ValueBelowPower(s[1..]); }
  }

  lemma {:induction false} PowerMonotone(m: nat, n: nat)
    requires m <= n
    ensures Power(m) <= Power(n)
    decreases n - m
  {
    if m < n { PowerMonotone(m + 1, n); }
  }

  lemma PowerOf32()
    ensures Power(32) == U32_LIMIT
  {
    assert Power(2) == 4; assert Power(4) == 16; assert Power(6) == 64; assert Power(8) == 256;
    assert Power(10) == 1024; assert Power(12) == 0x1000; assert Power(14) == 0x4000;
    assert Power(16) == 0x1_0000; assert Power(18) == 0x4_0000; assert Power(20) == 0x10_0000;
    assert Power(22) == 0x40_0000; assert Power(24) == 0x100_0000; assert Power(26) == 0x400_0000;
    assert Power(28) == 0x1000_0000; assert Power(30) == 0x4000_0000;
  }

  lemma {:induction false} ValueInjective(a: seq<bool>, b: seq<bool>)
    requires |a| == |b| && Value(a) == Value(b)
    ensures a == b
  {
    if a != [] {
      ValueInjective(a[1..], b[1..]);
      assert a == [a[0]] + a[1..] && b == [b[0]] + b[1..];
    }
  }

  lemma {:induction false} BitsOfValue(s: seq<bool>, n: nat)
    requires |s| <= n
    ensures Bits(Value(s), n) == s + Zeros(n - |s|)
    decreases n
  {
    if n == 0 {
    } else if s == [] {
      BitsOfValue([], n - 1);
      assert Zeros(n) == [false] + Zeros(n - 1);
    } else {
      BitsOfValue(s[1..], n - 1);
      hide Bits, Value, Zeros;
      assert s + Zeros(n - |s|) == [s[0]] + (s[1..] + Zeros(n - |s|));
      BitsHead(s, n);
    }
  }

  lemma BitsHead(s: seq<bool>, n: nat)
    requires 0 < |s| <= n
    ensures Bits(Value(s), n) == [s[0]] + Bits(Value(s[1..]), n - 1)
  {
    hide Zeros;
    assert Value(s) / 2 == Value(s[1..]) && Value(s) % 2 == if s[0] then 1 else 0;
  }

  lemma {:induction false} ValueOfBits(v: nat, n: nat)
    requires v < Power(n)
    ensures Value(Bits(v, n)) == v
    decreases n
  {
    if n != 0 { ValueOfBits(v / 2, n - 1); }
  }

  lemma ByteWordInjective(a: byte, b: byte)
    requires ByteWord(a) == ByteWord(b)
    ensures a == b
  {
    PowersOf7And8();
    assert Bits(a, 8) == ByteWord(a)[..8] == Bits(b, 8);
    ValueOfBits(a, 8);
    ValueOfBits(b, 8);
  }

  lemma {:induction false} TopBit(v: nat, n: nat)
    requires Power(n) <= v < Power(n + 1)
    ensures Bits(v, n + 1)[n]
    decreases n
  {
    if n != 0 {
      TopBit(v / 2, n - 1);
      assert Bits(v, n + 1)[n] == Bits(v / 2, n)[n - 1];
    }
  }

  // ---------------------------------------------------------------- the register

  lemma PolyTopBit()
    ensures POLY[31]
  {
    PowerOf32();
    TopBit(0xEDB88820, 31);
  }

  lemma ShiftLinear(a: Word, b: Word)
    ensures Shift(Xor(a, b)) == Xor(Shift(a), Shift(b))
  {
    hide Bits;
    XorShift(POLY, ShiftRight(a, 1), ShiftRight(b, 1));
    assert ShiftRight(Xor(a, b), 1) == Xor(ShiftRight(a, 1), ShiftRight(b, 1));
  }

  lemma XorShift(p: Word, a: Word, b: Word)
    ensures Xor(Xor(p, a), Xor(p, b)) == Xor(a, b)
    ensures Xor(Xor(p, a), b) == Xor(p, Xor(a, b)) == Xor(a, Xor(p, b))
  {}

  lemma {:induction false} ShiftsLinear(a: Word, b: Word, n: nat)
    ensures Shifts(Xor(a, b), n) == Xor(Shifts(a, n), Shifts(b, n))
  {
    if n != 0 {
      ShiftsLinear(a, b, n - 1);
      ShiftLinear(Shifts(a, n - 1), Shifts(b, n - 1));
    }
  }

  lemma XorTwice(p: seq<bool>, h: seq<bool>)
    requires |p| == |h|
    ensures Xor(p, Xor(p, h)) == h
  {}

  /** Undoes Shift: the top bit tells whether the polynomial was xored in. */
  function Unshift(c: Word): Word {
    if c[31] then [true] + Xor(POLY, c)[..31] else [false] + c[..31]
  }

  lemma UndoShift(p: Word, c: Word)
    requires p[31]
    ensures var s := if c[0] then Xor(p, ShiftRight(c, 1)) else ShiftRight(c, 1);
            c == if s[31] then [true] + Xor(p, s)[..31] else [false] + s[..31]
  {
    var h: Word := ShiftRight(c, 1);
    XorTwice(p, h);
    assert c == [c[0]] + h[..31];
    assert Xor(p, h)[31];
  }

  lemma RedoShift(p: Word, c: Word)
    requires p[31]
    ensures var u: Word := if c[31] then [true] + Xor(p, c)[..31] else [false] + c[..31];
            c == if u[0] then Xor(p, ShiftRight(u, 1)) else ShiftRight(u, 1)
  {
    XorTwice(p, c);
    var x: Word := Xor(p, c);
    assert c[31] ==> ShiftRight([true] + x[..31], 1) == x by {
      assert c[31] ==> !x[31];
    }
    assert !c[31] ==> ShiftRight([false] + c[..31], 1) == c;
  }

  /** Each register step is a bijection, because the top bit of the polynomial is set. */
  lemma ShiftBijective(c: Word)
    ensures Unshift(Shift(c)) == c
    ensures Shift(Unshift(c)) == c
  {
    PolyTopBit();
    UndoShift(POLY, c);
    RedoShift(POLY, c);
  }

  lemma {:induction false} ShiftsInjective(a: Word, b: Word, n: nat)
    requires Shifts(a, n) == Shifts(b, n)
    ensures a == b
  {
    if n != 0 {
      ShiftBijective(Shifts(a, n - 1));
      ShiftBijective(Shifts(b, n - 1));
      ShiftsInjective(a, b, n - 1);
    }
  }

  /** With n low bits clear, n steps only move the register right. */
  lemma {:induction false} ShiftsOfClearLowBits(x: Word, n: nat)
    requires n <= 32 && forall i | 0 <= i < n :: !x[i]
    ensures Shifts(x, n) == ShiftRight(x, n)
  {
    if n == 0 {
      assert ShiftRight(x, 0) == x;
    } else {
      ShiftsOfClearLowBits(x, n - 1);
      assert ShiftRight(x, n - 1)[0] == x[n - 1];
      assert ShiftRight(ShiftRight(x, n - 1), 1) == ShiftRight(x, n);
    }
  }

  lemma SplitWord(c: Word, b: byte)
    ensures var x := Xor(c, ByteWord(b));
            var low, high := x[..8] + Zeros(24), Zeros(8) + x[8..];
            x == Xor(low, high) && ShiftRight(high, 8) == ShiftRight(c, 8)
  {}

  /** One table look-up does eight register steps. */
  lemma TableStep(c: Word, b: byte)
    ensures var x := Xor(c, ByteWord(b));
            Shifts(x, 8) == Xor(Shifts(Bits(Value(x[..8]), 32), 8), ShiftRight(c, 8))
  {
    hide Bits, Value, Shifts;
    var x: Word := Xor(c, ByteWord(b));
    var low: Word, high: Word := x[..8] + Zeros(24), Zeros(8) + x[8..];
    SplitWord(c, b);
    BitsOfValue(x[..8], 32);
    ShiftsLinear(low, high, 8);
    ShiftsOfClearLowBits(high, 8);
  }

  // ---------------------------------------------------------------- burst detection

  lemma {:induction false} FeedAppend(c: Word, a: seq<byte>, b: seq<byte>)
    ensures Feed(c, a + b) == Feed(Feed(c, a), b)
    decreases |a|
  {
    if a == [] {
      assert a + b == b;
    } else {
      assert (a + b)[1..] == a[1..] + b;
      FeedAppend(Shifts(Xor(c, ByteWord(a[0])), 8), a[1..], b);
    }
  }

  lemma XorInjective(a: Word, b: Word, p: Word)
    requires Xor(a, p) == Xor(b, p)
    ensures a == b
  {
    assert forall i | 0 <= i < 32 :: a[i] == (Xor(a, p)[i] != p[i]);
    assert forall i | 0 <= i < 32 :: b[i] == (Xor(b, p)[i] != p[i]);
  }

  lemma {:induction false} FeedInjective(a: Word, b: Word, data: seq<byte>)
    requires Feed(a, data) == Feed(b, data)
    ensures a == b
    decreases |data|
  {
    if data != [] {
      var p := ByteWord(data[0]);
      FeedInjective(Shifts(Xor(a, p), 8), Shifts(Xor(b, p), 8), data[1..]);
      ShiftsInjective(Xor(a, p), Xor(b, p), 8);
      XorInjective(a, b, p);
    }
  }

  /**
   Running the register backwards over eight steps: when the two results agree in their
   top byte, the difference before is the difference after, moved up by eight bits.
   */
  lemma DifferenceBefore(p: Word, q: Word)
    requires forall i | 24 <= i < 32 :: Shifts(p, 8)[i] == Shifts(q, 8)[i]
    ensures forall i | 0 <= i < 8 :: p[i] == q[i]
    ensures forall i | 8 <= i < 32 :: (p[i] == q[i]) == (Shifts(p, 8)[i - 8] == Shifts(q, 8)[i - 8])
  {
    var u, v := Shifts(p, 8), Shifts(q, 8);
    var e: Word := Xor(u, v);
    var up: Word := Zeros(8) + e[..24];
    ShiftsLinear(p, q, 8);
    ShiftsOfClearLowBits(up, 8);
    assert ShiftRight(up, 8) == e;
    ShiftsInjective(Xor(p, q), up, 8);
    forall i | 0 <= i < 32
      ensures (p[i] == q[i]) == if i < 8 then true else u[i - 8] == v[i - 8]
    {
      assert up[i] == Xor(p, q)[i];
    }
  }

  /** If k bytes bring two registers together, the registers differed in their low 8k bits only. */
  lemma {:induction false} DifferenceIsLow(x: Word, y: Word, m: seq<byte>, n: seq<byte>)
    requires |m| == |n| <= 3 && Feed(x, m) == Feed(y, n)
    ensures forall i | 8 * |m| <= i < 32 :: x[i] == y[i]
    decreases |m|
  {
    if m != [] {
      var p, q := Xor(x, ByteWord(m[0])), Xor(y, ByteWord(n[0]));
      DifferenceIsLow(Shifts(p, 8), Shifts(q, 8), m[1..], n[1..]);
      DifferenceBefore(p, q);
      forall i | 8 * |m| <= i < 32
        ensures x[i] == y[i]
      {
        assert Shifts(p, 8)[i - 8] == Shifts(q, 8)[i - 8];
        assert p[i] == x[i] && q[i] == y[i];
      }
    }
  }

  lemma FirstByteAgrees(x: Word, a: byte, b: byte)
    requires forall i | 24 <= i < 32 :: Shifts(Xor(x, ByteWord(a)), 8)[i] == Shifts(Xor(x, ByteWord(b)), 8)[i]
    ensures a == b
  {
    var p, q := Xor(x, ByteWord(a)), Xor(x, ByteWord(b));
    DifferenceBefore(p, q);
    forall i | 0 <= i < 32
      ensures ByteWord(a)[i] == ByteWord(b)[i]
    {
      if i < 8 { assert p[i] == q[i]; }
    }
    ByteWordInjective(a, b);
  }

  lemma {:induction false} FourBytesInjective(x: Word, m: seq<byte>, n: seq<byte>)
    requires |m| == |n| <= 4 && Feed(x, m) == Feed(x, n)
    ensures m == n
    decreases |m|
  {
    if m != [] {
      var u, v := Shifts(Xor(x, ByteWord(m[0])), 8), Shifts(Xor(x, ByteWord(n[0])), 8);
      DifferenceIsLow(u, v, m[1..], n[1..]);
      FirstByteAgrees(x, m[0], n[0]);
      FourBytesInjective(u, m[1..], n[1..]);
      assert m == [m[0]] + m[1..] && n == [n[0]] + n[1..];
    }
  }

  /** Two payloads that differ only inside four consecutive bytes never share a checksum. */
  lemma BurstDetected(before: seq<byte>, m: seq<byte>, n: seq<byte>, after: seq<byte>)
    requires |m| == |n| <= 4 && m != n
    ensures Checksum(before + m + after) != Checksum(before + n + after)
  {
    var c := Feed(Ones(), before);
    forall w: seq<byte>
      ensures Feed(Ones(), before + w + after) == Feed(Feed(c, w), after)
    {
      FeedAppend(Ones(), before + w, after);
      FeedAppend(Ones(), before, w);
    }
    var a, b := Feed(Ones(), before + m + after), Feed(Ones(), before + n + after);
    if Checksum(before + m + after) == Checksum(before + n + after) {
      ValueInjective(Xor(a, Ones()), Xor(b, Ones()));
      XorInjective(a, b, Ones());
      FeedInjective(Feed(c, m), Feed(c, n), after);
      FourBytesInjective(c, m, n);
      assert false;
    }
  }

  lemma ChecksumRange(data: seq<byte>)
    ensures Checksum(data) < U32_LIMIT
  {
    ValueBound(Xor(Feed(Ones(), data), Ones()));
  }

  // ---------------------------------------------------------------- the checksum in numbers

  /** A register whose low n bits are ones. */
  function Low(n: nat): Word
    requires n <= 32
  {
    seq(n, _ => true) + Zeros(32 - n)
  }

  lemma BytesAsBits()
    ensures Bits(127, 8) == seq(7, _ => true) + [false] && Bits(255, 8) == seq(8, _ => true)
    ensures Bits(128, 32) == Zeros(7) + [true] + Zeros(24)
  {
    hide Bits, Value;
    var seven: seq<bool>, eight: seq<bool> := seq(7, _ => true), seq(8, _ => true);
    PowersOf7And8();
    ValueOfOnes(7);
    ValueOfOnes(8);
    BitsOfValue(seven, 8);
    assert Zeros(1) == [false] && Bits(127, 8) == seven + [false];
    BitsOfValue(eight, 8);
    assert eight + Zeros(0) == eight;
    ValueOfBits(127, 8);
    ValueOfComplement(seven + [false], 8);
    assert Xor(seven + [false], eight) == Zeros(7) + [true];
    BitsOfValue(Zeros(7) + [true], 32);
  }

  lemma PowersOf7And8()
    ensures Power(7) == 128 && Power(8) == 256
  {
    assert Power(2) == 4; assert Power(4) == 16; assert Power(6) == 64;
  }

  lemma ValueOfOnes(n: nat)
    ensures Value(seq(n, _ => true)) == Power(n) - 1
  {
    hide Value;
    NoneIsZero(n);
    ValueOfComplement(Zeros(n), n);
    assert Xor(Zeros(n), seq(n, _ => true)) == seq(n, _ => true);
  }

  /** The one bit that eight steps bring to the front, and no further, leaves the polynomial. */
  lemma ShiftsOfBit7(x: Word)
    requires x == Zeros(7) + [true] + Zeros(24)
    ensures Shifts(x, 8) == POLY
  {
    hide Bits;
    ShiftsOfClearLowBits(x, 7);
    assert ShiftRight(x, 7) == [true] + Zeros(31);
    assert ShiftRight([true] + Zeros(31), 1) == Zeros(32);
    assert Xor(POLY, Zeros(32)) == POLY;
  }

  /** The polynomial is what the table holds for 128. */
  lemma EntryOf128()
    ensures Value(Shifts(Bits(128, 32), 8)) == 0xEDB8_8820
  {
    hide Bits, Shifts, Value;
    BytesAsBits();
    ShiftsOfBit7(Bits(128, 32));
    ValueOfPoly();
  }

  /** A byte of ones clears eight ones. */
  lemma FeedOnes(n: nat)
    requires 8 <= n <= 32
    ensures Shifts(Xor(Low(n), ByteWord(255)), 8) == Low(n - 8)
  {
    hide Bits, Shifts;
    BytesAsBits();
    var x: Word := Xor(Low(n), ByteWord(255));
    assert x == Zeros(8) + seq(n - 8, _ => true) + Zeros(32 - n);
    ShiftsOfClearLowBits(x, 8);
    assert ShiftRight(x, 8) == Low(n - 8);
  }

  lemma {:induction false} ValueOfComplement(a: seq<bool>, n: nat)
    requires |a| == n
    ensures Value(Xor(a, seq(n, _ => true))) + Value(a) == Power(n) - 1
    decreases n
  {
    if n != 0 {
      ValueOfComplement(a[1..], n - 1);
      assert Xor(a, seq(n, _ => true)) == [!a[0]] + Xor(a[1..], seq(n - 1, _ => true));
    }
  }

  /** The checksums of no bytes, of four bytes of ones, and of the same with the last bit cleared. */
  lemma ChecksumValues()
    ensures Checksum([]) == 0 && Checksum([255, 255, 255, 255]) == 0xFFFF_FFFF
    ensures Checksum([255, 255, 255, 127]) == 0x1247_77DF
  {
    hide Bits, Shifts, Value, Xor;
    var c := Ones();
    assert c == Low(32);
    FeedOnes(32); FeedOnes(24); FeedOnes(16); FeedOnes(8);
    FourBytes(255);
    FourBytes(127);
    FeedBit7();
    Complement(c);
    Complement(Low(0));
    Complement(POLY);
    NoneAndAll();
    ValueOfPoly();
  }

  lemma FourBytes(b: byte)
    ensures Feed(Low(32), [255, 255, 255, b]) == Shifts(Xor(Low(8), ByteWord(b)), 8)
  {
    hide Shifts, Xor, ByteWord;
    FeedOnes(32); FeedOnes(24); FeedOnes(16);
    FeedFirst(Low(32), 255, [255, 255, b]);
    FeedFirst(Low(24), 255, [255, b]);
    FeedFirst(Low(16), 255, [b]);
    FeedFirst(Low(8), b, []);
  }

  lemma FeedFirst(c: Word, b: byte, rest: seq<byte>)
    ensures Feed(c, [b] + rest) == Feed(Shifts(Xor(c, ByteWord(b)), 8), rest)
    ensures Feed(c, []) == c
  {
    hide Shifts, Xor, ByteWord;
    assert ([b] + rest)[1..] == rest;
  }

  lemma FeedBit7()
    ensures Shifts(Xor(Low(8), ByteWord(127)), 8) == POLY
  {
    hide Shifts, Bits;
    BytesAsBits();
    assert Xor(Low(8), ByteWord(127)) == Zeros(7) + [true] + Zeros(24);
    ShiftsOfBit7(Xor(Low(8), ByteWord(127)));
  }

  lemma Complement(c: Word)
    ensures Value(Xor(c, Ones())) == 0xFFFF_FFFF - Value(c)
  {
    hide Value, Xor;
    ValueOfComplement(c, 32);
    PowerOf32();
  }

  lemma NoneAndAll()
    ensures Value(Low(0)) == 0 && Value(Ones()) == 0xFFFF_FFFF
  {
    hide Value;
    Complement(Ones());
    NoneIsZero(32);
    assert Xor(Ones(), Ones()) == Zeros(32) && Low(0) == Zeros(32);
  }

  lemma {:induction false} NoneIsZero(n: nat)
    ensures Value(Zeros(n)) == 0
  {
    if n != 0 {
      NoneIsZero(n - 1);
      assert Zeros(n)[1..] == Zeros(n - 1);
    }
  }

  lemma ValueOfPoly()
    ensures Value(POLY) == 0xEDB8_8820
  {
    hide Value, Bits;
    PowerOf32();
    ValueOfBits(0xEDB88820, 32);
  }

  // ---------------------------------------------------------------- the code

  ghost predicate IsTable(table: seq<Word>) {
    |table| == 256 && forall i | 0 <= i < 256 :: table[i] == Shifts(Bits(i, 32), 8)
  }

  /** One table entry: the inner loop of make_crc32_table. */
  method TableEntry(i: byte) returns (c: Word)
    ensures c == Shifts(Bits(i, 32), 8)
  {
    c := Bits(i, 32);
    for k := 0 to 8
      invariant c == Shifts(Bits(i, 32), k)
    {
      c := if c[0] then Xor(POLY, ShiftRight(c, 1)) else ShiftRight(c, 1);
    }
  }

  /** make_crc32_table */
  method MakeTable() returns (table: seq<Word>)
    ensures IsTable(table) && Value(table[128]) == 0xEDB8_8820
  {
    hide Bits, Shifts, Value;
    EntryOf128();
    table := [];
    for i := 0 to 256
      invariant |table| == i && forall j | 0 <= j < i :: table[j] == Shifts(Bits(j, 32), 8)
    {
      var c := TableEntry(i);
      table := table + [c];
    }
  }

  /** crc32: the byte-at-a-time, table-driven loop computes the bit-serial checksum. */
  method Crc32(table: seq<Word>, data: seq<byte>) returns (crc: nat)
    requires IsTable(table)
    ensures crc == Checksum(data) && crc < U32_LIMIT
  {
    var c: Word := Ones();
    for i := 0 to |data|
      invariant Feed(c, data[i..]) == Feed(Ones(), data)
    {
      var x := Xor(c, ByteWord(data[i]));
      ValueBound(x[..8]);
      TableStep(c, data[i]);
      assert data[i..][1..] == data[i + 1..];
      c := Xor(table[Value(x[..8])], ShiftRight(c, 8));
    }
    assert data[|data|..] == [];
    crc := Value(Xor(c, Ones()));
    ChecksumRange(data);
  }
}
