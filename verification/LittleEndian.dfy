/** Integers copied to and from bytes by memcpy on a little-endian machine. */
module LittleEndian {
  import opened Types

  /** The low `width` bytes of n, least significant first; higher bytes are dropped. */
  function Fixed(n: nat, width: nat): (s: seq<byte>)
    ensures |s| == width
    decreases width
  {
    if width == 0 then [] else [n % 256] + Fixed(n / 256, width - 1)
  }

  function Number(s: seq<byte>): nat {
    if s == [] then 0 else s[0] as int + 256 * Number(s[1..])
  }

  function Power256(n: nat): nat { if n == 0 then 1 else 256 * Power256(n - 1) }

  lemma {:induction false} NumberBound(s: seq<byte>)
    ensures Number(s) < Power256(|s|)
  {
    if s != [] { NumberBound(s[1..]); }
  }

  lemma {:induction false} FixedRoundTrip(n: nat, width: nat)
    requires n < Power256(width)
    ensures Number(Fixed(n, width)) == n
    decreases width
  {
    if width != 0 {
      FixedRoundTrip(n / 256, width - 1);
      assert Fixed(n, width)[1..] == Fixed(n / 256, width - 1);
    }
  }

  /** Byte strings of one length are told apart by the numbers they hold. */
  lemma {:induction false} NumberInjective(a: seq<byte>, b: seq<byte>)
    requires |a| == |b| && Number(a) == Number(b)
    ensures a == b
  {
    if a != [] {
      NumberInjective(a[1..], b[1..]);
      assert a == [a[0]] + a[1..] && b == [b[0]] + b[1..];
    }
  }

  /** Each byte put in front multiplies the number by 256 or more. */
  lemma {:induction false} NumberBehind(low: seq<byte>, high: seq<byte>)
    ensures Number(low + high) >= Number(high)
    ensures low != [] ==> Number(low + high) >= 256 * Number(high)
  {
    if low == [] {
      assert low + high == high;
    } else {
      NumberBehind(low[1..], high);
      assert (low + high)[1..] == low[1..] + high;
    }
  }

  /** The low bytes of a wider rendering. */
  lemma {:induction false} FixedPrefix(n: nat, width: nat, k: nat)
    requires k <= width
    ensures Fixed(n, width)[..k] == Fixed(n, k)
  {
    if k != 0 { FixedPrefix(n / 256, width - 1, k - 1); }
  }

  lemma {:induction false} FixedZero(width: nat)
    ensures Fixed(0, width) == seq(width, _ => 0)
  {
    if width != 0 { FixedZero(width - 1); }
  }

  lemma {:induction false} FixedAllOnes(n: nat, width: nat)
    requires n == Power256(width) - 1
    ensures Fixed(n, width) == seq(width, _ => 255)
  {
    if width != 0 {
      assert n % 256 == 255 && n / 256 == Power256(width - 1) - 1;
      FixedAllOnes(n / 256, width - 1);
    }
  }

  /** The bytes of a 32-bit number, lowest first. */
  lemma FourBytesOf(n: nat)
    requires n < U32_LIMIT
    ensures Fixed(n, 4) == [n % 256, n / 256 % 256, n / 65536 % 256, n / 16777216]
  {
    assert n / 256 / 256 == n / 65536 && n / 65536 / 256 == n / 16777216 && n / 16777216 < 256;
    assert Fixed(n, 4) == [n % 256] + Fixed(n / 256, 3);
    assert Fixed(n / 256, 3) == [n / 256 % 256] + Fixed(n / 65536, 2);
    assert Fixed(n / 65536, 2) == [n / 65536 % 256] + Fixed(n / 16777216, 1);
  }

  lemma Powers()
    ensures Power256(4) == U32_LIMIT && Power256(8) == U64_LIMIT
  {
    assert Power256(2) == 0x1_0000;
    assert Power256(4) == 0x1_0000_0000;
    assert Power256(6) == 0x1_0000_0000_0000;
  }

  function U32Value(b: seq<byte>): Float
    requires |b| == 4
  {
    NumberBound(b);
    Powers();
    Number(b)
  }

  function U64Value(b: seq<byte>): Double
    requires |b| == 8
  {
    NumberBound(b);
    Powers();
    Number(b)
  }

  lemma U32RoundTrip(n: nat)
    requires n < U32_LIMIT
    ensures U32Value(Fixed(n, 4)) == n
  {
    Powers();
    FixedRoundTrip(n, 4);
  }

  lemma U64RoundTrip(n: nat)
    requires n < U64_LIMIT
    ensures U64Value(Fixed(n, 8)) == n
  {
    hide Fixed;
    Powers();
    FixedRoundTrip(n, 8);
  }
}
