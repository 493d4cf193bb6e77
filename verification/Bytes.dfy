module Bytes {
  type byte = b: int | 0 <= b < 256

  type word = w: int | 0 <= w < 0x10000

  /** The 16-bit value of two octets in network order. */
  function Join(hi: byte, lo: byte): word { hi as int * 256 + lo as int }

  type u32 = n: int | 0 <= n < 0x1_0000_0000

  type u24 = n: int | 0 <= n < 0x100_0000

  function WordOctets(n: word): seq<byte> { [n / 256, n % 256] }

  function U24Octets(n: u24): seq<byte> { [n / 0x1_0000] + WordOctets(n % 0x1_0000) }

  function U24Of(a: byte, b: byte, c: byte): u24 { a as int * 0x1_0000 + Join(b, c) }

  function U32Octets(n: u32): seq<byte> { WordOctets(n / 0x1_0000) + WordOctets(n % 0x1_0000) }

  function U32Of(a: byte, b: byte, c: byte, d: byte): u32 { Join(a, b) as int * 0x1_0000 + Join(c, d) }

  /** What two, three or four octets say in network order: the first one counts most. */
  function Number(s: seq<byte>): (n: u32)
    ensures |s| == 2 ==> n < 0x1_0000
    ensures |s| == 3 ==> n < 0x100_0000
  {
    if |s| == 2 then 256 * s[0] as int + s[1]
    else if |s| == 3 then 65536 * s[0] as int + 256 * s[1] as int + s[2]
    else if |s| == 4 then 16777216 * s[0] as int + 65536 * s[1] as int + 256 * s[2] as int + s[3]
    else 0
  }

  lemma NumberOfTwo(s: seq<byte>, n: word)
    ensures |WordOctets(n)| == 2 && Number(WordOctets(n)) == n
    ensures |s| == 2 ==> Join(s[0], s[1]) == Number(s)
  {
  }

  lemma NumberOfThree(s: seq<byte>, n: u24)
    ensures |U24Octets(n)| == 3 && Number(U24Octets(n)) == n
    ensures |s| == 3 ==> U24Of(s[0], s[1], s[2]) == Number(s)
  {
    U24RoundTrip(n);
  }

  lemma NumberOfFour(s: seq<byte>, n: u32)
    ensures |U32Octets(n)| == 4 && Number(U32Octets(n)) == n
    ensures |s| == 4 ==> U32Of(s[0], s[1], s[2], s[3]) == Number(s)
  {
    hide WordOctets;
    U32RoundTrip(n);
    WordLength(n / 0x1_0000);
    WordLength(n % 0x1_0000);
  }

  lemma WordLength(n: word)
    ensures |WordOctets(n)| == 2
  {
  }

  /** Each integer field is what its octets say, in both directions. */
  lemma WordRoundTrip(n: word, a: byte, b: byte)
    ensures Join(WordOctets(n)[0], WordOctets(n)[1]) == n
    ensures WordOctets(Join(a, b)) == [a, b]
  {
  }

  lemma U24RoundTrip(n: u24)
    ensures U24Of(U24Octets(n)[0], U24Octets(n)[1], U24Octets(n)[2]) == n
  {
    WordRoundTrip(n % 0x1_0000, 0, 0);
  }

  lemma U24Inverse(a: byte, b: byte, c: byte)
    ensures U24Octets(U24Of(a, b, c)) == [a, b, c]
  {
    hide Join, WordOctets;
    var n, low := U24Of(a, b, c), Join(b, c);
    assert n / 0x1_0000 == a && n % 0x1_0000 == low;
    WordRoundTrip(0, b, c);
  }

  lemma U32RoundTrip(n: u32)
    ensures U32Of(U32Octets(n)[0], U32Octets(n)[1], U32Octets(n)[2], U32Octets(n)[3]) == n
  {
    WordRoundTrip(n / 0x1_0000, 0, 0);
    WordRoundTrip(n % 0x1_0000, 0, 0);
  }

  lemma U32Inverse(a: byte, b: byte, c: byte, d: byte)
    ensures U32Octets(U32Of(a, b, c, d)) == [a, b, c, d]
  {
    WordRoundTrip(0, a, b);
    WordRoundTrip(0, c, d);
  }

  predicate Bit(v: nat, i: nat)
  {
    if i == 0 then v % 2 == 1 else Bit(v / 2, i - 1)
  }

  function Pow2(n: nat): (p: nat)
    ensures p > 0
  {
    if n == 0 then 1 else 2 * Pow2(n - 1)
  }

  function FromBits(f: nat -> bool, lo: nat, n: nat): (v: nat)
    ensures v < Pow2(n)
    decreases n
  {
    if n == 0 then 0 else (if f(lo) then 1 else 0) + 2 * FromBits(f, lo + 1, n - 1)
  }

  lemma {:induction false} BitOfFromBits(f: nat -> bool, lo: nat, n: nat, i: nat)
    ensures Bit(FromBits(f, lo, n), i) == (i < n && f(lo + i))
    decreases n, i
  {
    if n == 0 {
      ZeroHasNoBits(i);
    } else if i > 0 {
      BitOfFromBits(f, lo + 1, n - 1, i - 1);
    }
  }

  lemma {:induction false} ZeroHasNoBits(i: nat)
    ensures !Bit(0, i)
  {
    if i == 0 {
    } else {
      ZeroHasNoBits(i - 1);
    }
  }

  lemma {:induction false} HighBitsClear(v: nat, n: nat, i: nat)
    requires v < Pow2(n) && n <= i
    ensures !Bit(v, i)
    decreases n, i
  {
    if n == 0 {
      ZeroHasNoBits(i);
    } else {
      HighBitsClear(v / 2, n - 1, i - 1);
    }
  }

  lemma {:induction false} BitsDetermine(a: nat, b: nat, n: nat)
    requires a < Pow2(n) && b < Pow2(n)
    requires forall i: nat :: i < n ==> Bit(a, i) == Bit(b, i)
    ensures a == b
  {
    if n == 0 {
    } else {
      assert Bit(a, 0) == Bit(b, 0);
      forall i: nat | i < n - 1 ensures Bit(a / 2, i) == Bit(b / 2, i) {
        assert Bit(a, i + 1) == Bit(b, i + 1);
      }
      BitsDetermine(a / 2, b / 2, n - 1);
    }
  }

  lemma Pow2Values()
    ensures Pow2(7) == 128 && Pow2(8) == 256
  {
    assert Pow2(4) == 16;
    assert Pow2(6) == 64;
  }

  function OctetWidth(): nat { 8 }

  /** The octet whose bit i is f(lo + i). */
  function ByteOf(f: nat -> bool, lo: nat): byte {
    Pow2Values();
    FromBits(f, lo, OctetWidth())
  }

  lemma BitOfByteOf(f: nat -> bool, lo: nat, i: nat)
    ensures Bit(ByteOf(f, lo), i) == (i < 8 && f(lo + i))
  {
    BitOfFromBits(f, lo, OctetWidth(), i);
  }

  lemma OctetsEqual(a: byte, b: byte)
    requires forall i: nat :: i < 8 ==> Bit(a, i) == Bit(b, i)
    ensures a == b
  {
    hide Bit;
    Pow2Values();
    BitsDetermine(a, b, OctetWidth());
  }

  /** Bitwise operators on octets, given by what they do to each bit. */
  function Or(a: byte, b: byte): byte { ByteOf((i: nat) => Bit(a, i) || Bit(b, i), 0) }

  function And(a: byte, b: byte): byte { ByteOf((i: nat) => Bit(a, i) && Bit(b, i), 0) }

  function Shl(a: byte, k: nat): byte { ByteOf((i: nat) => i >= k && Bit(a, i - k), 0) }

  function Shr(a: byte, k: nat): byte { ByteOf((i: nat) => Bit(a, i + k), 0) }

  lemma OrBit(a: byte, b: byte, i: nat)
    requires i < 8
    ensures Bit(Or(a, b), i) == (Bit(a, i) || Bit(b, i))
  {
    hide Bit, ByteOf;
    BitOfByteOf((j: nat) => Bit(a, j) || Bit(b, j), 0, i);
  }

  lemma AndBit(a: byte, b: byte, i: nat)
    requires i < 8
    ensures Bit(And(a, b), i) == (Bit(a, i) && Bit(b, i))
  {
    hide Bit, ByteOf;
    BitOfByteOf((j: nat) => Bit(a, j) && Bit(b, j), 0, i);
  }

  lemma ShlBit(a: byte, k: nat, i: nat)
    requires i < 8
    ensures Bit(Shl(a, k), i) == (i >= k && Bit(a, i - k))
  {
    hide Bit, ByteOf;
    BitOfByteOf((j: nat) => j >= k && Bit(a, j - k), 0, i);
  }

  lemma ShrBit(a: byte, k: nat, i: nat)
    requires i < 8
    ensures Bit(Shr(a, k), i) == Bit(a, i + k)
  {
    hide Bit, ByteOf;
    BitOfByteOf((j: nat) => Bit(a, j + k), 0, i);
  }

  /** Bit p of an octet string, least significant bit of the first octet first. */
  predicate BitAt(s: seq<byte>, p: nat) {
    p / 8 < |s| && Bit(s[p / 8], p % 8)
  }

  lemma StringsEqual(a: seq<byte>, b: seq<byte>)
    requires |a| == |b|
    requires forall p: nat :: p < 8 * |a| ==> BitAt(a, p) == BitAt(b, p)
    ensures a == b
  {
    forall k: nat | k < |a| ensures a[k] == b[k] {
      forall i: nat | i < 8 ensures Bit(a[k], i) == Bit(b[k], i) {
        assert BitAt(a, 8 * k + i) == BitAt(b, 8 * k + i);
      }
      OctetsEqual(a[k], b[k]);
    }
  }
}
