/**
  * Packing of 7-bit characters into octets (TS 23.038 section 6.1.2.1), with the
  * optional user data header in front of the text (TS 23.040 section 9.2.3.24).
  */
module Septets {
  import opened Bytes

  type septet = s: byte | s < 128

  /** Fill bits that bring the end of a header of this many octets to a septet boundary. */
  function FillBits(udhOctets: nat): nat { (7 - udhOctets * 8 % 7) % 7 }

  /** The bit at which text begins behind a header of this many octets. */
  function Start(udhOctets: nat): nat { 8 * udhOctets + FillBits(udhOctets) }

  /** Bit p of the user data that holds `head` and then `text` packed from bit `start`. */
  predicate TextBit(head: seq<byte>, text: seq<septet>, start: nat, p: nat) {
    if p < 8 * |head| then BitAt(head, p)
    else p >= start && (p - start) / 7 < |text| && Bit(text[(p - start) / 7], (p - start) % 7)
  }

  function OctetCount(start: nat, septets: nat): nat { (start + 7 * septets + 7) / 8 }

  function Octet(head: seq<byte>, text: seq<septet>, start: nat, k: nat): byte {
    ByteOf((p: nat) => TextBit(head, text, start, p), 8 * k)
  }

  /** The user data, octet by octet. */
  function Packed(head: seq<byte>, text: seq<septet>, start: nat): seq<byte> {
    seq(OctetCount(start, |text|), (k: nat) => Octet(head, text, start, k))
  }

  function SeptetWidth(): nat { 7 }

  /** The septet that begins at bit `pos`; bits past the last octet read as zero. */
  function SeptetAt(packed: seq<byte>, pos: nat): septet {
    Pow2Values();
    FromBits((p: nat) => BitAt(packed, p), pos, SeptetWidth())
  }

  /** Up to `count` septets read from bit `pos`; reading stops at the end of the octets. */
  function Unpacked(packed: seq<byte>, count: nat, pos: nat): seq<septet> {
    if count == 0 || pos / 8 >= |packed| then []
    else [SeptetAt(packed, pos)] + Unpacked(packed, count - 1, pos + 7)
  }

  lemma {:induction false} UnpackedAtMost(packed: seq<byte>, count: nat, pos: nat)
    ensures |Unpacked(packed, count, pos)| <= count
  {
    hide SeptetAt;
    if count == 0 || pos / 8 >= |packed| {
    } else {
      UnpackedAtMost(packed, count - 1, pos + 7);
    }
  }

  lemma SeptetsEqual(a: septet, b: septet)
    requires forall i: nat :: i < 7 ==> Bit(a, i) == Bit(b, i)
    ensures a == b
  {
    hide Bit, FromBits;
    Pow2Values();
    BitsDetermine(a, b, SeptetWidth());
  }

  lemma SeptetBit(packed: seq<byte>, pos: nat, i: nat)
    ensures Bit(SeptetAt(packed, pos), i) == (i < 7 && BitAt(packed, pos + i))
  {
    hide Bit, FromBits, BitAt;
    BitOfFromBits((p: nat) => BitAt(packed, p), pos, SeptetWidth(), i);
  }

  lemma PackedBit(head: seq<byte>, text: seq<septet>, start: nat, p: nat)
    requires p < 8 * OctetCount(start, |text|)
    ensures BitAt(Packed(head, text, start), p) == TextBit(head, text, start, p)
  {
    hide Bit, FromBits, TextBit, ByteOf;
    BitOfByteOf((q: nat) => TextBit(head, text, start, q), 8 * (p / 8), p % 8);
  }

  /** The header octets come out in front, unchanged. */
  lemma HeadIsPrefix(head: seq<byte>, text: seq<septet>, start: nat)
    requires 8 * |head| <= start
    ensures |head| <= |Packed(head, text, start)|
    ensures Packed(head, text, start)[..|head|] == head
  {
    hide Bit, FromBits;
    var out := Packed(head, text, start);
    forall p: nat | p < 8 * |head| ensures BitAt(out[..|head|], p) == BitAt(head, p) {
      PackedBit(head, text, start, p);
    }
    StringsEqual(out[..|head|], head);
  }

  lemma TextBitInSeptet(head: seq<byte>, text: seq<septet>, start: nat, j: nat, i: nat)
    requires 8 * |head| <= start && j < |text| && i < 7
    ensures TextBit(head, text, start, start + 7 * j + i) == Bit(text[j], i)
  {
    assert (7 * j + i) / 7 == j && (7 * j + i) % 7 == i;
  }

  lemma TextBitStep(head: seq<byte>, text: seq<septet>, start: nat, j: nat, p: nat)
    requires 8 * |head| <= start && j < |text|
    ensures var pos := start + 7 * j;
            TextBit(head, text[..j + 1], start, p) ==
            (TextBit(head, text[..j], start, p) || (pos <= p < pos + 7 && Bit(text[j], p - pos)))
  {
    hide Bit;
    if p >= start {
      var q := p - start;
      assert 7 * j <= q < 7 * j + 7 <==> q / 7 == j;
    }
  }

  lemma InRange(start: nat, n: nat, j: nat, i: nat)
    requires j < n && i < 7
    ensures start + 7 * j + i < 8 * OctetCount(start, n)
    ensures (start + 7 * j + i) / 8 < OctetCount(start, n)
  {
  }

  lemma SeptetOfPackedBit(head: seq<byte>, text: seq<septet>, start: nat, j: nat, i: nat)
    requires 8 * |head| <= start && j < |text| && i < 7
    ensures Bit(SeptetAt(Packed(head, text, start), start + 7 * j), i) == Bit(text[j], i)
  {
    hide Bit, FromBits, TextBit, SeptetAt, BitAt, Packed;
    var out, pos := Packed(head, text, start), start + 7 * j;
    SeptetBit(out, pos, i);
    InRange(start, |text|, j, i);
    PackedBit(head, text, start, pos + i);
    TextBitInSeptet(head, text, start, j, i);
  }

  lemma SeptetOfPacked(head: seq<byte>, text: seq<septet>, start: nat, j: nat)
    requires 8 * |head| <= start && j < |text|
    ensures SeptetAt(Packed(head, text, start), start + 7 * j) == text[j]
  {
    hide Bit, FromBits, SeptetAt, Packed;
    var s := SeptetAt(Packed(head, text, start), start + 7 * j);
    forall i: nat | i < 7 ensures Bit(s, i) == Bit(text[j], i) {
      SeptetOfPackedBit(head, text, start, j, i);
    }
    SeptetsEqual(s, text[j]);
  }

  lemma {:induction false} UnpackFrom(packed: seq<byte>, text: seq<septet>, start: nat, j: nat)
    requires j <= |text|
    requires |packed| == OctetCount(start, |text|)
    requires forall k: nat :: k < |text| ==> SeptetAt(packed, start + 7 * k) == text[k]
    ensures Unpacked(packed, |text| - j, start + 7 * j) == text[j..]
    decreases |text| - j
  {
    hide SeptetAt, OctetCount, Unpacked;
    if j == |text| {
      assert text[j..] == [];
      UnpackNone(packed, start + 7 * j);
    } else {
      UnpackFrom(packed, text, start, j + 1);
      InRange(start, |text|, j, 0);
      UnpackStep(packed, |text| - j, start + 7 * j);
      assert SeptetAt(packed, start + 7 * j) == text[j];
      assert text[j..] == [text[j]] + text[j + 1..];
    }
  }

  lemma UnpackNone(packed: seq<byte>, pos: nat)
    ensures Unpacked(packed, 0, pos) == []
  {
  }

  lemma UnpackStep(packed: seq<byte>, count: nat, pos: nat)
    requires count > 0 && pos / 8 < |packed|
    ensures Unpacked(packed, count, pos) == [SeptetAt(packed, pos)] + Unpacked(packed, count - 1, pos + 7)
  {
    hide SeptetAt;
  }

  /** Unpacking what was packed behind any header returns the same septets. */
  lemma UnpackPack(head: seq<byte>, text: seq<septet>, start: nat)
    requires 8 * |head| <= start
    ensures Unpacked(Packed(head, text, start), |text|, start) == text
  {
    hide Bit, FromBits, TextBit, SeptetAt, BitAt, Packed;
    var out := Packed(head, text, start);
    forall k: nat | k < |text| ensures SeptetAt(out, start + 7 * k) == text[k] {
      SeptetOfPacked(head, text, start, k);
    }
    assert |out| == OctetCount(start, |text|) by { PackedLength(head, text, start); }
    UnpackFrom(out, text, start, 0);
    assert text[0..] == text;
  }

  lemma PackedLength(head: seq<byte>, text: seq<septet>, start: nat)
    ensures |Packed(head, text, start)| == OctetCount(start, |text|)
  {
  }

  lemma PaddingBit(head: seq<byte>, text: seq<septet>, start: nat, p: nat)
    requires 8 * |head| <= start
    ensures TextBit(head, text + [0], start, p) == TextBit(head, text, start, p)
  {
    hide Bit, BitAt, TextBit;
    var longer := text + [0];
    assert longer[..|text|] == text && longer[..|text| + 1] == longer;
    TextBitStep(head, longer, start, |text|, p);
    if start + 7 * |text| <= p {
      ZeroHasNoBits(p - (start + 7 * |text|));
    }
  }

  /** A final zero septet that only covers padding leaves the octets as they were. */
  lemma PaddingReadsAsZero(head: seq<byte>, text: seq<septet>, start: nat)
    requires 8 * |head| <= start && (start + 7 * |text|) % 8 == 1
    ensures Packed(head, text + [0], start) == Packed(head, text, start)
  {
    hide Bit, BitAt, TextBit, ByteOf;
    var longer := text + [0];
    forall k: nat | k < OctetCount(start, |text|) ensures Octet(head, longer, start, k) == Octet(head, text, start, k) {
      forall i: nat | i < 8 ensures Bit(Octet(head, longer, start, k), i) == Bit(Octet(head, text, start, k), i) {
        BitOfByteOf((p: nat) => TextBit(head, longer, start, p), 8 * k, i);
        BitOfByteOf((p: nat) => TextBit(head, text, start, p), 8 * k, i);
        PaddingBit(head, text, start, 8 * k + i);
      }
      OctetsEqual(Octet(head, longer, start, k), Octet(head, text, start, k));
    }
  }

  lemma RoomInOctets(start: nat, n: nat)
    ensures 8 * OctetCount(start, n) >= start
    ensures (8 * OctetCount(start, n) - start) / 7 == if (start + 7 * n) % 8 == 1 then n + 1 else n
  {
    var bits := start + 7 * n;
    var spare := 8 * OctetCount(start, n) - bits;
    assert 0 <= spare < 8 && (spare == 7 <==> bits % 8 == 1);
    assert 8 * OctetCount(start, n) - start == 7 * n + spare;
  }

  /**
    * A reader that derives the septet count from the octets alone gets the text back,
    * except that it reads one more septet, a zero, exactly when seven padding bits follow.
    */
  lemma UnpackWholeOctets(head: seq<byte>, text: seq<septet>, start: nat)
    requires 8 * |head| <= start
    ensures var packed := Packed(head, text, start);
            8 * |packed| >= start &&
            Unpacked(packed, (8 * |packed| - start) / 7, start)
              == if (start + 7 * |text|) % 8 == 1 then text + [0] else text
  {
    hide Bit, BitAt, TextBit, SeptetAt, Packed, Unpacked, OctetCount;
    PackedLength(head, text, start);
    RoomInOctets(start, |text|);
    UnpackPack(head, text, start);
    if (start + 7 * |text|) % 8 == 1 {
      PaddingReadsAsZero(head, text, start);
      UnpackPack(head, text + [0], start);
    }
  }

  /**
    * The encoder's septet total and octet count, and the decoder's own formulas for
    * the header septets and the octets a septet total needs, describe the same sizes.
    */
  lemma LengthFormulasAgree(u: nat, n: nat)
    ensures Start(u) % 7 == 0
    ensures Start(u) / 7 == (8 * u + 6) / 7
    ensures ((Start(u) / 7 + n) * 7 + 7) / 8 == OctetCount(Start(u), n)
  {
    StartIsMultiple(u);
    hide Start;
    assert (Start(u) / 7 + n) * 7 == Start(u) + 7 * n;
  }

  lemma StartIsMultiple(u: nat)
    ensures Start(u) % 7 == 0 && Start(u) / 7 == (8 * u + 6) / 7
  {
    var k, r := 8 * (u / 7) + u % 7, u % 7;
    var m := if r == 0 then k else k + 1;
    Quotient(u * 8, k, r);
    Quotient(7 - r, if r == 0 then 1 else 0, if r == 0 then 0 else 7 - r);
    assert Start(u) == 7 * m;
    Quotient(Start(u), m, 0);
    Quotient(8 * u + 6, m, if r == 0 then 6 else r - 1);
  }

  lemma Quotient(n: nat, k: nat, r: nat)
    requires n == 7 * k + r && r < 7
    ensures n / 7 == k && n % 7 == r
  {
  }

  /** One septet or-ed into the octets from bit `pos`, spilling into the next octet where it must. */
  function OrAt(buf: seq<byte>, pos: nat, s: septet): seq<byte>
    requires pos / 8 < |buf|
  {
    var b, k := pos / 8, pos % 8;
    var first := buf[b := Or(buf[b], Shl(s, k))];
    if k > 1 && b + 1 < |buf| then first[b + 1 := Or(first[b + 1], Shr(s, 8 - k))] else first
  }

  lemma OrAtBit(buf: seq<byte>, pos: nat, s: septet, p: nat)
    requires pos + 7 <= 8 * |buf| && p < 8 * |buf|
    ensures BitAt(OrAt(buf, pos, s), p) == (BitAt(buf, p) || (pos <= p < pos + 7 && Bit(s, p - pos)))
  {
    hide Bit, Or, Shl, Shr;
    var b, k, i := pos / 8, pos % 8, p % 8;
    Pow2Values();
    if p / 8 == b {
      OrBit(buf[b], Shl(s, k), i);
      ShlBit(s, k, i);
      if i >= k + 7 {
        HighBitsClear(s, 7, i - k);
      }
    } else if p / 8 == b + 1 && k > 1 {
      OrBit(buf[b + 1], Shr(s, 8 - k), i);
      ShrBit(s, 8 - k, i);
      if i + 8 - k >= 7 {
        HighBitsClear(s, 7, i + 8 - k);
      }
    }
  }

  /** The loop both packers run: or every septet into a buffer that holds only the header. */
  method PackInto(out: array<byte>, ghost head: seq<byte>, text: seq<septet>, start: nat)
    requires 8 * |head| <= start
    requires out.Length == OctetCount(start, |text|)
    requires forall p: nat :: p < 8 * out.Length ==> BitAt(out[..], p) == (p < 8 * |head| && BitAt(head, p))
    modifies out
    ensures out[..] == Packed(head, text, start)
  {
    hide Bit, BitAt, TextBit, Or, Shl, Shr;
    var bitPos := start;
    forall p: nat | p < 8 * out.Length ensures BitAt(out[..], p) == TextBit(head, text[..0], start, p) {
      EmptyTextBit(head, start, p);
    }
    for j := 0 to |text|
      invariant bitPos == start + 7 * j
      invariant forall p: nat :: p < 8 * out.Length ==> BitAt(out[..], p) == TextBit(head, text[..j], start, p)
    {
      var s, byteIdx, bitIdx := text[j], bitPos / 8, bitPos % 8;
      InRange(start, |text|, j, 0);
      InRange(start, |text|, j, 6);
      ghost var before := out[..];
      out[byteIdx] := Or(out[byteIdx], Shl(s, bitIdx));
      if bitIdx > 1 && byteIdx + 1 < out.Length {
        out[byteIdx + 1] := Or(out[byteIdx + 1], Shr(s, 8 - bitIdx));
      }
      assert out[..] == OrAt(before, bitPos, s);
      forall p: nat | p < 8 * out.Length ensures BitAt(out[..], p) == TextBit(head, text[..j + 1], start, p) {
        OrAtBit(before, bitPos, s, p);
        TextBitStep(head, text, start, j, p);
      }
      bitPos := bitPos + 7;
    }
    assert text[..|text|] == text;
    PackedLength(head, text, start);
    forall p: nat | p < 8 * out.Length ensures BitAt(out[..], p) == BitAt(Packed(head, text, start), p) {
      PackedBit(head, text, start, p);
    }
    StringsEqual(out[..], Packed(head, text, start));
  }

  lemma EmptyTextBit(head: seq<byte>, start: nat, p: nat)
    ensures TextBit(head, [], start, p) == (p < 8 * |head| && BitAt(head, p))
  {
  }

  lemma ZeroBuffer(buf: seq<byte>, head: seq<byte>, p: nat)
    requires |head| <= |buf| && p < 8 * |buf|
    requires forall k :: 0 <= k < |buf| ==> buf[k] == if k < |head| then head[k] else 0
    ensures BitAt(buf, p) == (p < 8 * |head| && BitAt(head, p))
  {
    hide Bit;
    if p >= 8 * |head| {
      ZeroHasNoBits(p % 8);
    }
  }

  /** packGSM7: septets packed from the first bit; no septets give no octets. */
  method PackGsm7(text: seq<septet>) returns (packed: seq<byte>)
    ensures packed == Packed([], text, 0)
  {
    hide Bit, BitAt, TextBit;
    if |text| == 0 {
      return [];
    }
    var out := new byte[(|text| * 7 + 7) / 8](_ => 0);
    forall p: nat | p < 8 * out.Length ensures !BitAt(out[..], p) {
      ZeroBuffer(out[..], [], p);
    }
    PackInto(out, [], text, 0);
    packed := out[..];
  }

  lemma HeadFits(u: nat, n: nat)
    ensures u <= OctetCount(Start(u), n)
  {
    assert 8 * u <= Start(u) + 7 * n;
  }

  /** packGSM7WithUDH: the header, fill bits and the text; `udl` counts the header in septets too. */
  method PackGsm7WithUdh(udh: seq<byte>, text: seq<septet>) returns (packed: seq<byte>, udl: nat)
    ensures packed == Packed(udh, text, Start(|udh|))
    ensures udl == Start(|udh|) / 7 + |text|
  {
    hide Bit, BitAt, TextBit, FillBits, Packed;
    var fillBits := FillBits(|udh|);
    var udhSeptets := (|udh| * 8 + fillBits) / 7;
    udl := udhSeptets + |text|;
    var totalBits := |udh| * 8 + fillBits + |text| * 7;
    var out := new byte[(totalBits + 7) / 8](_ => 0);
    HeadFits(|udh|, |text|);
    for k := 0 to |udh|
      invariant forall i :: 0 <= i < out.Length ==> out[i] == if i < k then udh[i] else 0
    {
      out[k] := udh[k];
    }
    ZeroBehindHead(out[..], udh);
    PackInto(out, udh, text, |udh| * 8 + fillBits);
    packed := out[..];
  }

  lemma ZeroBehindHead(buf: seq<byte>, head: seq<byte>)
    requires |head| <= |buf|
    requires forall i :: 0 <= i < |buf| ==> buf[i] == if i < |head| then head[i] else 0
    ensures forall p: nat :: p < 8 * |buf| ==> BitAt(buf, p) == (p < 8 * |head| && BitAt(head, p))
  {
    hide BitAt;
    forall p: nat | p < 8 * |buf| ensures BitAt(buf, p) == (p < 8 * |head| && BitAt(head, p)) {
      ZeroBuffer(buf, head, p);
    }
  }

  lemma MaskedSeptetBit(packed: seq<byte>, pos: nat, s: byte, i: nat)
    requires pos / 8 < |packed| && i < 8
    requires var b, k := pos / 8, pos % 8;
             s == if k > 1 && b + 1 < |packed|
                  then Or(And(Shr(packed[b], k), 0x7F), And(Shl(packed[b + 1], 8 - k), 0x7F))
                  else And(Shr(packed[b], k), 0x7F)
    ensures Bit(s, i) == (i < 7 && BitAt(packed, pos + i))
  {
    hide Bit, Or, And, Shl, Shr;
    var b, k := pos / 8, pos % 8;
    MaskBits(i);
    AndBit(Shr(packed[b], k), 0x7F, i);
    ShrBit(packed[b], k, i);
    Pow2Values();
    if i + k >= 8 {
      HighBitsClear(packed[b], 8, i + k);
    }
    if k > 1 && b + 1 < |packed| {
      OrBit(And(Shr(packed[b], k), 0x7F), And(Shl(packed[b + 1], 8 - k), 0x7F), i);
      AndBit(Shl(packed[b + 1], 8 - k), 0x7F, i);
      ShlBit(packed[b + 1], 8 - k, i);
    }
  }

  lemma MaskedSeptet(packed: seq<byte>, pos: nat, s: byte)
    requires pos / 8 < |packed|
    requires var b, k := pos / 8, pos % 8;
             s == if k > 1 && b + 1 < |packed|
                  then Or(And(Shr(packed[b], k), 0x7F), And(Shl(packed[b + 1], 8 - k), 0x7F))
                  else And(Shr(packed[b], k), 0x7F)
    ensures s == SeptetAt(packed, pos)
  {
    hide Bit, BitAt, SeptetAt, Or, And, Shl, Shr;
    forall i: nat | i < 8 ensures Bit(s, i) == Bit(SeptetAt(packed, pos), i) {
      MaskedSeptetBit(packed, pos, s, i);
      SeptetBit(packed, pos, i);
    }
    OctetsEqual(s, SeptetAt(packed, pos));
  }

  lemma MaskBits(i: nat)
    requires i < 8
    ensures Bit(0x7F, i) == (i < 7)
  {
    assert Bit(0x7F, 0) && Bit(0x7F, 1) && Bit(0x7F, 2) && Bit(0x7F, 3) && Bit(0x7F, 4);
    assert Bit(0x7F, 5) && Bit(0x7F, 6) && !Bit(0x7F, 7);
  }

  /** unpackGSM7: reads septets from behind a header of `udhOctets` octets until the octets run out. */
  method UnpackGsm7(packed: seq<byte>, septets: nat, udhOctets: nat) returns (out: seq<septet>)
    ensures out == Unpacked(packed, septets, Start(udhOctets))
  {
    hide Bit, BitAt, SeptetAt, Or, And, Shl, Shr;
    out := [];
    var fillBits := 0;
    if udhOctets > 0 {
      fillBits := FillBits(udhOctets);
    }
    var bitPos: nat := udhOctets * 8 + fillBits;
    for i := 0 to septets
      invariant out + Unpacked(packed, septets - i, bitPos) == Unpacked(packed, septets, Start(udhOctets))
    {
      var byteIdx, bitIdx := bitPos / 8, bitPos % 8;
      if byteIdx >= |packed| {
        break;
      }
      var s := And(Shr(packed[byteIdx], bitIdx), 0x7F);
      if bitIdx > 1 && byteIdx + 1 < |packed| {
        s := Or(s, And(Shl(packed[byteIdx + 1], 8 - bitIdx), 0x7F));
      }
      MaskedSeptet(packed, bitPos, s);
      ghost var rest := Unpacked(packed, septets - i - 1, bitPos + 7);
      assert out + ([s] + rest) == out + [s] + rest;
      out := out + [s];
      bitPos := bitPos + 7;
    }
  }
}
