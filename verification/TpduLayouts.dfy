/**
  * Where everything stands in a transfer protocol data unit, in plain octets and numbers
  * (TS 23.040 sections 9.1.2.5, 9.2.2 and 9.2.3.24; TS 23.038 sections 4 and 6).
  */
module TpduLayouts {
  import opened Wrappers
  import opened Bytes
  import opened Septets
  import opened Messages
  import Gsm7
  import Ucs2
  import TpduAddress
  import UserData
  import ValidityPeriod
  import Tpdu

  // ----- characters -----

  /** The default alphabet, sixteen positions a row; position 0x1B is the escape. */
  const ALPHABET := [
    "@£$¥èéùìòÇ\nØø\rÅå", "Δ_ΦΓΛΩΠΨΣΘΞ\U{1B}ÆæßÉ",
    " !\"#¤%&'()*+,-./", "0123456789:;<=>?",
    "¡ABCDEFGHIJKLMNO", "PQRSTUVWXYZÄÖÑÜ§",
    "¿abcdefghijklmno", "pqrstuvwxyzäöñüà"]

  /** The characters behind an escape, and their positions. */
  const EXTENDED := "\U{0C}^{}\\[~]|€"
  const EXTENDED_AT: seq<septet> := [0x0A, 0x14, 0x28, 0x29, 0x2F, 0x3C, 0x3D, 0x3E, 0x40, 0x65]

  lemma DefaultAlphabet(i: septet)
    ensures |ALPHABET| == 8 && |ALPHABET[i / 16]| == 16 && Gsm7.Basic(i) == ALPHABET[i / 16][i % 16] as int
  {
    var row, at := i / 16, i % 16;
    assert row == 0 || row == 1 || row == 2 || row == 3 || row == 4 || row == 5 || row == 6 || row == 7;
    assert at == 0 || at == 1 || at == 2 || at == 3 || at == 4 || at == 5 || at == 6 || at == 7 || at == 8
           || at == 9 || at == 10 || at == 11 || at == 12 || at == 13 || at == 14 || at == 15;
  }

  lemma ExtensionTable(i: septet)
    ensures |EXTENDED| == |EXTENDED_AT| == 10
    ensures forall k :: 0 <= k < 10 ==> Gsm7.Extension(EXTENDED_AT[k]) == EXTENDED[k] as int
    ensures i !in EXTENDED_AT ==> Gsm7.Extension(i) == 0
  {
  }

  /** How septets read: an escape takes the next one with it, and reads as a space if that is undefined. */
  lemma ReadingSeptets(s: septet, e: septet, rest: seq<septet>)
    ensures s != 0x1B ==> Gsm7.DecodeText([s] + rest) == [Gsm7.Basic(s)] + Gsm7.DecodeText(rest)
    ensures Gsm7.DecodeText([0x1B, e] + rest) ==
            [if Gsm7.Extension(e) != 0 then Gsm7.Extension(e) else 0x20] + Gsm7.DecodeText(rest)
    ensures Gsm7.DecodeText([0x1B]) == [] && Gsm7.DecodeText([]) == []
  {
    hide Gsm7.Basic, Gsm7.Extension;
    assert ([s] + rest)[1..] == rest && ([0x1B as septet, e] + rest)[2..] == rest;
  }

  /** The first two characters of a packing: seven bits of one octet, the eighth and six of the next. */
  lemma PackingOrder(a: septet, b: septet)
    ensures Packed([], [a, b], 0) == [a as int + 128 * (b % 2), b / 2]
  {
    hide Packed, Bit, FromBits;
    PackedLength([], [a, b], 0);
    var p, q := Packed([], [a, b], 0), [(a as int + 128 * (b % 2)) as byte, (b / 2) as byte];
    forall i: nat | i < 16 ensures BitAt(p, i) == BitAt(q, i) {
      PackedBit([], [a, b], 0, i);
      TwoSeptets(a, b, i);
    }
    StringsEqual(p, q);
  }

  lemma TwoSeptets(a: septet, b: septet, i: nat)
    requires i < 16
    ensures TextBit([], [a, b], 0, i) == BitAt([a as int + 128 * (b % 2), b / 2], i)
  {
    hide FromBits;
    HighBitOf(a, b);
    if i >= 7 {
      assert Bit(b, i - 7) == (if i == 7 then b % 2 == 1 else Bit(b / 2, i - 8)) by { BitOfHalf(b, i - 7); }
      if i == 14 || i == 15 {
        assert Pow2(6) == 64;
        HighBitsClear(b / 2, 6, i - 8);
      }
    } else {
      LowBitsOf(a, b % 2, i);
    }
  }

  lemma BitOfHalf(b: nat, i: nat)
    ensures Bit(b, i) == if i == 0 then b % 2 == 1 else Bit(b / 2, i - 1)
  {
  }

  lemma {:induction false} LowBits(a: nat, high: nat, n: nat, i: nat)
    requires i < n && a < Pow2(n)
    ensures Bit(a + Pow2(n) * high, i) == Bit(a, i)
    decreases i
  {
    var p := Pow2(n - 1);
    assert a + Pow2(n) * high == a + 2 * (p * high);
    if i == 0 {
    } else {
      assert (a + 2 * (p * high)) / 2 == a / 2 + p * high;
      LowBits(a / 2, high, n - 1, i - 1);
    }
  }

  lemma LowBitsOf(a: septet, high: nat, i: nat)
    requires i < 7 && high < 2
    ensures Bit(a as int + 128 * high, i) == Bit(a, i)
  {
    hide Bit;
    Pow2Values();
    LowBits(a, high, 7, i);
  }

  lemma {:induction false} BitAbove(a: nat, high: nat, n: nat)
    requires a < Pow2(n)
    ensures Bit(a + Pow2(n) * high, n) == (high % 2 == 1)
  {
    if n == 0 {
    } else {
      var p := Pow2(n - 1);
      assert a + Pow2(n) * high == a + 2 * (p * high);
      assert (a + 2 * (p * high)) / 2 == a / 2 + p * high;
      BitAbove(a / 2, high, n - 1);
    }
  }

  lemma HighBitOf(a: septet, b: septet)
    ensures Bit(a as int + 128 * (b % 2), 7) == (b % 2 == 1)
  {
    hide Bit;
    Pow2Values();
    BitAbove(a, b % 2, 7);
  }

  /** UTF-16 in network order: one unit below 0x10000, and a surrogate pair above. */
  lemma UnitOrder(r: Gsm7.rune)
    ensures Ucs2.Encode([r]) ==
            if r < 0x10000 then [r / 256, r % 256]
            else [0xD8 + (r - 0x10000) / 0x40000, (r - 0x10000) / 1024 % 256,
                  0xDC + (r - 0x10000) / 256 % 4, (r - 0x10000) % 256]
  {
    assert [r][1..] == [];
    assert Ucs2.EncodeUnits([r]) == Ucs2.Units(r) + [];
    assert Ucs2.EncodeUnits([r]) == Ucs2.Units(r);
    SurrogateOctets(r);
  }

  lemma SurrogateOctets(r: Gsm7.rune)
    ensures r >= 0x10000 ==>
              var v := r - 0x10000;
              && (0xD800 + v / 1024) / 256 == 0xD8 + v / 0x40000 && (0xD800 + v / 1024) % 256 == v / 1024 % 256
              && (0xDC00 + v % 1024) / 256 == 0xDC + v / 256 % 4 && (0xDC00 + v % 1024) % 256 == v % 256
  {
    if r >= 0x10000 {
      var v := r - 0x10000;
      var a, b, c, d := v / 0x40000, v / 1024 % 256, v / 256 % 4, v % 256;
      assert v == 0x40000 * a + 1024 * b + 256 * c + d;
      assert v / 1024 == 256 * a + b && v % 1024 == 256 * c + d;
    }
  }

  /** An unpaired surrogate reads as U+FFFD, and a last odd octet as nothing. */
  lemma BrokenUnits(hi: byte, lo: byte, last: byte)
    ensures 0xD8 <= hi <= 0xDF ==> Ucs2.Decode([hi, lo]) == [0xFFFD]
    ensures Ucs2.Decode([last]) == [] && Ucs2.Decode([hi, lo, last]) == Ucs2.Decode([hi, lo])
  {
    var w: word := Join(hi, lo);
    assert Ucs2.Words([hi, lo]) == [w] && Ucs2.Words([last]) == [];
    assert Ucs2.Words([hi, lo, last]) == [w];
    LoneUnit(hi, lo);
    if 0xD8 <= hi <= 0xDF {
      assert [w][Ucs2.First([w]).1..] == [];
      assert Ucs2.DecodeUnits([w]) == [Ucs2.First([w]).0] + [];
    }
  }

  lemma LoneUnit(hi: byte, lo: byte)
    ensures 0xD8 <= hi <= 0xDF ==> Ucs2.First([Join(hi, lo)]) == (0xFFFD, 1)
  {
  }

  // ----- coding and validity -----

  /** The coding groups of a data coding scheme octet, by its bits. */
  lemma CodingGroups(dcs: byte)
    ensures ParseDcs(dcs) ==
            if dcs < 0xC0 then
              (if dcs % 16 in {4, 5, 6, 7} then EncodingBinary
               else if dcs % 16 in {8, 9, 10, 11} then EncodingUcs2 else EncodingGsm7)
            else if dcs < 0xE0 then EncodingGsm7
            else if dcs < 0xF0 then EncodingUcs2
            else if dcs % 8 >= 4 then EncodingBinary else EncodingGsm7
  {
  }

  /** A coding octet that is built has no other bit set. */
  lemma MinimalCoding(enc: Encoding)
    ensures BuildDcs(enc) == if enc == EncodingUcs2 then 8 else if enc == EncodingBinary then 4 else 0
  {
  }

  /** The relative periods: steps of five minutes, half hours, days and weeks, each up to its table's end. */
  lemma ValiditySteps(v: byte)
    ensures ValidityPeriod.Decode(0) == 5 && ValidityPeriod.Decode(255) == 63 * 7 * 24 * 60
    ensures v < 255 ==>
              ValidityPeriod.Decode(v + 1) - ValidityPeriod.Decode(v) ==
              if v < 143 then 5 else if v < 167 then 30 else if v < 196 then 24 * 60
              else if v == 196 then 5 * 7 * 24 * 60 - 30 * 24 * 60 else 7 * 24 * 60
  {
  }

  // ----- segments -----

  datatype Element = Element(kind: byte, value: seq<byte>)

  predicate Short(es: seq<Element>) { forall e :: e in es ==> |e.value| <= 255 }

  function ElementOctets(es: seq<Element>): seq<byte>
    requires Short(es)
  {
    if es == [] then [] else [es[0].kind, |es[0].value|] + es[0].value + ElementOctets(es[1..])
  }

  /** A segment element with an 8-bit reference, or with a 16-bit one. */
  predicate IsSegment(e: Element) { (e.kind == 0 && |e.value| == 3) || (e.kind == 8 && |e.value| == 4) }

  ghost predicate Names(c: ConcatInfo, e: Element)
    requires IsSegment(e)
  {
    if e.kind == 0 then c.reference == e.value[0] && c.total == e.value[1] && c.sequence == e.value[2]
    else c.reference == 256 * e.value[0] as int + e.value[1] && c.total == e.value[2] && c.sequence == e.value[3]
  }

  /** The last segment element. */
  function LastSegment(es: seq<Element>): (e: Option<Element>)
    ensures e.Some? ==> IsSegment(e.value)
    decreases |es|
  {
    if es == [] then None
    else if IsSegment(es[|es| - 1]) then Some(es[|es| - 1])
    else LastSegment(es[..|es| - 1])
  }

  /** What is read of elements: the last segment element, and nothing new if there is none. */
  ghost predicate ReadAs(es: seq<Element>, before: Option<ConcatInfo>, c: Option<ConcatInfo>) {
    match LastSegment(es)
    case None => c == before
    case Some(e) => c.Some? && Names(c.value, e)
  }

  lemma {:induction false} LastSegmentBehind(e: Element, rest: seq<Element>)
    ensures LastSegment([e] + rest) ==
            if LastSegment(rest).Some? then LastSegment(rest) else if IsSegment(e) then Some(e) else None
    decreases |rest|
  {
    hide IsSegment;
    if rest == [] {
      assert ([e] + rest)[..0] == [];
    } else {
      assert ([e] + rest)[..|rest|] == [e] + rest[..|rest| - 1];
      LastSegmentBehind(e, rest[..|rest| - 1]);
    }
  }

  lemma {:induction false} LastSegmentCounts(es: seq<Element>, before: Option<ConcatInfo>)
    requires Short(es)
    ensures ReadAs(es, before, ParseElements(ElementOctets(es), before))
  {
    hide ParseElements, IsSegment, Names, LastSegment;
    if es == [] {
      NoElements(before);
    } else {
      assert es[0] in es;
      var rest := es[1..];
      assert es == [es[0]] + rest;
      OneElement(es[0], ElementOctets(rest), before);
      LastSegmentBehind(es[0], rest);
      var found := if IsSegment(es[0]) then Some(Segment(es[0])) else before;
      LastSegmentCounts(rest, found);
    }
  }

  lemma NoElements(before: Option<ConcatInfo>)
    ensures ParseElements([], before) == before && LastSegment([]).None?
  {
  }

  function Segment(e: Element): (c: ConcatInfo)
    requires IsSegment(e)
    ensures Names(c, e)
  {
    if e.kind == 0 then ConcatInfo(e.value[0], e.value[1], e.value[2])
    else ConcatInfo(Join(e.value[0], e.value[1]), e.value[2], e.value[3])
  }

  lemma OneElement(e: Element, rest: seq<byte>, before: Option<ConcatInfo>)
    requires |e.value| <= 255
    ensures ParseElements([e.kind, |e.value|] + e.value + rest, before) ==
            ParseElements(rest, if IsSegment(e) then Some(Segment(e)) else before)
  {
    var ie: seq<byte> := [e.kind, |e.value|] + e.value + rest;
    var n: nat := |e.value|;
    assert ie[1] == n && ie[2..2 + n] == e.value && ie[2 + n..] == rest;
  }

  /** A header made of a length octet and elements, and the segment that is read from it. */
  lemma HeaderOfElements(es: seq<Element>)
    requires Short(es) && |ElementOctets(es)| <= 255
    ensures var raw := [|ElementOctets(es)|] + ElementOctets(es);
            && UdhOf(raw).Ok? && UdhOf(raw).value.raw == raw && ReadAs(es, None, UdhOf(raw).value.concat)
  {
    hide ParseElements, ReadAs, ElementOctets, LastSegment;
    var ie := ElementOctets(es);
    var raw: seq<byte> := [|ie|] + ie;
    assert raw[1..1 + raw[0]] == ie;
    LastSegmentCounts(es, None);
  }

  /** A header is refused exactly if it is shorter than it says, and kept as it is otherwise. */
  lemma HeadersRefused(raw: seq<byte>)
    ensures UdhOf(raw).Err? <==> raw != [] && |raw| < 1 + raw[0] as int
    ensures UdhOf(raw).Err? ==> UdhOf(raw).error == UdhTruncated
    ensures UdhOf(raw).Ok? ==> UdhOf(raw).value.raw == raw && (raw == [] ==> UdhOf(raw).value.concat.None?)
  {
    hide ParseElements;
  }

  /** The usual headers of a segment. */
  lemma SegmentHeaders(ref: byte, high: byte, total: byte, sequence: byte)
    ensures UdhOf([5, 0, 3, ref, total, sequence]) ==
            Ok(Udh([5, 0, 3, ref, total, sequence], Some(ConcatInfo(ref, total, sequence))))
    ensures UdhOf([6, 8, 4, high, ref, total, sequence]) ==
            Ok(Udh([6, 8, 4, high, ref, total, sequence],
                   Some(ConcatInfo(256 * high as int + ref, total, sequence))))
  {
    hide ParseElements;
    var a, b: seq<byte> := [5, 0, 3, ref, total, sequence], [6, 8, 4, high, ref, total, sequence];
    assert a[1..1 + a[0]] == [0, 3] + [ref, total, sequence] + [];
    assert b[1..1 + b[0]] == [8, 4] + [high, ref, total, sequence] + [];
    OneElement(Element(0, [ref, total, sequence]), [], None);
    OneElement(Element(8, [high, ref, total, sequence]), [], None);
    NoElements(Some(ConcatInfo(ref, total, sequence)));
    NoElements(Some(ConcatInfo(256 * high as int + ref, total, sequence)));
  }

  // ----- addresses -----

  /** Two digits an octet, the first of them in its low half, and 0xF behind an odd last one. */
  function Swapped(digits: seq<byte>): seq<byte>
    requires forall c :: c in digits ==> 0x30 <= c <= 0x39
    decreases |digits|
  {
    if digits == [] then []
    else
      assert digits[0] in digits;
      if |digits| == 1 then [digits[0] - 0x30 + 0xF0]
      else
        assert digits[1] in digits && forall c :: c in digits[2..] ==> c in digits;
        [digits[0] - 0x30 + 16 * (digits[1] as int - 0x30)] + Swapped(digits[2..])
  }

  lemma {:induction false} BcdIsSwapped(digits: seq<byte>)
    requires forall c :: c in digits ==> 0x30 <= c <= 0x39
    ensures TpduAddress.Bcd(digits) == Swapped(digits)
    decreases |digits|
  {
    hide TpduAddress.Bcd, TpduAddress.Nibbles, TpduAddress.Value, Swapped;
    BcdStep(digits);
    SwappedStep(digits);
    if digits == [] {
    } else if |digits| == 1 {
      HalvesOf(digits[0], 0x30);
    } else {
      HalvesOf(digits[0], digits[1]);
      BcdIsSwapped(digits[2..]);
    }
  }

  lemma SwappedStep(digits: seq<byte>)
    requires forall c :: c in digits ==> 0x30 <= c <= 0x39
    ensures digits != [] ==> 0x30 <= digits[0] <= 0x39
    ensures |digits| > 1 ==> 0x30 <= digits[1] <= 0x39 && forall c :: c in digits[2..] ==> 0x30 <= c <= 0x39
    ensures Swapped(digits) ==
            if digits == [] then []
            else if |digits| == 1 then [digits[0] - 0x30 + 0xF0]
            else [digits[0] - 0x30 + 16 * (digits[1] as int - 0x30)] + Swapped(digits[2..])
  {
    if digits != [] {
      assert digits[0] in digits;
      if |digits| > 1 {
        assert digits[1] in digits && forall c :: c in digits[2..] ==> c in digits;
      }
    }
  }

  lemma BcdStep(digits: seq<byte>)
    ensures TpduAddress.Bcd(digits) ==
            if digits == [] then []
            else if |digits| == 1 then [TpduAddress.Nibbles(TpduAddress.Value(digits[0]), 15)]
            else [TpduAddress.Nibbles(TpduAddress.Value(digits[0]), TpduAddress.Value(digits[1]))]
                 + TpduAddress.Bcd(digits[2..])
  {
    hide TpduAddress.Nibbles, TpduAddress.Value;
    var bcd := TpduAddress.Bcd(digits);
    if |digits| > 1 {
      var rest := TpduAddress.Bcd(digits[2..]);
      assert |bcd| == 1 + |rest|;
      forall k: nat | 1 <= k < |bcd| ensures bcd[k] == rest[k - 1] {
        assert digits[2..][2 * (k - 1)] == digits[2 * k];
      }
    }
  }

  lemma HalvesOf(a: byte, b: byte)
    requires 0x30 <= a <= 0x39 && 0x30 <= b <= 0x39
    ensures TpduAddress.Nibbles(TpduAddress.Value(a), TpduAddress.Value(b)) == a - 0x30 + 16 * (b as int - 0x30)
    ensures TpduAddress.Nibbles(TpduAddress.Value(a), 15) == a - 0x30 + 0xF0
  {
  }

  /** An address of digits: their number, type and plan, and the digits; 0/0 is sent as 1/1. */
  lemma DigitAddress(addr: TpduAddress.TpAddress)
    requires addr.alpha == [] && addr.msisdn != [] && |addr.msisdn| <= 255 && addr.ton < 8 && addr.npi < 16
    requires forall c :: c in addr.msisdn ==> 0x30 <= c <= 0x39
    ensures var toa := if addr.ton == 0 && addr.npi == 0 then 0x91 else 0x80 + 16 * addr.ton as int + addr.npi;
            TpduAddress.Encode(addr) == Ok([|addr.msisdn|, toa] + Swapped(addr.msisdn))
  {
    hide TpduAddress.Bcd, TpduAddress.TypeOctet, Swapped;
    BcdIsSwapped(addr.msisdn);
    TpduAddress.TypeOctetFields(1, 1);
    TpduAddress.TypeOctetFields(addr.ton, addr.npi);
    assert TpduAddress.AllDigits(addr.msisdn);
  }

  /** No address is two octets, anything but digits is refused, and a sender of characters is typed 0xD0. */
  lemma OtherAddresses(addr: TpduAddress.TpAddress)
    ensures addr.alpha == [] && addr.msisdn == [] ==> TpduAddress.Encode(addr) == Ok([0x00, 0x80])
    ensures addr.alpha == [] && (exists c :: c in addr.msisdn && !(0x30 <= c <= 0x39)) ==>
              TpduAddress.Encode(addr) == Err(NotADigit)
    ensures addr.alpha != [] ==>
              var septets := Gsm7.EncodeText(addr.alpha);
              TpduAddress.Encode(addr) == Ok([|septets| % 256, 0xD0] + Packed([], septets, 0))
  {
    hide TpduAddress.Bcd, TpduAddress.TypeOctet, Packed, Gsm7.EncodeText;
  }

  /** Semi-octets are read low half first, no filler counts, and high halves stop at the announced number. */
  lemma {:induction false} SemiOctetsRead(data: seq<byte>, b: byte, numDigits: nat, before: seq<byte>)
    ensures var d := TpduAddress.DigitsFrom(data, numDigits, before);
            var one := if b % 16 <= 9 then d + [0x30 + b % 16] else d;
            TpduAddress.DigitsFrom(data + [b], numDigits, before) ==
            if b / 16 <= 9 && |one| < numDigits then one + [0x30 + b / 16] else one
    ensures TpduAddress.DigitsFrom([], numDigits, before) == before
    decreases |data|
  {
    if data == [] {
      assert ([] + [b])[1..] == [];
    } else {
      assert (data + [b])[1..] == data[1..] + [b];
      SemiOctetsRead(data[1..], b, numDigits, TpduAddress.DigitsOf(data[0], numDigits, before));
    }
  }

  /** What of an address is read from where, and that only one that is cut short is refused. */
  lemma AddressRead(data: seq<byte>)
    ensures var r := TpduAddress.Decode(data);
            && (r.Ok? <==> |data| >= 2 && 2 + (data[0] as int + 1) / 2 <= |data|)
            && (r.Err? ==> r.error == AddressOutOfBounds)
            && (r.Ok? ==>
                  var (addr, n) := r.value;
                  && n == 2 + (data[0] as int + 1) / 2
                  && addr.ton == data[1] / 16 % 8 && addr.npi == data[1] % 16
                  && if addr.ton == 5 then
                       addr.msisdn == []
                       && addr.alpha == Gsm7.DecodeText(Unpacked(data[2..n], data[0] as int * 4 / 7, 0))
                     else addr.alpha == [] && addr.msisdn == TpduAddress.DigitsFrom(data[2..n], data[0], []))
  {
    hide Unpacked, Gsm7.DecodeText, TpduAddress.DigitsFrom, Start;
    UserData.NoFillWithoutHeader();
    if |data| >= 2 && 2 + (data[0] as int + 1) / 2 <= |data| {
      NoPlus(data[2..2 + (data[0] as int + 1) / 2], data[0], []);
    }
  }

  lemma {:induction false} NoPlus(data: seq<byte>, numDigits: nat, before: seq<byte>)
    requires 0x2B !in before
    ensures 0x2B !in TpduAddress.DigitsFrom(data, numDigits, before)
    ensures TrimPlus(TpduAddress.DigitsFrom(data, numDigits, before)) ==
            TpduAddress.DigitsFrom(data, numDigits, before)
    decreases |data|
  {
    if data == [] {
    } else {
      NoPlus(data[1..], numDigits, TpduAddress.DigitsOf(data[0], numDigits, before));
    }
  }

  /** A sender of characters that announces its semi-octets is read whole, up to unknown characters. */
  lemma CharactersInSemiOctets(text: seq<Gsm7.rune>, npi: byte, rest: seq<byte>)
    requires npi < 16 && |Gsm7.EncodeText(text)| <= 145
    ensures var septets := Gsm7.EncodeText(text);
            var field := Packed([], septets, 0);
            TpduAddress.Decode([(7 * |septets| + 3) / 4, 0xD0 + npi] + field + rest) ==
            Ok((Address([], Gsm7.Substituted(text), 5, npi), 2 + |field|))
  {
    hide Packed, Unpacked, Gsm7.EncodeText, Gsm7.DecodeText, Gsm7.Substituted, OctetCount, TpduAddress.DigitsFrom,
      TpduAddress.Decode;
    var septets := Gsm7.EncodeText(text);
    var field := Packed([], septets, 0);
    SemiOctets(|septets|);
    var n: byte := (7 * |septets| + 3) / 4;
    PackedLength([], septets, 0);
    var data: seq<byte> := [n, 0xD0 + npi] + field + rest;
    assert data[0] == n && data[1] == 0xD0 + npi && data[2..2 + |field|] == field;
    CharacterType(npi);
    assert (data[0] as int + 1) / 2 == |field| && data[0] as int * 4 / 7 == |septets|;
    AddressRead(data);
    Gsm7.PackedTextRoundTrip([], text, 0);
    var (addr, k) := TpduAddress.Decode(data).value;
    assert addr.ton == 5 && k == 2 + |field|;
    assert addr.alpha == Gsm7.Substituted(text);
  }

  lemma CharacterType(npi: byte)
    requires npi < 16
    ensures (0xD0 + npi) / 16 % 8 == 5 && (0xD0 + npi) % 16 == npi
  {
  }

  lemma SemiOctets(n: nat)
    ensures var semi := (7 * n + 3) / 4;
            semi * 4 / 7 == n && (semi + 1) / 2 == OctetCount(0, n) && (n <= 145 ==> semi < 256)
  {
    var q, r := n / 4, n % 4;
    assert (7 * n + 3) / 4 == 7 * q + (7 * r + 3) / 4;
  }

  // ----- user data -----

  /** The header that is sent: the one the message has, else one built for its segment. */
  lemma HeaderSent(msg: Tpdu.TpMessage)
    ensures UserData.HeaderOf(msg) ==
            if msg.udh.Some? && msg.udh.value.raw != [] then msg.udh.value.raw
            else if msg.concat.Some? then
              var c := msg.concat.value;
              [6, 8, 4, c.reference / 256, c.reference % 256, c.total, c.sequence]
            else []
  {
  }

  /** When and why user data is refused: too short for its length, or the length too short for its header. */
  lemma UserDataRefused(udl: byte, body: seq<byte>, dcs: byte, hasUdhi: bool)
    ensures UserData.Decode([], dcs, hasUdhi) == Err(Truncated)
    ensures var r, septets := UserData.Decode([udl] + body, dcs, hasUdhi), ParseDcs(dcs) == EncodingGsm7;
            var header := if hasUdhi && body != [] then 1 + body[0] as int else 0;
            var fault := if header > |body| then Some(UdhTruncated)
                         else if |body| < (if septets then (7 * udl as int + 7) / 8 else udl) then Some(Truncated)
                         else if (if septets then 8 * header > 7 * udl as int else header > udl as int)
                         then Some(UdhExceedsLength)
                         else None;
            (r.Ok? <==> fault.None?) && (r.Err? ==> fault == Some(r.error))
  {
    hide ParseDcs, Unpacked, Ucs2.Decode, Gsm7.DecodeText, ParseElements, Start;
    var data: seq<byte> := [udl] + body;
    assert data[1..] == body;
    if body != [] && 1 + body[0] as int <= |body| {
      assert |body[..1 + body[0] as int]| == 1 + body[0] as int;
    }
  }

  // ----- whole units -----

  /** A SUBMIT as it is sent, field behind field. */
  lemma SubmitSent(msg: Tpdu.TpMessage)
    requires Tpdu.Submit(msg).Ok?
    ensures var da, header := TpduAddress.Encode(msg.destination), UserData.HeaderOf(msg);
            var content := UserData.Encode(msg, header);
            && da.Ok? && content.Ok?
            && Tpdu.Submit(msg).value ==
               [1 + (if msg.validity.Some? then 16 else 0) + (if msg.reportRequired then 32 else 0)
                + (if header != [] then 64 else 0), msg.tpmr]
               + da.value
               + [0, if msg.dcs != 0 then msg.dcs else BuildDcs(msg.encoding)]
               + (if msg.validity.Some? then [ValidityPeriod.Encode(msg.validity.value)] else [])
               + [content.value.1 % 256] + content.value.0
  {
    hide TpduAddress.Encode, UserData.Encode, UserData.HeaderOf, BuildDcs;
  }

  lemma DeliverSent(msg: Tpdu.TpMessage, scts: seq<byte>)
    requires |scts| == 7 && Tpdu.Deliver(msg, scts).Ok?
    ensures var oa, header := TpduAddress.Encode(msg.source), UserData.HeaderOf(msg);
            var content := UserData.Encode(msg, header);
            && oa.Ok? && content.Ok?
            && Tpdu.Deliver(msg, scts).value ==
               [4 + (if msg.reportRequired then 32 else 0) + (if header != [] then 64 else 0)]
               + oa.value + [0, if msg.dcs != 0 then msg.dcs else BuildDcs(msg.encoding)] + scts
               + [content.value.1 % 256] + content.value.0
  {
    hide TpduAddress.Encode, UserData.Encode, UserData.HeaderOf, BuildDcs;
  }

  /** What a SUBMIT of these fields is read as; the form of its period is in the flags. */
  lemma SubmitRead(flags: byte, mr: byte, a: seq<byte>, da: TpduAddress.TpAddress, pid: byte, dcs: byte,
                   vp: seq<byte>, ud: seq<byte>, until: Tpdu.Clock)
    requires flags % 4 == 1 && |vp| == (match flags / 8 % 4 case 0 => 0 case 2 => 1 case _ => 7)
    requires TpduAddress.Decode(a + ([pid, dcs] + (vp + ud))) == Ok((da, |a|))
    ensures var content := UserData.Decode(ud, dcs, flags / 64 % 2 == 1);
            var validity := match flags / 8 % 4
                            case 0 => None
                            case 1 => Some(ValidityPeriod.Decode(vp[1]) as int)
                            case 2 => Some(ValidityPeriod.Decode(vp[0]) as int)
                            case _ => Some(if until(vp) < 0 then 0 else until(vp));
            Tpdu.Decode([flags, mr] + (a + ([pid, dcs] + (vp + ud))), until) ==
            match content
            case Err(e) => Err(e)
            case Ok(c) => Ok(Message(Address([], [], 0, 0), da, c.text, c.binary, c.encoding, dcs, c.udh, c.concat,
                                     mr, flags / 32 % 2 == 1, validity, []))
  {
    hide TpduAddress.Decode, UserData.Decode, ValidityPeriod.Decode;
    var tail := [pid, dcs] + (vp + ud);
    var data := [flags, mr] + (a + tail);
    assert data[2..] == a + tail;
    assert data[2 + |a|..] == tail by { Tpdu.Suffix(data, 2, a, tail); }
    assert data[2 + |a| + 1] == tail[1] && data[2 + |a| + 2..] == vp + ud;
    assert (vp + ud)[|vp|..] == ud && (vp + ud)[..|vp|] == vp;
  }

  /** The same of a DELIVER, which has a time stamp and no reference or period. */
  lemma DeliverRead(flags: byte, a: seq<byte>, oa: TpduAddress.TpAddress, pid: byte, dcs: byte,
                    scts: seq<byte>, ud: seq<byte>, until: Tpdu.Clock)
    requires flags % 4 == 0 && |scts| == 7 && |a| >= 1
    requires TpduAddress.Decode(a + ([pid, dcs] + (scts + ud))) == Ok((oa, |a|))
    ensures var content := UserData.Decode(ud, dcs, flags / 64 % 2 == 1);
            Tpdu.Decode([flags] + (a + ([pid, dcs] + (scts + ud))), until) ==
            match content
            case Err(e) => Err(e)
            case Ok(c) => Ok(Message(oa, Address([], [], 0, 0), c.text, c.binary, c.encoding, dcs, c.udh, c.concat,
                                     0, flags / 32 % 2 == 1, None, scts))
  {
    hide TpduAddress.Decode, UserData.Decode;
    var tail := [pid, dcs] + (scts + ud);
    var data := [flags] + (a + tail);
    assert data[1..] == a + tail;
    assert data[1 + |a|..] == tail by { Tpdu.Suffix(data, 1, a, tail); }
    assert data[1 + |a| + 1] == tail[1] && data[1 + |a| + 2..] == scts + ud;
    assert (scts + ud)[7..] == ud && (scts + ud)[..7] == scts;
  }

  /** A STATUS-REPORT yields its reference and its recipient, whatever its time stamps and status say. */
  lemma StatusReportRead(flags: byte, mr: byte, a: seq<byte>, ra: TpduAddress.TpAddress,
                         scts: seq<byte>, discharge: seq<byte>, status: byte, rest: seq<byte>, until: Tpdu.Clock)
    requires flags % 4 == 2 && |scts| == 7 && |discharge| == 7
    requires TpduAddress.Decode(a + (scts + discharge + [status] + rest)) == Ok((ra, |a|))
    ensures Tpdu.Decode([flags, mr] + (a + (scts + discharge + [status] + rest)), until) ==
            Ok(Message(ra, Address([], [], 0, 0), [], [], EncodingGsm7, 0, None, None, mr, false, None, []))
  {
    hide TpduAddress.Decode;
    var data := [flags, mr] + (a + (scts + discharge + [status] + rest));
    assert data[2..] == a + (scts + discharge + [status] + rest);
  }

  /** One without room for them is refused, and so is a unit of the fourth kind. */
  lemma UnitsRefused(data: seq<byte>, until: Tpdu.Clock)
    ensures |data| < 2 ==> Tpdu.Decode(data, until) == Err(TooShort)
    ensures |data| >= 2 && data[0] % 4 == 3 ==> Tpdu.Decode(data, until) == Err(UnsupportedType)
    ensures |data| >= 2 && data[0] % 4 == 2 ==>
              var r, a := Tpdu.Decode(data, until), TpduAddress.Decode(data[2..]);
              && (r.Ok? <==> |data| >= 14 && a.Ok? && a.value.1 + 17 <= |data|)
              && (r.Err? ==> r.error == if |data| < 14 then TooShort else if a.Err? then a.error else Truncated)
  {
    hide TpduAddress.Decode, UserData.Decode;
  }

  /** Why a SUBMIT or a DELIVER is refused: its address, its fixed fields, its period or its user data. */
  lemma FieldsRefused(data: seq<byte>, until: Tpdu.Clock)
    requires |data| >= 2 && data[0] % 4 <= 1
    ensures var submit := data[0] % 4 == 1;
            var at := if submit then 2 else 1;
            var r, a := Tpdu.Decode(data, until), TpduAddress.Decode(data[at..]);
            if a.Err? then r == Err(a.error)
            else
              var next := at + a.value.1 + 2;
              var ud := next + if submit then match data[0] / 8 % 4 case 0 => 0 case 2 => 1 case _ => 7 else 7;
              if |data| < ud then r == Err(Truncated)
              else
                var c := UserData.Decode(data[ud..], data[next - 1], data[0] / 64 % 2 == 1);
                (r.Ok? <==> c.Ok?) && (c.Err? ==> r == Err(c.error))
  {
    hide TpduAddress.Decode, UserData.Decode, ValidityPeriod.Decode;
    var submit := data[0] % 4 == 1;
    var at := if submit then 2 else 1;
    var a := TpduAddress.Decode(data[at..]);
    if a.Ok? {
      var next := at + a.value.1 + 2;
      var ud := next + if submit then match data[0] / 8 % 4 case 0 => 0 case 2 => 1 case _ => 7 else 7;
      if ud <= |data| {
        assert data[next..][ud - next..] == data[ud..];
      }
    }
  }

  /** A header of elements behind the length octet: it is kept, and its segment is read. */
  lemma SegmentsRead(es: seq<Element>, udl: byte, text: seq<byte>, dcs: byte)
    requires Short(es) && |ElementOctets(es)| <= 255
    ensures var header := [|ElementOctets(es)|] + ElementOctets(es);
            var r := UserData.Decode([udl] + (header + text), dcs, true);
            r.Ok? ==>
              && r.value.udh.Some? && r.value.udh.value.raw == header
              && r.value.concat == r.value.udh.value.concat && ReadAs(es, None, r.value.concat)
  {
    hide ParseDcs, ReadAs, ElementOctets, UdhOf, Unpacked, Ucs2.Decode, Gsm7.DecodeText, Start;
    HeaderOfElements(es);
    var header: seq<byte> := [|ElementOctets(es)|] + ElementOctets(es);
    var body := header + text;
    var data: seq<byte> := [udl] + body;
    assert data[1..] == body && body[..1 + body[0] as int] == header;
  }

  /** So a SUBMIT or a DELIVER that announces such a header is of the segment that its elements name last. */
  lemma SegmentOfUnit(es: seq<Element>, udl: byte, text: seq<byte>, flags: byte, mr: byte, a: seq<byte>,
                      addr: TpduAddress.TpAddress, pid: byte, dcs: byte, field: seq<byte>, until: Tpdu.Clock)
    requires Short(es) && |ElementOctets(es)| <= 255 && flags / 64 % 2 == 1 && |a| >= 1
    ensures var ud := [udl] + ([|ElementOctets(es)|] + ElementOctets(es) + text);
            var data := [flags, mr] + (a + ([pid, dcs] + (field + ud)));
            && TpduAddress.Decode(a + ([pid, dcs] + (field + ud))) == Ok((addr, |a|))
            && flags % 4 == 1 && |field| == (match flags / 8 % 4 case 0 => 0 case 2 => 1 case _ => 7)
            && Tpdu.Decode(data, until).Ok?
            ==> ReadAs(es, None, Tpdu.Decode(data, until).value.concat)
    ensures var ud := [udl] + ([|ElementOctets(es)|] + ElementOctets(es) + text);
            var data := [flags] + (a + ([pid, dcs] + (field + ud)));
            && TpduAddress.Decode(a + ([pid, dcs] + (field + ud))) == Ok((addr, |a|))
            && flags % 4 == 0 && |field| == 7 && Tpdu.Decode(data, until).Ok?
            ==> ReadAs(es, None, Tpdu.Decode(data, until).value.concat)
  {
    hide ReadAs, ElementOctets, TpduAddress.Decode, UserData.Decode, Tpdu.Decode;
    var ud := [udl] + ([|ElementOctets(es)|] + ElementOctets(es) + text);
    SegmentsRead(es, udl, text, dcs);
    if TpduAddress.Decode(a + ([pid, dcs] + (field + ud))) == Ok((addr, |a|)) {
      if flags % 4 == 1 && |field| == (match flags / 8 % 4 case 0 => 0 case 2 => 1 case _ => 7) {
        SubmitRead(flags, mr, a, addr, pid, dcs, field, ud, until);
      }
      if flags % 4 == 0 && |field| == 7 {
        DeliverRead(flags, a, addr, pid, dcs, field, ud, until);
      }
    }
  }
}
