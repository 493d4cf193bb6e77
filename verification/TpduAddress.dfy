/** Address fields of transfer protocol data units (TS 23.040 section 9.1.2.5). */
module TpduAddress {
  import opened Wrappers
  import opened Bytes
  import opened Septets
  import opened Messages
  import Gsm7

  type TpAddress = Address<Gsm7.rune>

  const NO_ADDRESS: TpAddress := Address([], [], 0, 0)

  // ----- addresses -----

  predicate IsDigit(c: byte) { 0x30 <= c <= 0x39 }

  predicate AllDigits(digits: seq<byte>) { forall c :: c in digits ==> IsDigit(c) }

  type nibble = n: byte | n < 16

  function Value(c: byte): nibble { if IsDigit(c) then c - 0x30 else 0 }

  function Nibbles(low: nibble, high: nibble): byte { low as int + 16 * high as int }

  /** Semi-octets, low nibble first; a missing last digit is filled with 0xF. */
  function Bcd(digits: seq<byte>): seq<byte> {
    seq((|digits| + 1) / 2, k requires 0 <= k < (|digits| + 1) / 2 =>
      Nibbles(Value(digits[2 * k]), if 2 * k + 1 < |digits| then Value(digits[2 * k + 1]) else 15))
  }

  /** encodeBCD. */
  method EncodeBcd(digits: seq<byte>) returns (r: Result<seq<byte>, Fault>)
    ensures r == if AllDigits(digits) then Ok(Bcd(digits)) else Err(NotADigit)
  {
    hide Bit, Or, Shl, Nibbles, Value;
    var n := |digits|;
    var out := new byte[(n + 1) / 2](_ => 0);
    for i := 0 to n
      invariant AllDigits(digits[..i])
      invariant forall k :: 0 <= k < i / 2 ==> out[k] == Nibbles(Value(digits[2 * k]), Value(digits[2 * k + 1]))
      invariant i % 2 == 1 ==> out[i / 2] == Value(digits[i - 1])
    {
      var c := digits[i];
      assert c in digits;
      if c < 0x30 || c > 0x39 {
        return Err(NotADigit);
      }
      DigitValue(c);
      assert digits[..i + 1] == digits[..i] + [c];
      if i % 2 == 0 {
        out[i / 2] := c - 0x30;
      } else {
        NibbleOr(Value(digits[i - 1]), Value(c));
        out[i / 2] := Or(out[i / 2], Shl(c - 0x30, 4));
      }
    }
    assert digits[..n] == digits;
    if n % 2 == 1 {
      NibbleOr(Value(digits[n - 1]), 15);
      HighNibble(15);
      out[out.Length - 1] := Or(out[out.Length - 1], 0xF0);
    }
    assert out[..] == Bcd(digits);
    return Ok(out[..]);
  }

  lemma DigitValue(c: byte)
    ensures IsDigit(c) ==> Value(c) == c - 0x30
  {
  }

  /** The bits of a value below 2^k with another value above it. */
  lemma {:induction false} BitOfSum(low: nat, high: nat, k: nat, i: nat)
    requires low < Pow2(k)
    ensures Bit(low + Pow2(k) * high, i) == if i < k then Bit(low, i) else Bit(high, i - k)
    decreases k, i
  {
    if k == 0 {
    } else {
      var rest := Pow2(k - 1) * high;
      assert Pow2(k) * high == 2 * rest;
      if i > 0 {
        assert (low + 2 * rest) / 2 == low / 2 + rest;
        BitOfSum(low / 2, high, k - 1, i - 1);
      }
    }
  }

  lemma HighNibble(high: nibble)
    ensures Shl(high, 4) == 16 * high
  {
    hide Bit, Shl;
    assert Pow2(4) == 16;
    forall i: nat | i < 8 ensures Bit(Shl(high, 4), i) == Bit(16 * high, i) {
      ShlBit(high, 4, i);
      BitOfSum(0, high, 4, i);
      ZeroHasNoBits(i);
    }
    OctetsEqual(Shl(high, 4), 16 * high);
  }

  lemma NibbleOr(low: nibble, high: nibble)
    ensures Or(low, Shl(high, 4)) == Nibbles(low, high)
  {
    hide Bit, Or, Shl;
    assert Pow2(4) == 16;
    forall i: nat | i < 8 ensures Bit(Or(low, Shl(high, 4)), i) == Bit(Nibbles(low, high), i) {
      OrBit(low, Shl(high, 4), i);
      ShlBit(high, 4, i);
      BitOfSum(low, high, 4, i);
      if i >= 4 {
        HighBitsClear(low, 4, i);
      }
    }
    OctetsEqual(Or(low, Shl(high, 4)), Nibbles(low, high));
  }

  /** The digits that `before` grows to over one octet. */
  function DigitsOf(b: byte, numDigits: nat, before: seq<byte>): seq<byte> {
    var lo, hi := b % 16, b / 16 % 16;
    var one := if lo <= 9 then before + [0x30 + lo] else before;
    if hi <= 9 && |one| < numDigits then one + [0x30 + hi] else one
  }

  /** The digits read from semi-octets, after `before` was read already. */
  function DigitsFrom(data: seq<byte>, numDigits: nat, before: seq<byte>): seq<byte> {
    if data == [] then before else DigitsFrom(data[1..], numDigits, DigitsOf(data[0], numDigits, before))
  }

  /** decodeBCD. */
  method DecodeBcd(data: seq<byte>, numDigits: nat) returns (digits: seq<byte>)
    ensures digits == DigitsFrom(data, numDigits, [])
  {
    hide DigitsFrom;
    digits := [];
    assert data[0..] == data;
    for i := 0 to |data|
      invariant DigitsFrom(data[i..], numDigits, digits) == DigitsFrom(data, numDigits, [])
    {
      var b := data[i];
      var lo, hi := b % 16, b / 16 % 16;
      DigitsStep(data, i, numDigits, digits);
      if lo <= 9 {
        digits := digits + [0x30 + lo];
      }
      if hi <= 9 && |digits| < numDigits {
        digits := digits + [0x30 + hi];
      }
    }
    assert data[|data|..] == [];
    NoDigits(data[|data|..], numDigits, digits);
  }

  lemma DigitsStep(data: seq<byte>, i: nat, numDigits: nat, before: seq<byte>)
    requires i < |data|
    ensures DigitsFrom(data[i..], numDigits, before) ==
            DigitsFrom(data[i + 1..], numDigits, DigitsOf(data[i], numDigits, before))
  {
    hide DigitsOf;
    assert data[i..][1..] == data[i + 1..];
  }

  lemma NibblesSplit(low: nibble, high: nibble)
    ensures Nibbles(low, high) % 16 == low && Nibbles(low, high) / 16 % 16 == high
  {
  }

  lemma OctetRoundTrip(digits: seq<byte>, k: nat)
    requires AllDigits(digits) && 2 * k < |digits|
    ensures DigitsOf(Bcd(digits)[k], |digits|, digits[..2 * k])
              == if 2 * k + 1 < |digits| then digits[..2 * k + 2] else digits
  {
    hide Nibbles, Value;
    assert digits[2 * k] in digits;
    DigitValue(digits[2 * k]);
    NibblesSplit(Value(digits[2 * k]), if 2 * k + 1 < |digits| then Value(digits[2 * k + 1]) else 15);
    if 2 * k + 1 < |digits| {
      assert digits[2 * k + 1] in digits;
      DigitValue(digits[2 * k + 1]);
      assert digits[..2 * k + 2] == digits[..2 * k] + [digits[2 * k]] + [digits[2 * k + 1]];
    } else {
      assert digits == digits[..2 * k] + [digits[2 * k]];
    }
  }

  lemma {:induction false} BcdRoundTripFrom(digits: seq<byte>, k: nat)
    requires AllDigits(digits) && 2 * k <= |digits| + 1
    ensures var before := if 2 * k <= |digits| then digits[..2 * k] else digits;
            DigitsFrom(Bcd(digits)[k..], |digits|, before) == digits
    decreases |digits| + 1 - 2 * k
  {
    hide Nibbles, Value, DigitsOf;
    var data := Bcd(digits);
    if 2 * k >= |digits| {
      assert data[k..] == [];
      assert digits[..|digits|] == digits;
    } else {
      BcdRoundTripFrom(digits, k + 1);
      OctetRoundTrip(digits, k);
      assert data[k..][1..] == data[k + 1..];
    }
  }

  lemma {:induction false} BcdRoundTrip(digits: seq<byte>)
    requires AllDigits(digits)
    ensures DigitsFrom(Bcd(digits), |digits|, []) == digits
  {
    hide Bcd, DigitsFrom;
    BcdRoundTripFrom(digits, 0);
    assert Bcd(digits)[0..] == Bcd(digits);
    assert digits[..0] == [];
  }

  lemma {:induction false} AtMostTwoDigitsAnOctet(data: seq<byte>, numDigits: nat, before: seq<byte>)
    ensures |DigitsFrom(data, numDigits, before)| <= |before| + 2 * |data|
  {
    if data == [] {
    } else {
      AtMostTwoDigitsAnOctet(data[1..], numDigits, DigitsOf(data[0], numDigits, before));
    }
  }

  // ----- address fields -----

  /** Type and plan of number as sent: 0/0 stands for international E.164. */
  function TypeOfNumber(addr: TpAddress): (byte, byte) {
    if addr.ton == 0 && addr.npi == 0 then (1, 1) else (addr.ton, addr.npi)
  }

  function TypeOctet(ton: byte, npi: byte): byte { Or(Or(0x80, Shl(ton, 4)), npi) }

  /** encodeAlphaAddress: the length octet counts septets. */
  function AlphaField(septets: seq<septet>): seq<byte> {
    [|septets| % 256, 0xD0] + Packed([], septets, 0)
  }

  /** The length octet counts digits. */
  function LengthAndType(digits: nat, ton: byte, npi: byte): seq<byte> { [digits % 256, TypeOctet(ton, npi)] }

  function DigitField(addr: TpAddress): seq<byte> {
    LengthAndType(|addr.msisdn|, TypeOfNumber(addr).0, TypeOfNumber(addr).1) + Bcd(addr.msisdn)
  }

  /** encodeAddress: length, type and semi-octets, or packed septets for an alphanumeric sender. */
  function Encode(addr: TpAddress): Result<seq<byte>, Fault> {
    if addr.alpha != [] then
      Ok(AlphaField(Gsm7.EncodeText(addr.alpha)))
    else if addr.msisdn == [] then Ok([0x00, 0x80])
    else if !AllDigits(addr.msisdn) then Err(NotADigit)
    else Ok(DigitField(addr))
  }

  method EncodeAddress(addr: TpAddress) returns (r: Result<seq<byte>, Fault>)
    ensures r == Encode(addr)
  {
    hide Bit, Or, Shl;
    if addr.alpha != [] {
      var packed, septets := Gsm7.EncodeGsm7(addr.alpha);
      return Ok([septets % 256, 0xD0] + packed);
    }
    if addr.msisdn == [] {
      return Ok([0x00, 0x80]);
    }
    var ton, npi := addr.ton, addr.npi;
    if ton == 0 && npi == 0 {
      ton, npi := 0x01, 0x01;
    }
    var toa := Or(Or(0x80, Shl(ton, 4)), npi);
    var bcd := EncodeBcd(addr.msisdn);
    if bcd.Err? {
      return Err(bcd.error);
    }
    return Ok([|addr.msisdn| % 256, toa] + bcd.value);
  }

  /** decodeAddress at the start of `data`: the address and the octets it took. */
  function Decode(data: seq<byte>): Result<(TpAddress, nat), Fault> {
    if |data| < 2 then Err(AddressOutOfBounds)
    else
      var numDigits, toa := data[0], data[1];
      var numOctets := (numDigits as int + 1) / 2;
      if 2 + numOctets > |data| then Err(AddressOutOfBounds)
      else
        var ton, npi, field := toa / 16 % 8, toa % 16, data[2..2 + numOctets];
        if ton == 5
        then
          var alpha := Gsm7.DecodeText(Unpacked(field, numDigits as int * 4 / 7, Start(0)));
          Ok((Address([], alpha, ton, npi), 2 + numOctets))
        else
          var digits := DigitsFrom(field, numDigits, []);
          Ok((Address(if ton == 1 then TrimPlus(digits) else digits, [], ton, npi), 2 + numOctets))
  }

  method DecodeAddress(data: seq<byte>, pos: nat) returns (r: Result<(TpAddress, nat), Fault>)
    requires pos <= |data|
    ensures r == Decode(data[pos..])
  {
    hide DigitsFrom, Unpacked, Gsm7.DecodeText, Start;
    ghost var rest := data[pos..];
    if pos + 1 >= |data| {
      return Err(AddressOutOfBounds);
    }
    var numDigits, toa := data[pos], data[pos + 1];
    assert rest[0] == numDigits && rest[1] == toa;
    var at := pos + 2;
    var numOctets := (numDigits as int + 1) / 2;
    if at + numOctets > |data| {
      return Err(AddressOutOfBounds);
    }
    var ton, npi := toa / 16 % 8, toa % 16;
    var field := data[at..at + numOctets];
    assert field == rest[2..2 + numOctets];
    if ton == 5 {
      var alpha := Gsm7.DecodeGsm7(field, numDigits as int * 4 / 7, 0);
      return Ok((Address([], alpha, ton, npi), 2 + numOctets));
    }
    var digits := DecodeBcd(field, numDigits);
    if ton == 1 {
      digits := TrimPlus(digits);
    }
    return Ok((Address(digits, [], ton, npi), 2 + numOctets));
  }

  /** The address a receiver should see. */
  function Canonical(addr: TpAddress): TpAddress {
    if addr.alpha != [] then Address([], addr.alpha, 5, 0)
    else if addr.msisdn == [] then NO_ADDRESS
    else var (ton, npi) := TypeOfNumber(addr); Address(addr.msisdn, [], ton, npi)
  }

  /** A digit address whose length and type fit their fields. */
  predicate Fits(addr: TpAddress) {
    addr.alpha == [] &&
    (addr.msisdn != [] ==>
      |addr.msisdn| <= 255 &&
      var (ton, npi) := TypeOfNumber(addr); ton < 8 && ton != 5 && npi < 16)
  }

  lemma TypeOctetFields(ton: byte, npi: byte)
    requires ton < 8 && npi < 16
    ensures TypeOctet(ton, npi) == 128 + 16 * ton as int + npi
  {
    hide Bit, Or, Shl;
    assert Pow2(4) == 16 && Pow2(3) == 8;
    var high: nibble := 8 + ton;
    var first := Or(0x80, Shl(ton, 4));
    forall i: nat | i < 8 ensures Bit(TypeOctet(ton, npi), i) == Bit(Nibbles(npi, high), i) {
      OrBit(first, npi, i);
      OrBit(0x80, Shl(ton, 4), i);
      ShlBit(ton, 4, i);
      BitOfSum(npi, high, 4, i);
      TopBit(i);
      if i >= 4 {
        HighBitsClear(npi, 4, i);
        BitOfSum(ton, 1, 3, i - 4);
        OneBit(i - 4);
      }
    }
    OctetsEqual(TypeOctet(ton, npi), Nibbles(npi, high));
  }

  lemma TopBit(i: nat)
    requires i < 8
    ensures Bit(0x80, i) <==> i == 7
  {
    assert !Bit(0x80, 0) && !Bit(0x80, 1) && !Bit(0x80, 2) && !Bit(0x80, 3);
    assert !Bit(0x80, 4) && !Bit(0x80, 5) && !Bit(0x80, 6) && Bit(0x80, 7);
  }

  lemma OneBit(i: nat)
    requires i < 4
    ensures i >= 3 ==> Bit(1, i - 3)
  {
  }

  lemma DigitAddressRoundTrip(addr: TpAddress, tail: seq<byte>)
    requires Encode(addr).Ok? && Fits(addr)
    ensures Decode(Encode(addr).value + tail) == Ok((Canonical(addr), |Encode(addr).value|))
  {
    hide Bit, TypeOctet, Bcd, DigitsFrom, TypeOfNumber;
    var wire := Encode(addr).value + tail;
    if addr.msisdn == [] {
      assert DigitsFrom(wire[2..2], 0, []) == [] by { NoDigits(wire[2..2], 0, []); }
    } else {
      var (ton, npi) := TypeOfNumber(addr);
      TypeOfOctet(ton, npi);
      BcdLength(addr.msisdn);
      var field := wire[2..2 + (|addr.msisdn| + 1) / 2];
      assert field == Bcd(addr.msisdn);
      assert wire[0] == |addr.msisdn| && wire[1] == TypeOctet(ton, npi);
      BcdRoundTrip(addr.msisdn);
      assert DigitsFrom(field, |addr.msisdn|, []) == addr.msisdn;
      assert addr.msisdn[0] in addr.msisdn;
    }
  }

  lemma TypeOfOctet(ton: byte, npi: byte)
    requires ton < 8 && npi < 16
    ensures TypeOctet(ton, npi) / 16 % 8 == ton && TypeOctet(ton, npi) % 16 == npi
  {
    hide TypeOctet;
    TypeOctetFields(ton, npi);
  }

  lemma NoDigits(data: seq<byte>, numDigits: nat, before: seq<byte>)
    requires data == []
    ensures DigitsFrom(data, numDigits, before) == before
  {
  }

  lemma BcdLength(digits: seq<byte>)
    ensures |Bcd(digits)| == (|digits| + 1) / 2
  {
  }

  /** An alphanumeric sender is announced in septets and read back in semi-octets, so it is cut short. */
  lemma AlphaIsCutShort(addr: TpAddress, tail: seq<byte>)
    requires addr.alpha != []
    ensures var r := Decode(Encode(addr).value + tail);
            r.Ok? ==> r.value.0.alpha != addr.alpha
  {
    hide Decode, Packed, Unpacked, Gsm7.DecodeText, Gsm7.EncodeText, DigitsFrom, DigitField, Start;
    var septets := Gsm7.EncodeText(addr.alpha);
    AtLeastOneSeptet(addr.alpha);
    var data := Encode(addr).value + tail;
    assert data[0] == |septets| % 256 && data[1] == 0xD0;
    if Decode(data).Ok? {
      AlphaSeptets(data);
      var field := data[2..2 + (data[0] as int + 1) / 2];
      var read := Unpacked(field, data[0] as int * 4 / 7, Start(0));
      UnpackedAtMost(field, data[0] as int * 4 / 7, Start(0));
      Fewer(|septets|);
      Gsm7.EncodeDecodeShorter(read);
    }
  }

  /** The septets that a sender of characters is read from: four for every seven semi-octets announced. */
  lemma AlphaSeptets(data: seq<byte>)
    requires |data| >= 2 && data[1] == 0xD0
    ensures Decode(data).Ok? ==>
              var n := 2 + (data[0] as int + 1) / 2;
              && n <= |data|
              && Decode(data).value.0.alpha == Gsm7.DecodeText(Unpacked(data[2..n], data[0] as int * 4 / 7, Start(0)))
  {
    hide Unpacked, Gsm7.DecodeText, DigitsFrom, Start;
  }

  lemma Fewer(n: nat)
    requires n >= 1
    ensures n % 256 * 4 / 7 < n
  {
  }

  lemma AtLeastOneSeptet(text: seq<Gsm7.rune>)
    ensures text != [] ==> |Gsm7.EncodeText(text)| >= 1
  {
  }

  /** Whatever follows it, an address that is sent is read back as itself only if it fits. */
  lemma OnlyFittingSurvive(addr: TpAddress, tail: seq<byte>)
    requires Encode(addr).Ok?
    requires var r := Decode(Encode(addr).value + tail); r.Ok? && r.value.0 == Canonical(addr)
    ensures Fits(addr)
  {
    hide TypeOctet, Bcd, DigitsFrom, Packed, Unpacked, Gsm7.DecodeText, Gsm7.EncodeText;
    var wire := Encode(addr).value + tail;
    if addr.alpha != [] {
      AlphaIsCutShort(addr, tail);
    } else if addr.msisdn != [] {
      var numDigits: nat := wire[0];
      AtMostTwoDigitsAnOctet(wire[2..2 + (numDigits + 1) / 2], numDigits, []);
    }
  }

  /** An address comes back in canonical form exactly when it is made of digits and fits. */
  lemma RoundTrip(addr: TpAddress, tail: seq<byte>)
    requires Encode(addr).Ok?
    ensures Decode(Encode(addr).value + tail) == Ok((Canonical(addr), |Encode(addr).value|)) <==> Fits(addr)
  {
    hide Encode, Decode, Fits, Canonical;
    if Fits(addr) {
      DigitAddressRoundTrip(addr, tail);
    } else if Decode(Encode(addr).value + tail) == Ok((Canonical(addr), |Encode(addr).value|)) {
      OnlyFittingSurvive(addr, tail);
    }
  }

  /** The reader also loses its place, except after a single septet. */
  lemma AlphaLosesPlace(addr: TpAddress, tail: seq<byte>)
    requires addr.alpha != []
    ensures var wire := Encode(addr).value + tail;
            Decode(wire).Ok? &&
            (Decode(wire).value.1 == |Encode(addr).value| <==> |Gsm7.EncodeText(addr.alpha)| == 1)
  {
    hide Packed, Unpacked, Gsm7.DecodeText, Gsm7.EncodeText, DigitsFrom, DigitField, Start;
    AtLeastOneSeptet(addr.alpha);
    PackedLength([], Gsm7.EncodeText(addr.alpha), 0);
  }
}
