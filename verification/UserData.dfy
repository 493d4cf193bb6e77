/** TP-User-Data with its length octet and optional header (TS 23.040 section 9.2.3.24). */
module UserData {
  import opened Wrappers
  import opened Bytes
  import opened Septets
  import opened Messages
  import Gsm7
  import Ucs2

  type TpMessage = Message<Gsm7.rune>

  /** The part of a message that its user data carries. */
  datatype Content = Content(
    encoding: Encoding, text: seq<Gsm7.rune>, binary: seq<byte>, udh: Option<Udh>, concat: Option<ConcatInfo>)

  /** encodeUDH: the raw header when there is one, else one built for a segment. */
  function HeaderOf(msg: TpMessage): seq<byte> {
    if msg.udh.Some? && msg.udh.value.raw != [] then msg.udh.value.raw
    else if msg.concat.Some? then BuildConcatUdh(msg.concat.value)
    else []
  }

  /** encodeUD: the user data and its length, in septets for 7-bit text and in octets otherwise. */
  function Encode(msg: TpMessage, udh: seq<byte>): Result<(seq<byte>, nat), Fault> {
    match msg.encoding
    case EncodingGsm7 =>
      var septets := Gsm7.EncodeText(msg.text);
      Ok((Packed(udh, septets, Start(|udh|)), Start(|udh|) / 7 + |septets|))
    case EncodingUcs2 =>
      var ud := udh + Ucs2.Encode(msg.text);
      Ok((ud, |ud|))
    case EncodingBinary =>
      var ud := udh + msg.binary;
      Ok((ud, |ud|))
    case EncodingUtf8 => Err(UnsupportedEncoding)
  }

  lemma NoFillWithoutHeader()
    ensures Start(0) == 0
  {
  }

  method EncodeUserData(msg: TpMessage, udh: seq<byte>) returns (r: Result<(seq<byte>, nat), Fault>)
    ensures r == Encode(msg, udh)
  {
    hide Packed, Ucs2.Encode, Gsm7.EncodeText, Start;
    NoFillWithoutHeader();
    match msg.encoding {
      case EncodingGsm7 =>
        var packed, septets := Gsm7.EncodeGsm7(msg.text);
        if |udh| > 0 {
          var raw := Gsm7.TextSeptets(msg.text);
          packed, septets := PackGsm7WithUdh(udh, raw);
        } else {
          assert udh == [];
        }
        return Ok((packed, septets));
      case EncodingUcs2 =>
        var payload := Ucs2.EncodeUcs2(msg.text);
        var ud := udh + payload;
        return Ok((ud, |ud|));
      case EncodingBinary =>
        var ud := udh + msg.binary;
        return Ok((ud, |ud|));
      case EncodingUtf8 =>
        return Err(UnsupportedEncoding);
    }
  }

  /** The header octets at the start of the user data, if one is announced and there is user data at all. */
  function HeaderIn(body: seq<byte>, hasUdhi: bool): Result<Option<Udh>, Fault> {
    if !hasUdhi || body == [] then Ok(None)
    else if 1 + body[0] as int > |body| then Err(UdhTruncated)
    else
      var udh :- UdhOf(body[..1 + body[0] as int]);
      Ok(Some(udh))
  }

  function HeaderOctets(udh: Option<Udh>): nat { if udh.Some? then |udh.value.raw| else 0 }

  function HeaderConcat(udh: Option<Udh>): Option<ConcatInfo> { if udh.Some? then udh.value.concat else None }

  /** 7-bit text behind a header; the length counts septets. */
  function TextIn(udl: nat, body: seq<byte>, udh: Option<Udh>): Result<Content, Fault> {
    var octets := (udl * 7 + 7) / 8;
    var udhSeptets := (HeaderOctets(udh) * 8 + 6) / 7;
    if octets > |body| then Err(Truncated)
    else if udhSeptets > udl then Err(UdhExceedsLength)
    else
      var text := Gsm7.DecodeText(Unpacked(body[..octets], udl - udhSeptets, Start(HeaderOctets(udh))));
      Ok(Content(EncodingGsm7, text, [], udh, HeaderConcat(udh)))
  }

  /** Anything else behind a header; the length counts octets. */
  function DataIn(enc: Encoding, udl: nat, body: seq<byte>, udh: Option<Udh>): Result<Content, Fault> {
    if udl > |body| then Err(Truncated)
    else if HeaderOctets(udh) > udl then Err(UdhExceedsLength)
    else
      var payload := body[HeaderOctets(udh)..udl];
      if enc == EncodingUcs2 then Ok(Content(EncodingUcs2, Ucs2.Decode(payload), [], udh, HeaderConcat(udh)))
      else Ok(Content(EncodingBinary, [], payload, udh, HeaderConcat(udh)))
  }

  /** decodeUD, from the length octet on. */
  function Decode(data: seq<byte>, dcs: byte, hasUdhi: bool): Result<Content, Fault> {
    if data == [] then Err(Truncated)
    else
      var udl, body := data[0], data[1..];
      var udh :- HeaderIn(body, hasUdhi);
      if ParseDcs(dcs) == EncodingGsm7 then TextIn(udl, body, udh) else DataIn(ParseDcs(dcs), udl, body, udh)
  }

  /** The part of decodeUD that looks for a header at the cursor. */
  method ReadHeader(data: seq<byte>, at: nat, hasUdhi: bool) returns (r: Result<Option<Udh>, Fault>)
    requires at <= |data|
    ensures r == HeaderIn(data[at..], hasUdhi)
  {
    hide UdhOf;
    ghost var body := data[at..];
    if hasUdhi && at < |data| {
      var udhLen: nat := data[at];
      if at + 1 + udhLen > |data| {
        return Err(UdhTruncated);
      }
      var raw := data[at..at + 1 + udhLen];
      assert raw == body[..1 + udhLen];
      var udh :- DecodeUdh(raw);
      return Ok(Some(udh));
    }
    return Ok(None);
  }

  method ReadText(data: seq<byte>, at: nat, udl: nat, udh: Option<Udh>) returns (r: Result<Content, Fault>)
    requires at <= |data|
    ensures r == TextIn(udl, data[at..], udh)
  {
    hide Unpacked, Gsm7.DecodeText, Start, HeaderOctets;
    var octets := (udl * 7 + 7) / 8;
    if octets > |data| - at {
      return Err(Truncated);
    }
    var udhOctets := HeaderOctets(udh);
    var udhSeptets := (udhOctets * 8 + 6) / 7;
    if udhSeptets > udl {
      return Err(UdhExceedsLength);
    }
    assert data[at..at + octets] == data[at..][..octets];
    var text := Gsm7.DecodeGsm7(data[at..at + octets], udl - udhSeptets, udhOctets);
    return Ok(Content(EncodingGsm7, text, [], udh, HeaderConcat(udh)));
  }

  method ReadData(data: seq<byte>, at: nat, enc: Encoding, udl: nat, udh: Option<Udh>)
    returns (r: Result<Content, Fault>)
    requires at <= |data|
    ensures r == DataIn(enc, udl, data[at..], udh)
  {
    hide Ucs2.Decode, HeaderOctets;
    if udl > |data| - at {
      return Err(Truncated);
    }
    var udhOctets := HeaderOctets(udh);
    if udhOctets > udl {
      return Err(UdhExceedsLength);
    }
    var payload := data[at + udhOctets..at + udl];
    assert payload == data[at..][udhOctets..udl];
    if enc == EncodingUcs2 {
      var text := Ucs2.DecodeUcs2(payload);
      return Ok(Content(EncodingUcs2, text, [], udh, HeaderConcat(udh)));
    }
    return Ok(Content(EncodingBinary, [], payload, udh, HeaderConcat(udh)));
  }

  /** decodeUD. */
  method DecodeUserData(data: seq<byte>, pos: nat, dcs: byte, hasUdhi: bool) returns (r: Result<Content, Fault>)
    requires pos <= |data|
    ensures r == Decode(data[pos..], dcs, hasUdhi)
  {
    hide TextIn, DataIn, HeaderIn, ParseDcs;
    if pos >= |data| {
      return Err(Truncated);
    }
    var udl, at := data[pos], pos + 1;
    assert data[pos..][1..] == data[at..];
    var enc := ParseDcs(dcs);
    var udh :- ReadHeader(data, at, hasUdhi);
    if enc == EncodingGsm7 {
      r := ReadText(data, at, udl, udh);
    } else {
      r := ReadData(data, at, enc, udl, udh);
    }
  }

  lemma RawIsKept(raw: seq<byte>)
    ensures UdhOf(raw).Ok? ==> UdhOf(raw).value.raw == raw
  {
  }

  /** What a receiver should read: 7-bit text after substitution, everything else as it was. */
  function Expected(msg: TpMessage, udh: seq<byte>): Content {
    var header := if udh == [] then None else Some(Udh(udh, ParseElements(udh[1..], None)));
    Content(
      msg.encoding,
      match msg.encoding case EncodingGsm7 => Gsm7.Substituted(msg.text) case EncodingUcs2 => msg.text case _ => [],
      if msg.encoding == EncodingBinary then msg.binary else [],
      header,
      HeaderConcat(header))
  }

  /** The coding octet names the encoding, the header is well formed, and the length fits its octet. */
  predicate Fits(msg: TpMessage, udh: seq<byte>, dcs: byte)
    requires Encode(msg, udh).Ok?
  {
    && ParseDcs(dcs) == msg.encoding
    && (udh != [] ==> WellFormedUdh(udh))
    && Encode(msg, udh).value.1 <= 255
  }

  /** The user data as it stands in a message, behind its length octet. */
  function Field(ud: seq<byte>, udl: nat): seq<byte> { [udl % 256] + ud }

  lemma HeaderReadBack(msg: TpMessage, udh: seq<byte>)
    requires Encode(msg, udh).Ok? && udh != [] && WellFormedUdh(udh)
    ensures HeaderIn(Encode(msg, udh).value.0, true) == Ok(Expected(msg, udh).udh)
  {
    hide Packed, Ucs2.Encode, Gsm7.EncodeText, ParseElements;
    var ud := Encode(msg, udh).value.0;
    if msg.encoding == EncodingGsm7 {
      HeadIsPrefix(udh, Gsm7.EncodeText(msg.text), Start(|udh|));
    }
    assert ud[..|udh|] == udh;
    assert ud[0] == udh[0];
    assert udh[1..1 + udh[0]] == udh[1..];
  }

  /** What is read behind the header that was written, whatever its length octet says. */
  lemma DecodeBehindHeader(msg: TpMessage, udh: seq<byte>, dcs: byte)
    requires Encode(msg, udh).Ok? && (udh != [] ==> WellFormedUdh(udh))
    ensures var (ud, udl) := Encode(msg, udh).value;
            var header := Expected(msg, udh).udh;
            && HeaderOctets(header) == |udh|
            && Decode(Field(ud, udl), dcs, udh != []) ==
               if ParseDcs(dcs) == EncodingGsm7 then TextIn(udl % 256, ud, header)
               else DataIn(ParseDcs(dcs), udl % 256, ud, header)
  {
    hide TextIn, DataIn, HeaderIn, ParseDcs, ParseElements, Encode, WellFormedUdh;
    var (ud, udl) := Encode(msg, udh).value;
    var data := Field(ud, udl);
    assert data[0] == udl % 256 && data[1..] == ud;
    assert HeaderIn(ud, udh != []) == Ok(Expected(msg, udh).udh) by {
      if udh == [] { NoHeader(ud); } else { HeaderReadBack(msg, udh); }
    }
  }

  lemma FittingSurvives(msg: TpMessage, udh: seq<byte>, dcs: byte)
    requires Encode(msg, udh).Ok? && Fits(msg, udh, dcs)
    ensures var (ud, udl) := Encode(msg, udh).value;
            Decode(Field(ud, udl), dcs, udh != []) == Ok(Expected(msg, udh))
  {
    hide Decode, TextIn, DataIn, HeaderOctets, ParseDcs, Packed, Start, WellFormedUdh;
    DecodeBehindHeader(msg, udh, dcs);
    if msg.encoding == EncodingGsm7 {
      FittingText(msg, udh);
    } else {
      FittingData(msg, udh);
    }
  }

  lemma FittingText(msg: TpMessage, udh: seq<byte>)
    requires msg.encoding == EncodingGsm7
    ensures var (ud, udl) := Encode(msg, udh).value;
            var expected := Expected(msg, udh);
            HeaderOctets(expected.udh) == |udh| ==> TextIn(udl, ud, expected.udh) == Ok(expected)
  {
    hide Packed, Unpacked, Gsm7.EncodeText, Gsm7.DecodeText, Gsm7.Substituted, Start, ParseElements, HeaderOctets;
    var (ud, udl) := Encode(msg, udh).value;
    var septets := Gsm7.EncodeText(msg.text);
    LengthFormulasAgree(|udh|, |septets|);
    StartAfterHeader(|udh|);
    PackedLength(udh, septets, Start(|udh|));
    assert ud[..|ud|] == ud;
    Gsm7.PackedTextRoundTrip(udh, msg.text, Start(|udh|));
  }

  lemma FittingData(msg: TpMessage, udh: seq<byte>)
    requires Encode(msg, udh).Ok? && msg.encoding != EncodingGsm7
    ensures var (ud, udl) := Encode(msg, udh).value;
            var expected := Expected(msg, udh);
            HeaderOctets(expected.udh) == |udh| ==> DataIn(msg.encoding, udl, ud, expected.udh) == Ok(expected)
  {
    hide Ucs2.Encode, Ucs2.Decode, ParseElements, HeaderOctets;
    var (ud, udl) := Encode(msg, udh).value;
    if msg.encoding == EncodingUcs2 {
      assert ud[|udh|..udl] == Ucs2.Encode(msg.text);
      Ucs2.DecodeEncode(msg.text);
    } else {
      assert ud[|udh|..udl] == msg.binary;
    }
  }

  lemma NoHeader(body: seq<byte>)
    ensures HeaderIn(body, false) == Ok(None)
  {
  }

  lemma StartAfterHeader(u: nat)
    ensures 8 * u <= Start(u)
  {
  }

  /** A length that does not fit its octet makes the reader stop short. */
  lemma OverlongIsCutShort(msg: TpMessage, udh: seq<byte>, dcs: byte)
    requires Encode(msg, udh).Ok? && ParseDcs(dcs) == msg.encoding && (udh != [] ==> WellFormedUdh(udh))
    ensures var (ud, udl) := Encode(msg, udh).value;
            udl > 255 ==> Decode(Field(ud, udl), dcs, udh != []) != Ok(Expected(msg, udh))
  {
    hide Encode, Decode, TextIn, DataIn, HeaderOctets, ParseDcs, WellFormedUdh, Expected;
    DecodeBehindHeader(msg, udh, dcs);
    var short := Encode(msg, udh).value.1 % 256;
    if Encode(msg, udh).value.1 <= 255 {
    } else if msg.encoding == EncodingGsm7 {
      OverlongText(msg, udh, short);
    } else {
      OverlongData(msg, udh, short);
    }
  }

  lemma OverlongText(msg: TpMessage, udh: seq<byte>, short: nat)
    requires msg.encoding == EncodingGsm7 && short < Encode(msg, udh).value.1
    ensures var ud, expected := Encode(msg, udh).value.0, Expected(msg, udh);
            HeaderOctets(expected.udh) == |udh| ==> TextIn(short, ud, expected.udh) != Ok(expected)
  {
    hide Packed, Unpacked, Gsm7.EncodeText, Gsm7.DecodeText, Gsm7.Substituted, Start, ParseElements, HeaderOctets;
    var ud, u := Encode(msg, udh).value.0, |udh|;
    LengthFormulasAgree(u, |Gsm7.EncodeText(msg.text)|);
    var octets, udhSeptets := (short * 7 + 7) / 8, (u * 8 + 6) / 7;
    if octets <= |ud| && udhSeptets <= short {
      var read := Unpacked(ud[..octets], short - udhSeptets, Start(u));
      UnpackedAtMost(ud[..octets], short - udhSeptets, Start(u));
      Gsm7.EncodeDecodeShorter(read);
      Gsm7.EncodeSubstituted(msg.text);
    }
  }

  lemma OverlongData(msg: TpMessage, udh: seq<byte>, short: nat)
    requires Encode(msg, udh).Ok? && msg.encoding != EncodingGsm7 && short < Encode(msg, udh).value.1
    ensures var ud, expected := Encode(msg, udh).value.0, Expected(msg, udh);
            HeaderOctets(expected.udh) == |udh| ==> DataIn(msg.encoding, short, ud, expected.udh) != Ok(expected)
  {
    hide Ucs2.Encode, Ucs2.Decode, ParseElements, HeaderOctets;
    var ud := Encode(msg, udh).value.0;
    if |udh| <= short {
      Ucs2.EncodeDecodeShorter(ud[|udh|..short]);
    }
  }

  /** A header whose length octet is wrong is never read back as itself. */
  lemma IllFormedHeader(msg: TpMessage, udh: seq<byte>, dcs: byte)
    requires Encode(msg, udh).Ok? && udh != [] && !WellFormedUdh(udh)
    ensures var (ud, udl) := Encode(msg, udh).value;
            Decode(Field(ud, udl), dcs, true) != Ok(Expected(msg, udh))
  {
    hide Packed, Unpacked, Ucs2.Encode, Ucs2.Decode, Gsm7.EncodeText, Gsm7.DecodeText, Gsm7.Substituted;
    hide ParseElements, ParseDcs, Start;
    var (ud, udl) := Encode(msg, udh).value;
    assert Field(ud, udl)[1..] == ud;
    StartAfterHeader(|udh|);
    if msg.encoding == EncodingGsm7 {
      HeadIsPrefix(udh, Gsm7.EncodeText(msg.text), Start(|udh|));
      assert ud[..|udh|][0] == udh[0];
    }
    assert ud[0] == udh[0];
    if 1 + ud[0] as int <= |ud| {
      RawIsKept(ud[..1 + ud[0] as int]);
    }
  }

  /** User data comes back as expected exactly when it fits. */
  lemma RoundTrip(msg: TpMessage, udh: seq<byte>, dcs: byte)
    requires Encode(msg, udh).Ok?
    ensures var (ud, udl) := Encode(msg, udh).value;
            Decode(Field(ud, udl), dcs, udh != []) == Ok(Expected(msg, udh)) <==> Fits(msg, udh, dcs)
  {
    hide HeaderIn, ParseDcs, Field, Expected;
    if Fits(msg, udh, dcs) {
      FittingSurvives(msg, udh, dcs);
    } else if udh != [] && !WellFormedUdh(udh) {
      IllFormedHeader(msg, udh, dcs);
    } else if ParseDcs(dcs) != msg.encoding {
      WrongCoding(msg, udh, dcs);
    } else {
      OverlongIsCutShort(msg, udh, dcs);
    }
  }

  lemma WrongCoding(msg: TpMessage, udh: seq<byte>, dcs: byte)
    requires Encode(msg, udh).Ok? && ParseDcs(dcs) != msg.encoding
    ensures var (ud, udl) := Encode(msg, udh).value;
            Decode(Field(ud, udl), dcs, udh != []) != Ok(Expected(msg, udh))
  {
    hide Unpacked, Ucs2.Decode, Gsm7.DecodeText, Gsm7.Substituted, ParseElements, ParseDcs, Start, HeaderIn, Encode;
    BuiltDcsParses(msg.encoding);
  }
}
