/** Canonical messages carried in submit_sm and deliver_sm (section 4.4 of SMPP v3.4). */
module SmppMessage {
  import opened Wrappers
  import opened Bytes
  import opened Septets
  import opened Messages
  import opened SmppFields
  import opened SmppWire
  import Gsm7
  import Ucs2

  type SmMessage = Message<byte>
  type SmAddress = Address<byte>

  /** How a validity period string is read; dates and durations stay outside the model. */
  type PeriodParser = seq<byte> -> Option<int>

  const MESSAGE_PAYLOAD: word := 0x0424
  const SAR_REFERENCE: word := 0x020C
  const SAR_TOTAL: word := 0x020E
  const SAR_SEQUENCE: word := 0x020F

  function TypeOfNumber(addr: SmAddress): (byte, byte) {
    if addr.alpha != [] then (5, 0)
    else if addr.ton == 0 && addr.npi == 0 then (1, 1)
    else (addr.ton, addr.npi)
  }

  /** encodeAddress. */
  function AddressString(addr: SmAddress): seq<byte> {
    if addr.alpha != [] then addr.alpha else TrimPlus(addr.msisdn)
  }

  /** decodeAddress. */
  function AddressFrom(s: seq<byte>, ton: byte, npi: byte): SmAddress {
    if ton == 5 then Address([], s, ton, npi) else Address(TrimPlus(s), [], ton, npi)
  }

  /** The text or data of a message with its segment header, and the ESM class that announces the header. */
  function Payload(msg: SmMessage): Result<(seq<byte>, byte), Messages.Fault> {
    var udh := if msg.concat.Some? then BuildConcatUdh(msg.concat.value) else [];
    var esm := if msg.concat.Some? then 0x40 else 0;
    match msg.encoding
    case EncodingGsm7 => Ok((udh + Packed([], Gsm7.EncodeText(msg.text), 0), esm))
    case EncodingUcs2 => Ok((udh + Ucs2.Encode(msg.text), esm))
    case EncodingBinary => Ok((msg.binary, 0))
    case EncodingUtf8 => Err(UnsupportedEncoding)
  }

  function Carrier(msg: SmMessage, payload: seq<byte>, esm: byte): ShortMessage {
    var long := |payload| > 254;
    EMPTY_SM.(
      sourceTon := TypeOfNumber(msg.source).0, sourceNpi := TypeOfNumber(msg.source).1,
      source := AddressString(msg.source),
      destTon := TypeOfNumber(msg.destination).0, destNpi := TypeOfNumber(msg.destination).1,
      destination := AddressString(msg.destination),
      esmClass := esm, registered := if msg.reportRequired then 3 else 0, dataCoding := DcsForEgress(msg),
      octets := if long then [] else payload, tlvs := if long then map[MESSAGE_PAYLOAD := payload] else map[])
  }

  /** encodeSM for submit_sm or deliver_sm. */
  function Encode(msg: SmMessage, command: u32): Result<Pdu, Messages.Fault> {
    var (payload, esm) :- Payload(msg);
    Ok(Pdu(0, command, 0, 0, Sm(Carrier(msg, payload, esm))))
  }

  method EncodeSm(msg: SmMessage, command: u32) returns (r: Result<Pdu, Messages.Fault>)
    ensures r == Encode(msg, command)
  {
    hide Packed, Ucs2.Encode, Gsm7.EncodeText;
    var sm := EMPTY_SM;
    var source, destination := TypeOfNumber(msg.source), TypeOfNumber(msg.destination);
    sm := sm.(sourceTon := source.0, sourceNpi := source.1, source := AddressString(msg.source));
    sm := sm.(destTon := destination.0, destNpi := destination.1, destination := AddressString(msg.destination));
    if msg.reportRequired {
      sm := sm.(registered := 3);
    }
    sm := sm.(dataCoding := DcsForEgress(msg));
    match msg.encoding {
      case EncodingGsm7 =>
        var packed, septets := Gsm7.EncodeGsm7(msg.text);
        if msg.concat.Some? {
          sm := sm.(esmClass := 0x40, octets := BuildConcatUdh(msg.concat.value) + packed);
        } else {
          sm := sm.(octets := packed);
          assert packed == [] + packed;
        }
      case EncodingUcs2 =>
        var payload := Ucs2.EncodeUcs2(msg.text);
        if msg.concat.Some? {
          sm := sm.(esmClass := 0x40, octets := BuildConcatUdh(msg.concat.value) + payload);
        } else {
          sm := sm.(octets := payload);
          assert payload == [] + payload;
        }
      case EncodingBinary =>
        sm := sm.(octets := msg.binary);
      case EncodingUtf8 =>
        return Err(UnsupportedEncoding);
    }
    if |sm.octets| > 254 {
      sm := sm.(tlvs := sm.tlvs[MESSAGE_PAYLOAD := sm.octets]);
      sm := sm.(octets := []);
    }
    return Ok(Pdu(0, command, 0, 0, Sm(sm)));
  }

  /** The message_payload parameter when it is there and not empty, else the short message. */
  function PayloadOf(sm: ShortMessage): seq<byte> {
    if MESSAGE_PAYLOAD in sm.tlvs && sm.tlvs[MESSAGE_PAYLOAD] != [] then sm.tlvs[MESSAGE_PAYLOAD] else sm.octets
  }

  function HeaderIn(sm: ShortMessage): Result<Option<Udh>, Messages.Fault> {
    var payload := PayloadOf(sm);
    if sm.esmClass / 64 % 2 == 0 || payload == [] then Ok(None)
    else if |payload| < 1 + payload[0] as int then Err(UdhTruncated)
    else
      match UdhOf(payload[..1 + payload[0] as int])
      case Ok(udh) => Ok(Some(udh))
      case Err(_) => Ok(None)
  }

  /** Octets taken by an announced header. */
  function HeaderLength(sm: ShortMessage): nat {
    var payload := PayloadOf(sm);
    if sm.esmClass / 64 % 2 == 0 || payload == [] then 0 else 1 + payload[0] as int
  }

  /** The segment from the header, else from the three SAR parameters. */
  function SegmentOf(sm: ShortMessage, udh: Option<Udh>): Option<ConcatInfo> {
    if udh.Some? && udh.value.concat.Some? then udh.value.concat
    else if SAR_REFERENCE in sm.tlvs && |sm.tlvs[SAR_REFERENCE]| >= 2
         && SAR_TOTAL in sm.tlvs && |sm.tlvs[SAR_TOTAL]| >= 1
         && SAR_SEQUENCE in sm.tlvs && |sm.tlvs[SAR_SEQUENCE]| >= 1
    then
      var ref := sm.tlvs[SAR_REFERENCE];
      Some(ConcatInfo(Join(ref[0], ref[1]), sm.tlvs[SAR_TOTAL][0], sm.tlvs[SAR_SEQUENCE][0]))
    else None
  }

  /** The septets the octets behind a header have room for; the division truncates. */
  function SeptetRoom(octets: nat, udhOctets: nat): nat {
    var bits := 8 * octets - Start(udhOctets);
    if bits < 0 then 0 else bits / 7
  }

  /** DecodeSM. */
  function Decode(pdu: Pdu, parse: PeriodParser): Result<SmMessage, Messages.Fault>
    requires Shaped(pdu.commandId, pdu.body)
  {
    if !IsSm(pdu.commandId) then Err(UnexpectedCommand)
    else
      var sm := pdu.body.sm;
      var payload, u, enc := PayloadOf(sm), HeaderLength(sm), ParseDcs(sm.dataCoding);
      var udh :- HeaderIn(sm);
      Ok(Message(
        AddressFrom(sm.source, sm.sourceTon, sm.sourceNpi),
        AddressFrom(sm.destination, sm.destTon, sm.destNpi),
        if enc == EncodingGsm7 then Gsm7.DecodeText(Unpacked(payload, SeptetRoom(|payload|, u), Start(u)))
        else if enc == EncodingUcs2 then Ucs2.Decode(payload[u..]) else [],
        if enc == EncodingBinary then payload[u..] else [],
        enc, sm.dataCoding, udh, SegmentOf(sm, udh), 0, sm.registered % 2 == 1, parse(sm.validity), []))
  }

  method DecodeSm(pdu: Pdu, parse: PeriodParser) returns (r: Result<SmMessage, Messages.Fault>)
    requires Shaped(pdu.commandId, pdu.body)
    ensures r == Decode(pdu, parse)
  {
    hide Unpacked, Ucs2.Decode, Gsm7.DecodeText, ParseDcs, UdhOf, AddressFrom, Start;
    if !IsSm(pdu.commandId) {
      return Err(UnexpectedCommand);
    }
    var sm := pdu.body.sm;
    var enc := ParseDcs(sm.dataCoding);
    BuiltDcsParses(enc);
    var source := AddressFrom(sm.source, sm.sourceTon, sm.sourceNpi);
    var destination := AddressFrom(sm.destination, sm.destTon, sm.destNpi);
    var payload := PayloadOf(sm);
    var udh: Option<Udh> := None;
    var udhOctets := 0;
    if sm.esmClass / 64 % 2 == 1 && |payload| > 0 {
      var udhl := payload[0] as int;
      if |payload| < 1 + udhl {
        return Err(UdhTruncated);
      }
      var parsed := DecodeUdh(payload[..1 + udhl]);
      if parsed.Ok? {
        udh := Some(parsed.value);
      }
      udhOctets := 1 + udhl;
    }
    var concat := SegmentOf(sm, udh);
    var text: seq<Gsm7.rune>, binary: seq<byte> := [], [];
    match enc {
      case EncodingGsm7 =>
        text := Gsm7.DecodeGsm7(payload, SeptetRoom(|payload|, udhOctets), udhOctets);
      case EncodingUcs2 =>
        text := Ucs2.DecodeUcs2(payload[udhOctets..]);
      case EncodingBinary =>
        binary := payload[udhOctets..];
    }
    return Ok(Message(
      source, destination, text, binary, enc, sm.dataCoding, udh, concat, 0, sm.registered % 2 == 1,
      parse(sm.validity), []));
  }

  // ----- round trip -----

  function Canonical(addr: SmAddress): SmAddress {
    if addr.alpha != [] then Address([], addr.alpha, 5, 0)
    else Address(TrimPlus(addr.msisdn), [], TypeOfNumber(addr).0, TypeOfNumber(addr).1)
  }

  /** What arrives of a message: a spurious '@' follows text whose septets leave seven padding bits. */
  function Seen(msg: SmMessage, parse: PeriodParser): SmMessage {
    var segment := if msg.encoding == EncodingBinary then None else msg.concat;
    Message(
      Canonical(msg.source), Canonical(msg.destination),
      match msg.encoding
        case EncodingGsm7 =>
          Gsm7.Substituted(msg.text) + (if |Gsm7.EncodeText(msg.text)| % 8 == 7 then [0x40] else [])
        case EncodingUcs2 => msg.text
        case _ => [],
      if msg.encoding == EncodingBinary then msg.binary else [],
      msg.encoding, DcsForEgress(msg),
      if segment.Some? then Some(Udh(BuildConcatUdh(segment.value), segment)) else None,
      segment, 0, msg.reportRequired, parse([]), [])
  }

  predicate AddressFits(addr: SmAddress) {
    addr.alpha == [] ==>
      var s := TrimPlus(addr.msisdn);
      s != [] ==> TypeOfNumber(addr).0 != 5 && s[0] != 0x2B
  }

  lemma AddressRoundTrip(addr: SmAddress)
    ensures AddressFrom(AddressString(addr), TypeOfNumber(addr).0, TypeOfNumber(addr).1) == Canonical(addr)
            <==> AddressFits(addr)
  {
  }

  lemma CarrierHolds(msg: SmMessage, payload: seq<byte>, esm: byte)
    ensures PayloadOf(Carrier(msg, payload, esm)) == payload
    ensures Carrier(msg, payload, esm).esmClass == esm
    ensures forall udh :: SegmentOf(Carrier(msg, payload, esm), udh) ==
                          if udh.Some? then udh.value.concat else None
  {
  }

  /** The octets of a seven-octet segment header and the text behind it are one packing with no fill bits. */
  lemma SegmentAligns(udh: seq<byte>, text: seq<septet>)
    requires |udh| == 7
    ensures udh + Packed([], text, 0) == Packed(udh, text, Start(7))
  {
    hide Bit, BitAt, TextBit;
    var a, b := udh + Packed([], text, 0), Packed(udh, text, 56);
    assert Start(7) == 56;
    assert |a| == |b|;
    forall p: nat | p < 8 * |a| ensures BitAt(a, p) == BitAt(b, p) {
      AlignedBit(udh, text, p);
    }
    StringsEqual(a, b);
  }

  lemma AlignedBit(udh: seq<byte>, text: seq<septet>, p: nat)
    requires |udh| == 7 && p < 8 * OctetCount(56, |text|)
    ensures BitAt(udh + Packed([], text, 0), p) == BitAt(Packed(udh, text, 56), p)
  {
    hide Bit, Packed;
    PackedBit(udh, text, 56, p);
    if p >= 56 {
      PackedLength([], text, 0);
      assert (udh + Packed([], text, 0))[p / 8] == Packed([], text, 0)[(p - 56) / 8];
      PackedBit([], text, 0, p - 56);
    }
  }

  /** The arithmetic of a reader that counts septets by octets; a seven-octet header ends at a septet boundary. */
  lemma RoomFor(udhOctets: nat, septets: nat)
    requires udhOctets == 0 || udhOctets == 7
    ensures Start(udhOctets) == 8 * udhOctets
    ensures (Start(udhOctets) + 7 * septets) % 8 == 1 <==> septets % 8 == 7
  {
    StartOfSegment(udhOctets);
    hide Start;
    var q, r := septets / 8, septets % 8;
    var k := udhOctets + 7 * q;
    assert Start(udhOctets) + 7 * septets == 8 * k + 7 * r;
    SevenTimes(k, r);
  }

  lemma SevenTimes(k: nat, r: nat)
    requires r < 8
    ensures (8 * k + 7 * r) % 8 == 1 <==> r == 7
  {
    var low := if r == 0 then 0 else 8 - r;
    var high := if r == 0 then k else k + r - 1;
    assert 8 * k + 7 * r == 8 * high + low;
    EightTimes(high, low);
  }

  lemma EightTimes(k: nat, low: nat)
    requires low < 8
    ensures (8 * k + low) % 8 == low
  {
  }

  lemma StartOfSegment(udhOctets: nat)
    requires udhOctets == 0 || udhOctets == 7
    ensures Start(udhOctets) == 8 * udhOctets
  {
  }

  lemma PayloadIsPacked(udh: seq<byte>, text: seq<septet>)
    requires |udh| == 0 || |udh| == 7
    ensures udh + Packed([], text, 0) == Packed(udh, text, Start(|udh|))
  {
    hide Packed, Start;
    RoomFor(|udh|, 0);
    if udh == [] {
      assert udh + Packed([], text, 0) == Packed([], text, 0);
    } else {
      SegmentAligns(udh, text);
    }
  }

  lemma RoomTruncates(octets: nat, udhOctets: nat)
    requires 8 * octets >= Start(udhOctets)
    ensures SeptetRoom(octets, udhOctets) == (8 * octets - Start(udhOctets)) / 7
  {
    hide Start;
  }

  lemma TextArrives(udh: seq<byte>, text: seq<Gsm7.rune>)
    requires |udh| == 0 || |udh| == 7
    ensures var payload := udh + Packed([], Gsm7.EncodeText(text), 0);
            Gsm7.DecodeText(Unpacked(payload, SeptetRoom(|payload|, |udh|), Start(|udh|))) ==
            Gsm7.Substituted(text) + (if |Gsm7.EncodeText(text)| % 8 == 7 then [0x40] else [])
  {
    hide Packed, Unpacked, Gsm7.DecodeText, Gsm7.EncodeText, Gsm7.Substituted, SeptetRoom, Start;
    var septets := Gsm7.EncodeText(text);
    PayloadIsPacked(udh, septets);
    RoomFor(|udh|, |septets|);
    UnpackWholeOctets(udh, septets, Start(|udh|));
    RoomTruncates(|Packed(udh, septets, Start(|udh|))|, |udh|);
    TrailingZero();
    if |septets| % 8 == 7 {
      Gsm7.DecodeEncode(text, [0]);
    } else {
      Gsm7.DecodeEncode(text, []);
      assert septets + [] == septets;
    }
  }

  lemma TrailingZero()
    ensures Gsm7.DecodeText([0]) == [0x40] && Gsm7.DecodeText([]) == []
  {
    assert [0 as septet][1..] == [];
  }

  lemma HeaderArrives(msg: SmMessage, payload: seq<byte>, esm: byte)
    requires Payload(msg) == Ok((payload, esm))
    ensures var sm := Carrier(msg, payload, esm);
            HeaderIn(sm) == Ok(Seen(msg, _ => None).udh) &&
            HeaderLength(sm) == (if esm == 0 then 0 else 7) &&
            SegmentOf(sm, Seen(msg, _ => None).udh) == Seen(msg, _ => None).concat
  {
    hide Packed, Ucs2.Encode, Gsm7.EncodeText, Gsm7.Substituted, ParseElements, Carrier, SegmentOf, Canonical;
    CarrierHolds(msg, payload, esm);
    if esm == 0x40 {
      var c := msg.concat.value;
      BuiltConcatParses(c);
      var udh := BuildConcatUdh(c);
      assert payload[..7] == udh;
      assert udh[1..1 + udh[0]] == udh[1..];
    }
  }

  /** A PDU made of a message decodes to what is seen exactly if coding octet and addresses allow it. */
  lemma {:induction false} PduRoundTrip(msg: SmMessage, command: u32, length: u32, parse: PeriodParser)
    requires IsSm(command) && Encode(msg, command).Ok?
    ensures Decode(Encode(msg, command).value.(commandLength := length), parse) == Ok(Seen(msg, parse))
            <==> ParseDcs(DcsForEgress(msg)) == msg.encoding
                 && AddressFits(msg.source) && AddressFits(msg.destination)
  {
    hide Packed, Unpacked, Ucs2.Encode, Ucs2.Decode, Gsm7.EncodeText, Gsm7.DecodeText, Gsm7.Substituted;
    hide ParseElements, ParseDcs, DcsForEgress, AddressFrom, AddressString, TypeOfNumber, Canonical, AddressFits;
    hide HeaderIn, HeaderLength, SegmentOf, PayloadOf, SeptetRoom, Start;
    var (payload, esm) := Payload(msg).value;
    HeaderArrives(msg, payload, esm);
    CarrierHolds(msg, payload, esm);
    AddressRoundTrip(msg.source);
    AddressRoundTrip(msg.destination);
    var udh := if msg.concat.Some? then BuildConcatUdh(msg.concat.value) else [];
    match msg.encoding {
      case EncodingGsm7 =>
        TextArrives(udh, msg.text);
      case EncodingUcs2 =>
        Ucs2.DecodeEncode(msg.text);
        assert payload[|udh|..] == Ucs2.Encode(msg.text);
      case EncodingBinary =>
        assert payload[0..] == payload;
    }
  }

  // ----- across the wire -----

  predicate NulFreeAddresses(msg: SmMessage) {
    0 !in AddressString(msg.source) && 0 !in AddressString(msg.destination)
  }

  lemma CarrierStrings(msg: SmMessage, payload: seq<byte>, esm: byte)
    ensures NulFree(FieldsOf(Sm(Carrier(msg, payload, esm)))) <==> NulFreeAddresses(msg)
  {
    hide TypeOfNumber, AddressString, DcsForEgress;
    var fs := FieldsOf(Sm(Carrier(msg, payload, esm)));
    if NulFree(fs) {
      assert fs[3] in fs && fs[6] in fs;
    }
  }

  lemma ReadSmStrings(data: seq<byte>)
    requires SmppWire.DecodeSm(data).Ok?
    ensures 0 !in SmppWire.DecodeSm(data).value.source && 0 !in SmppWire.DecodeSm(data).value.destination
  {
    hide DecodeFields, Kinds;
    var fs := DecodeFields(SM_LAYOUT, data).value.0;
    ReadFieldsAreNulFree(SM_LAYOUT, data);
    assert fs[3] in fs && fs[6] in fs;
  }

  lemma ReceivedStrings(s: seq<byte>)
    requires SmppWire.Decode(s).Ok? && IsSm(SmppWire.Decode(s).value.0.commandId)
    ensures var body := SmppWire.Decode(s).value.0.body;
            body.Sm? && 0 !in body.sm.source && 0 !in body.sm.destination
  {
    hide SmppWire.DecodeSm, U32Of, Layout, BodyFrom;
    var length := U32Of(s[0], s[1], s[2], s[3]);
    if length > HEADER_LEN {
      ReadSmStrings(s[HEADER_LEN..length]);
    }
  }

  lemma HeaderNames(pdu: Pdu, order: seq<word>, rest: seq<byte>)
    requires (forall k :: k in order ==> k in TlvsOf(pdu.body)) && Wire(pdu, order).Ok?
    ensures var r := SmppWire.Decode(Wire(pdu, order).value + rest);
            r.Ok? ==> r.value.0.commandId == pdu.commandId
  {
    hide BodyOctets, DecodeBody, Header, U32Of, BlankBody;
    var body := BodyOctets(pdu.body, order).value;
    var length := (HEADER_LEN + |body|) % 0x1_0000_0000;
    HeaderFields(length, pdu, body + rest);
    assert Wire(pdu, order).value + rest == Header(length, pdu) + (body + rest);
  }

  /** What is read at the far end of a stream: the first PDU's message, if the stream continues with `rest`. */
  function Read(s: seq<byte>, rest: seq<byte>, parse: PeriodParser): Option<SmMessage> {
    match SmppWire.Decode(s)
    case Err(_) => None
    case Ok((pdu, after)) =>
      if !IsSm(pdu.commandId) || !pdu.body.Sm? || after != rest then None
      else
        match Decode(pdu, parse) case Ok(m) => Some(m) case Err(_) => None
  }

  /**
    * From canonical message to octets and back, in the short message or in
    * message_payload, whatever follows on the stream: the receiver sees `Seen`
    * exactly if the coding octet names the encoding and the addresses are NUL-free
    * and fit.
    */
  lemma EndToEnd(msg: SmMessage, command: u32, order: seq<word>, rest: seq<byte>, parse: PeriodParser)
    requires IsSm(command) && Encode(msg, command).Ok?
    requires var pdu := Encode(msg, command).value;
             IsOrder(order, TlvsOf(pdu.body)) && Wire(pdu, order).Ok? && |Wire(pdu, order).value| <= MAX_PDU_LEN
    ensures Read(Wire(Encode(msg, command).value, order).value + rest, rest, parse) == Some(Seen(msg, parse))
            <==> ParseDcs(DcsForEgress(msg)) == msg.encoding && NulFreeAddresses(msg)
                 && AddressFits(msg.source) && AddressFits(msg.destination)
  {
    hide SmppWire.Decode, Wire, Decode, Payload, Carrier, Seen, ParseDcs, DcsForEgress, AddressFits, FieldsOf;
    hide NulFreeAddresses, NulFree;
    var pdu := Encode(msg, command).value;
    var (payload, esm) := Payload(msg).value;
    var s := Wire(pdu, order).value + rest;
    CarrierStrings(msg, payload, esm);
    RoundTrip(pdu, order, rest);
    HeaderNames(pdu, order, rest);
    if NulFreeAddresses(msg) {
      PduRoundTrip(msg, command, |Wire(pdu, order).value|, parse);
    } else if Read(s, rest, parse) == Some(Seen(msg, parse)) {
      var got := SmppWire.Decode(s).value.0;
      ReceivedStrings(s);
      SeenAddresses(msg, got, parse);
    }
  }

  lemma SeenAddresses(msg: SmMessage, pdu: Pdu, parse: PeriodParser)
    requires IsSm(pdu.commandId) && pdu.body.Sm? && 0 !in pdu.body.sm.source && 0 !in pdu.body.sm.destination
    requires Decode(pdu, parse) == Ok(Seen(msg, parse))
    ensures NulFreeAddresses(msg)
  {
    hide ParseDcs, DcsForEgress, HeaderIn, HeaderLength, SegmentOf, Unpacked, Ucs2.Decode, Gsm7.DecodeText;
    hide Gsm7.EncodeText, Gsm7.Substituted, SeptetRoom, Start, PayloadOf;
    assert AddressFrom(pdu.body.sm.source, pdu.body.sm.sourceTon, pdu.body.sm.sourceNpi) == Canonical(msg.source);
  }

  /** Text and data are seen exactly as sent, but for unrepresentable characters and the spurious '@'. */
  lemma TextSurvives(msg: SmMessage, parse: PeriodParser)
    requires msg.encoding != EncodingUtf8
    requires if msg.encoding == EncodingBinary then msg.text == [] else msg.binary == []
    ensures Seen(msg, parse).text == msg.text && Seen(msg, parse).binary == msg.binary
            <==> (msg.encoding == EncodingGsm7 ==>
                    (forall i :: 0 <= i < |msg.text| ==> Gsm7.Representable(msg.text[i]))
                    && |Gsm7.EncodeText(msg.text)| % 8 != 7)
    ensures Seen(msg, parse).concat == msg.concat <==> msg.encoding != EncodingBinary || msg.concat.None?
  {
    hide Gsm7.EncodeText, Gsm7.Representable;
    Gsm7.SubstitutedIdentity(msg.text);
  }

  /** The header that is seen is the one built for a segment, whatever header the message came with. */
  lemma HeaderSurvives(msg: SmMessage, parse: PeriodParser)
    ensures Seen(msg, parse).udh == msg.udh <==>
            if msg.udh.None? then msg.concat.None? || msg.encoding == EncodingBinary
            else msg.concat.Some? && msg.encoding != EncodingBinary
                 && msg.udh.value == Udh(BuildConcatUdh(msg.concat.value), msg.concat)
  {
    hide BuildConcatUdh;
  }

  /** A port header without a segment is lost, and the message that carries it is still sent. */
  lemma PortHeaderIsLost(text: seq<Gsm7.rune>, binary: seq<byte>, encoding: Encoding) returns (msg: SmMessage)
    requires encoding != EncodingUtf8
    ensures msg.text == text && msg.binary == binary && msg.encoding == encoding
    ensures msg.udh == Some(Udh([0x06, 0x05, 0x04, 0x0B, 0x84, 0x23, 0xF0], None)) && WellFormedUdh(msg.udh.value.raw)
    ensures Encode(msg, SUBMIT_SM).Ok? && forall parse :: Seen(msg, parse).udh.None?
  {
    hide Packed, Gsm7.EncodeText, Ucs2.Encode;
    var nobody: SmAddress := Address([], [], 0, 0);
    var header := Udh([0x06, 0x05, 0x04, 0x0B, 0x84, 0x23, 0xF0], None);
    msg := Message(nobody, nobody, text, binary, encoding, 0, Some(header), None, 0, false, None, []);
  }

  /**
    * What a message keeps across the wire, once its coding octet and addresses get through:
    * the conditions on text, segment and header are those on the message alone.
    */
  lemma {:induction false} ArrivesAsSent(
    msg: SmMessage, command: u32, order: seq<word>, rest: seq<byte>, parse: PeriodParser)
    requires IsSm(command) && Encode(msg, command).Ok?
    requires var pdu := Encode(msg, command).value;
             IsOrder(order, TlvsOf(pdu.body)) && Wire(pdu, order).Ok? && |Wire(pdu, order).value| <= MAX_PDU_LEN
    requires ParseDcs(DcsForEgress(msg)) == msg.encoding && NulFreeAddresses(msg)
    requires AddressFits(msg.source) && AddressFits(msg.destination)
    requires if msg.encoding == EncodingBinary then msg.text == [] else msg.binary == []
    ensures var r := Read(Wire(Encode(msg, command).value, order).value + rest, rest, parse);
            && r.Some?
            && (r.value.text == msg.text && r.value.binary == msg.binary
                <==> (msg.encoding == EncodingGsm7 ==>
                        (forall i :: 0 <= i < |msg.text| ==> Gsm7.Representable(msg.text[i]))
                        && |Gsm7.EncodeText(msg.text)| % 8 != 7))
            && (r.value.concat == msg.concat <==> msg.encoding != EncodingBinary || msg.concat.None?)
            && (r.value.udh == msg.udh <==>
                  if msg.udh.None? then msg.concat.None? || msg.encoding == EncodingBinary
                  else msg.concat.Some? && msg.encoding != EncodingBinary
                       && msg.udh.value == Udh(BuildConcatUdh(msg.concat.value), msg.concat))
  {
    hide Read, Seen, Wire, Payload, Carrier, ParseDcs, DcsForEgress, NulFreeAddresses, AddressFits;
    hide Gsm7.EncodeText, Gsm7.Representable, BuildConcatUdh;
    ParsedIsNotUtf8(DcsForEgress(msg));
    EndToEnd(msg, command, order, rest, parse);
    TextSurvives(msg, parse);
    HeaderSurvives(msg, parse);
  }

  lemma ParsedIsNotUtf8(dcs: byte)
    ensures ParseDcs(dcs) != EncodingUtf8
  {
    BuiltDcsParses(EncodingGsm7);
  }
}
