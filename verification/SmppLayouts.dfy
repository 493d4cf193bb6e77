/** Where everything stands in an SMPP unit, in plain octets and numbers (sections 3.2 and 4 of SMPP v3.4). */
module SmppLayouts {
  import opened Wrappers
  import opened Bytes
  import opened Messages
  import opened SmppFields
  import opened SmppWire
  import opened SmppMessage
  import Gsm7
  import Ucs2
  import Septets

  // ----- units -----

  /** What each command carries. */
  lemma Commands(id: u32, body: Body)
    ensures Shaped(id, body) <==>
            if id in {0x1, 0x2, 0x9} then body.Bind?
            else if id in {0x8000_0001, 0x8000_0002, 0x8000_0009} then body.BindResp?
            else if id in {0x4, 0x5} then body.Sm?
            else if id in {0x8000_0004, 0x8000_0005} then body.SmResp?
            else body.NoBody?
  {
  }

  function Terminated(s: seq<byte>): seq<byte> { s + [0] }

  lemma OctetField(b: byte, fs: seq<Field>)
    ensures EncodeFields([Octet(b)] + fs) == [b] + EncodeFields(fs)
  {
    assert ([Octet(b)] + fs)[1..] == fs;
  }

  lemma StringField(s: seq<byte>, fs: seq<Field>)
    ensures EncodeFields([CString(s)] + fs) == Terminated(s) + EncodeFields(fs)
  {
    assert ([CString(s)] + fs)[1..] == fs;
  }

  /** The body of a bind request. */
  lemma BindLaidOut(id: seq<byte>, password: seq<byte>, kind: seq<byte>, version: byte, ton: byte, npi: byte,
                    range: seq<byte>)
    ensures BodyOctets(Bind(id, password, kind, version, ton, npi, range), []) ==
            Ok(Terminated(id) + (Terminated(password) + (Terminated(kind) + ([version, ton, npi] + Terminated(range)))))
  {
    hide EncodeFields, Terminated;
    var f3 := [Octet(version), Octet(ton), Octet(npi), CString(range)];
    var f2 := [CString(kind)] + f3;
    var f1 := [CString(password)] + f2;
    StringField(id, f1);
    StringField(password, f2);
    StringField(kind, f3);
    BindEnd(version, ton, npi, range);
    assert [CString(id)] + f1 == FieldsOf(Bind(id, password, kind, version, ton, npi, range));
  }

  lemma BindEnd(version: byte, ton: byte, npi: byte, range: seq<byte>)
    ensures EncodeFields([Octet(version), Octet(ton), Octet(npi), CString(range)]) ==
            [version, ton, npi] + Terminated(range)
  {
    hide EncodeFields, Terminated;
    var f3: seq<Field> := [CString(range)] + [];
    var f2 := [Octet(npi)] + f3;
    var f1 := [Octet(ton)] + f2;
    assert [Octet(version)] + f1 == [Octet(version), Octet(ton), Octet(npi), CString(range)];
    OctetField(version, f1);
    OctetField(ton, f2);
    OctetField(npi, f3);
    StringField(range, []);
    NoOctets();
  }

  /** Responses carry one string, and everything else carries nothing. */
  lemma ResponsesLaidOut(id: seq<byte>)
    ensures BodyOctets(BindResp(id), []) == Ok(Terminated(id)) && BodyOctets(SmResp(id), []) == Ok(Terminated(id))
    ensures BodyOctets(NoBody, []) == Ok([])
  {
    hide EncodeFields;
    StringField(id, []);
    NoOctets();
    assert [CString(id)] + [] == [CString(id)] && Terminated(id) + [] == Terminated(id);
  }

  lemma NoOctets()
    ensures EncodeFields([]) == []
  {
  }

  /** The fields of a short message up to its destination. */
  function Front(m: ShortMessage): seq<byte> {
    Terminated(m.serviceType) + [m.sourceTon, m.sourceNpi] + Terminated(m.source)
    + [m.destTon, m.destNpi] + Terminated(m.destination)
  }

  /** The fields behind it, with the length last. */
  function Middle(m: ShortMessage): seq<byte> {
    [m.esmClass, m.protocolId, m.priority] + Terminated(m.schedule) + Terminated(m.validity)
    + [m.registered, m.replace, m.dataCoding, m.defaultMsgId, |m.octets| % 256]
  }

  lemma FrontFields(m: ShortMessage, fs: seq<Field>)
    ensures EncodeFields([CString(m.serviceType), Octet(m.sourceTon), Octet(m.sourceNpi), CString(m.source),
                          Octet(m.destTon), Octet(m.destNpi), CString(m.destination)] + fs) ==
            Front(m) + EncodeFields(fs)
  {
    hide EncodeFields;
    var f6 := [CString(m.destination)] + fs;
    var f5 := [Octet(m.destNpi)] + f6;
    var f4 := [Octet(m.destTon)] + f5;
    var f3 := [CString(m.source)] + f4;
    var f2 := [Octet(m.sourceNpi)] + f3;
    var f1 := [Octet(m.sourceTon)] + f2;
    assert [CString(m.serviceType), Octet(m.sourceTon), Octet(m.sourceNpi), CString(m.source),
            Octet(m.destTon), Octet(m.destNpi), CString(m.destination)] + fs == [CString(m.serviceType)] + f1;
    StringField(m.serviceType, f1);
    OctetField(m.sourceTon, f2);
    OctetField(m.sourceNpi, f3);
    StringField(m.source, f4);
    OctetField(m.destTon, f5);
    OctetField(m.destNpi, f6);
    StringField(m.destination, fs);
  }

  lemma MiddleFields(m: ShortMessage)
    ensures EncodeFields([Octet(m.esmClass), Octet(m.protocolId), Octet(m.priority), CString(m.schedule),
                          CString(m.validity), Octet(m.registered), Octet(m.replace), Octet(m.dataCoding),
                          Octet(m.defaultMsgId), Octet(|m.octets| % 256)]) == Middle(m)
  {
    hide EncodeFields;
    var f9: seq<Field> := [Octet(|m.octets| % 256)] + [];
    var f8 := [Octet(m.defaultMsgId)] + f9;
    var f7 := [Octet(m.dataCoding)] + f8;
    var f6 := [Octet(m.replace)] + f7;
    var f5 := [Octet(m.registered)] + f6;
    var f4 := [CString(m.validity)] + f5;
    var f3 := [CString(m.schedule)] + f4;
    var f2 := [Octet(m.priority)] + f3;
    var f1 := [Octet(m.protocolId)] + f2;
    OctetField(m.esmClass, f1);
    OctetField(m.protocolId, f2);
    OctetField(m.priority, f3);
    StringField(m.schedule, f4);
    StringField(m.validity, f5);
    OctetField(m.registered, f6);
    OctetField(m.replace, f7);
    OctetField(m.dataCoding, f8);
    OctetField(m.defaultMsgId, f9);
    OctetField(|m.octets| % 256, []);
    assert EncodeFields([]) == [] by { NoOctets(); }
    assert [Octet(m.esmClass), Octet(m.protocolId), Octet(m.priority), CString(m.schedule), CString(m.validity),
            Octet(m.registered), Octet(m.replace), Octet(m.dataCoding), Octet(m.defaultMsgId),
            Octet(|m.octets| % 256)] == [Octet(m.esmClass)] + f1;
  }

  /** The body of submit_sm and deliver_sm, refused if its text or a parameter does not fit its length. */
  lemma ShortMessageLaidOut(m: ShortMessage, order: seq<word>)
    requires forall k :: k in order ==> k in m.tlvs
    ensures BodyOctets(Sm(m), order) ==
            if |m.octets| > 255 then Err(MessageTooLong)
            else if exists k :: k in m.tlvs && |m.tlvs[k]| > 65535 then Err(ParameterTooLong)
            else Ok(Front(m) + Middle(m) + m.octets + EncodeTlvs(order, m.tlvs))
  {
    hide EncodeFields, EncodeTlvs, Front, Middle;
    var front := [CString(m.serviceType), Octet(m.sourceTon), Octet(m.sourceNpi), CString(m.source),
                  Octet(m.destTon), Octet(m.destNpi), CString(m.destination)];
    var middle := [Octet(m.esmClass), Octet(m.protocolId), Octet(m.priority), CString(m.schedule),
                   CString(m.validity), Octet(m.registered), Octet(m.replace), Octet(m.dataCoding),
                   Octet(m.defaultMsgId), Octet(|m.octets| % 256)];
    assert FieldsOf(Sm(m)) == front + middle;
    FrontFields(m, middle);
    MiddleFields(m);
    var tlvs := if LengthsFit(m.tlvs) then EncodeTlvs(order, m.tlvs) else [];
    assert Front(m) + Middle(m) + (m.octets + tlvs) == Front(m) + Middle(m) + m.octets + tlvs;
  }

  /** The unit: four numbers of four octets, of which the first counts all octets, and the body. */
  lemma UnitLaidOut(pdu: Pdu, order: seq<word>)
    requires (forall k :: k in order ==> k in TlvsOf(pdu.body)) && BodyOctets(pdu.body, order).Ok?
    requires 16 + |BodyOctets(pdu.body, order).value| <= 16 * 1024 * 1024
    ensures var body, r := BodyOctets(pdu.body, order).value, Wire(pdu, order);
            && r.Ok? && |r.value| == 16 + |body| && r.value[16..] == body
            && Number(r.value[..4]) == |r.value| && Number(r.value[4..8]) == pdu.commandId
            && Number(r.value[8..12]) == pdu.status && Number(r.value[12..16]) == pdu.sequence
  {
    hide BodyOctets, U32Octets, Number;
    var body := BodyOctets(pdu.body, order).value;
    NumberOfFour([], 16 + |body|);
    NumberOfFour([], pdu.commandId);
    NumberOfFour([], pdu.status);
    NumberOfFour([], pdu.sequence);
    var b := Wire(pdu, order).value;
    assert b[..4] == U32Octets(16 + |body|) && b[4..8] == U32Octets(pdu.commandId);
    assert b[8..12] == U32Octets(pdu.status) && b[12..16] == U32Octets(pdu.sequence);
  }

  /** No unit is made of a body that is refused, or of one that is too long in 32 bits. */
  lemma UnitNotSent(pdu: Pdu, order: seq<word>)
    requires forall k :: k in order ==> k in TlvsOf(pdu.body)
    ensures var body, r := BodyOctets(pdu.body, order), Wire(pdu, order);
            if body.Err? then r == Err(body.error)
            else
              var long := (16 + |body.value|) % 0x1_0000_0000 > 16 * 1024 * 1024;
              (r.Err? <==> long) && (long ==> r == Err(BadLength))
  {
    hide BodyOctets;
  }

  /** When a unit is accepted at the front of a stream, and what of the stream it takes. */
  lemma UnitsAccepted(s: seq<byte>)
    ensures SmppWire.Decode(s).Ok? <==>
              && |s| >= 16 && 16 <= Number(s[..4]) <= 16 * 1024 * 1024 && Number(s[..4]) <= |s|
              && (Number(s[..4]) > 16 ==> DecodeBody(Number(s[4..8]), s[16..Number(s[..4])]).Ok?)
    ensures SmppWire.Decode(s).Err? ==>
              SmppWire.Decode(s) ==
              if |s| < 16 then Err(EndOfData)
              else
                var length := Number(s[..4]);
                if length < 16 || length > 16 * 1024 * 1024 then Err(BadLength)
                else if length > |s| then Err(EndOfData)
                else Err(DecodeBody(Number(s[4..8]), s[16..length]).error)
    ensures SmppWire.Decode(s).Ok? ==>
              var (pdu, rest) := SmppWire.Decode(s).value;
              && pdu.commandLength == Number(s[..4]) && rest == s[Number(s[..4])..]
              && pdu.commandId == Number(s[4..8]) && pdu.status == Number(s[8..12])
              && pdu.sequence == Number(s[12..16])
  {
    hide DecodeBody, BlankBody, Number, U32Of;
    if |s| >= 16 {
      NumberOfFour(s[..4], 0);
      NumberOfFour(s[4..8], 0);
      NumberOfFour(s[8..12], 0);
      NumberOfFour(s[12..16], 0);
    }
  }

  /** A field is refused exactly if it is not there: no octet, or no NUL. */
  lemma FieldsRefused(k: Kind, ks: seq<Kind>, data: seq<byte>)
    ensures var r := DecodeField(k, data);
            if k == AnOctet then r == if data == [] then Err(EndOfData) else Ok((Octet(data[0]), data[1..]))
            else
              && (r.Err? <==> 0 !in data) && (r.Err? ==> r.error == Unterminated)
              && (r.Ok? ==> r.value.0.CString? && 0 !in r.value.0.text && data == r.value.0.text + [0] + r.value.1)
    ensures DecodeField(k, data).Err? ==> DecodeFields([k] + ks, data) == Err(DecodeField(k, data).error)
  {
    UpToNulIsFirst(data);
  }

  /** A short message whose text is shorter than its length says is refused. */
  lemma ShortTextRefused(m: ShortMessage, text: seq<byte>)
    requires |text| < |m.octets| <= 255 && NulFree(FieldsOf(Sm(m)))
    ensures SmppWire.DecodeSm(Front(m) + Middle(m) + text) == Err(EndOfData)
  {
    hide EncodeFields, DecodeFields, Front, Middle, DecodeTlvs, FieldsOf;
    FieldsFollowLayout(SUBMIT_SM, Sm(m));
    FieldsRoundTrip(FieldsOf(Sm(m)), text);
    FieldsOfSm(m);
  }

  lemma FieldsOfSm(m: ShortMessage)
    requires |m.octets| <= 255
    ensures EncodeFields(FieldsOf(Sm(m))) == Front(m) + Middle(m)
    ensures |FieldsOf(Sm(m))| == 17 && ValueOf(FieldsOf(Sm(m))[16]) == |m.octets|
  {
    hide EncodeFields, Front, Middle;
    var front := [CString(m.serviceType), Octet(m.sourceTon), Octet(m.sourceNpi), CString(m.source),
                  Octet(m.destTon), Octet(m.destNpi), CString(m.destination)];
    var middle := [Octet(m.esmClass), Octet(m.protocolId), Octet(m.priority), CString(m.schedule),
                   CString(m.validity), Octet(m.registered), Octet(m.replace), Octet(m.dataCoding),
                   Octet(m.defaultMsgId), Octet(|m.octets| % 256)];
    assert FieldsOf(Sm(m)) == front + middle;
    FrontFields(m, middle);
    MiddleFields(m);
  }

  // ----- parameters -----

  datatype Tlv = Tlv(tag: word, val: seq<byte>)

  function TlvListOctets(list: seq<Tlv>): seq<byte>
    requires forall t :: t in list ==> |t.val| <= 65535
  {
    if list == [] then []
    else
      var t := list[0];
      assert t in list;
      [t.tag / 256, t.tag % 256, |t.val| / 256, |t.val| % 256] + t.val + TlvListOctets(list[1..])
  }

  /** The last value that a list has for a tag. */
  function LastValue(list: seq<Tlv>, k: word): Option<seq<byte>>
    decreases |list|
  {
    if list == [] then None
    else if list[|list| - 1].tag == k then Some(list[|list| - 1].val)
    else LastValue(list[..|list| - 1], k)
  }

  lemma {:induction false} LastValueBehind(t: Tlv, rest: seq<Tlv>, k: word)
    ensures LastValue([t] + rest, k) ==
            if LastValue(rest, k).Some? then LastValue(rest, k) else if t.tag == k then Some(t.val) else None
    decreases |rest|
  {
    if rest == [] {
      assert ([t] + rest)[..0] == [];
    } else {
      assert ([t] + rest)[..|rest|] == [t] + rest[..|rest| - 1];
      LastValueBehind(t, rest[..|rest| - 1], k);
    }
  }

  /** Parameters in any order and number: each tag keeps the last value that came with it. */
  lemma {:induction false} LastValueCounts(list: seq<Tlv>, before: Tlvs)
    requires forall t :: t in list ==> |t.val| <= 65535
    ensures var r := DecodeTlvs(TlvListOctets(list), before);
            && r.Ok?
            && forall k: word ::
                 if LastValue(list, k).Some? then k in r.value && r.value[k] == LastValue(list, k).value
                 else (k in r.value <==> k in before) && (k in before ==> r.value[k] == before[k])
  {
    hide DecodeTlvs, LastValue, TlvListOctets, TlvOctets;
    if list == [] {
      DecodeNone(before);
      assert TlvListOctets([]) == [] by { NoTlvOctets(); }
      assert forall k: word :: LastValue([], k).None? by { NoValue(); }
    } else {
      var t, rest := list[0], list[1..];
      assert t in list;
      DecodeOne(t.tag, t.val, TlvListOctets(rest), before);
      FirstTlvOctets(list);
      LastValueCounts(rest, before[t.tag := t.val]);
      assert list == [t] + rest;
      forall k: word { LastValueBehind(t, rest, k); }
    }
  }

  lemma FirstTlvOctets(list: seq<Tlv>)
    requires list != [] && forall t :: t in list ==> |t.val| <= 65535
    ensures (forall t :: t in list[1..] ==> t in list) && list[0] in list
    ensures TlvListOctets(list) == TlvOctets(list[0].tag, list[0].val) + TlvListOctets(list[1..])
  {
    hide TlvOctets;
    assert list[0] in list;
    TlvLaidOut(list[0]);
  }

  lemma TlvLaidOut(t: Tlv)
    requires |t.val| <= 65535
    ensures TlvOctets(t.tag, t.val) == [t.tag / 256, t.tag % 256, |t.val| / 256, |t.val| % 256] + t.val
  {
  }

  lemma NoTlvOctets()
    ensures TlvListOctets([]) == []
  {
  }

  lemma NoValue()
    ensures forall k: word :: LastValue([], k).None?
  {
  }

  /** Fewer than four octets cannot be a parameter, and a value may not be cut short. */
  lemma BrokenParameters(data: seq<byte>, tlvs: Tlvs)
    ensures 0 < |data| < 4 ==> DecodeTlvs(data, tlvs) == Err(TrailingOctets)
    ensures |data| >= 4 && 4 + Number(data[2..4]) > |data| ==> DecodeTlvs(data, tlvs) == Err(EndOfData)
    ensures DecodeTlvs([], tlvs) == Ok(tlvs)
  {
    hide Number, Join;
    if |data| >= 4 {
      NumberOfTwo(data[2..4], 0);
    }
  }

  // ----- messages -----

  /** How a message is put into a short message: text of up to 254 octets in it, longer text in message_payload. */
  lemma MessageSent(msg: SmMessage, command: u32)
    requires msg.encoding != EncodingUtf8
    ensures var r := SmppMessage.Encode(msg, command);
            var udh := if msg.concat.Some? then
                         var c := msg.concat.value;
                         [6, 8, 4, c.reference / 256, c.reference % 256, c.total, c.sequence]
                       else [];
            var text := if msg.encoding == EncodingBinary then msg.binary
                        else if msg.encoding == EncodingUcs2 then udh + Ucs2.Encode(msg.text)
                        else udh + Septets.Packed([], Gsm7.EncodeText(msg.text), 0);
            && r.Ok? && r.value.commandId == command && r.value.body.Sm?
            && r.value.body.sm == EMPTY_SM.(
                 sourceTon := if msg.source.alpha != [] then 5
                              else if msg.source.ton == 0 && msg.source.npi == 0 then 1 else msg.source.ton,
                 sourceNpi := if msg.source.alpha != [] then 0
                              else if msg.source.ton == 0 && msg.source.npi == 0 then 1 else msg.source.npi,
                 source := if msg.source.alpha != [] then msg.source.alpha else WithoutPlus(msg.source.msisdn),
                 destTon := if msg.destination.alpha != [] then 5
                            else if msg.destination.ton == 0 && msg.destination.npi == 0 then 1
                            else msg.destination.ton,
                 destNpi := if msg.destination.alpha != [] then 0
                            else if msg.destination.ton == 0 && msg.destination.npi == 0 then 1
                            else msg.destination.npi,
                 destination := if msg.destination.alpha != [] then msg.destination.alpha
                                else WithoutPlus(msg.destination.msisdn),
                 esmClass := if msg.concat.Some? && msg.encoding != EncodingBinary then 0x40 else 0,
                 registered := if msg.reportRequired then 3 else 0,
                 dataCoding := if msg.dcs != 0 then msg.dcs else BuildDcs(msg.encoding),
                 octets := if |text| > 254 then [] else text,
                 tlvs := if |text| > 254 then map[0x0424 := text] else map[])
  {
    hide Septets.Packed, Gsm7.EncodeText, Ucs2.Encode, BuildDcs;
  }

  function WithoutPlus(s: seq<byte>): seq<byte> { if |s| > 0 && s[0] == '+' as int then s[1..] else s }

  /** How a short message is read, field by field; a message_payload that is not empty stands for its text. */
  lemma MessageRead(pdu: Pdu, parse: PeriodParser)
    requires (pdu.commandId == 4 || pdu.commandId == 5) && pdu.body.Sm?
    ensures var m, r := pdu.body.sm, SmppMessage.Decode(pdu, parse);
            var payload := if 0x0424 in m.tlvs && m.tlvs[0x0424] != [] then m.tlvs[0x0424] else m.octets;
            var announced := m.esmClass / 64 % 2 == 1 && payload != [];
            var header := if announced then 1 + payload[0] as int else 0;
            && (r.Ok? <==> header <= |payload|)
            && (r.Ok? ==>
                  && r.value.source == (if m.sourceTon == 5 then Address([], m.source, 5, m.sourceNpi)
                                        else Address(WithoutPlus(m.source), [], m.sourceTon, m.sourceNpi))
                  && r.value.destination == (if m.destTon == 5 then Address([], m.destination, 5, m.destNpi)
                                             else Address(WithoutPlus(m.destination), [], m.destTon, m.destNpi))
                  && r.value.dcs == m.dataCoding && r.value.encoding == ParseDcs(m.dataCoding)
                  && (r.value.reportRequired <==> m.registered % 2 == 1) && r.value.validity == parse(m.validity)
                  && (r.value.encoding == EncodingUcs2 ==> r.value.text == Ucs2.Decode(payload[header..]))
                  && (r.value.encoding == EncodingBinary ==> r.value.binary == payload[header..])
                  && (announced ==> UdhOf(payload[..header]).Ok? && r.value.udh == Some(UdhOf(payload[..header]).value))
                  && (!announced ==> r.value.udh.None?))
  {
    hide ParseDcs, Ucs2.Decode, Gsm7.DecodeText, Septets.Unpacked, Septets.Start, ParseElements;
    var m := pdu.body.sm;
    var payload := PayloadOf(m);
    if m.esmClass / 64 % 2 == 1 && payload != [] && 1 + payload[0] as int <= |payload| {
      assert payload[..1 + payload[0] as int][0] == payload[0];
    }
  }

  /** The segment: of the header if it names one, else of the three SAR parameters if all are there. */
  lemma SegmentRead(pdu: Pdu, parse: PeriodParser)
    requires (pdu.commandId == 4 || pdu.commandId == 5) && pdu.body.Sm? && SmppMessage.Decode(pdu, parse).Ok?
    ensures var t, r := pdu.body.sm.tlvs, SmppMessage.Decode(pdu, parse).value;
            && (r.udh.Some? && r.udh.value.concat.Some? ==> r.concat == r.udh.value.concat)
            && (r.udh.None? || r.udh.value.concat.None? ==>
                  if && 0x020C in t && |t[0x020C]| >= 2 && 0x020E in t && |t[0x020E]| >= 1
                     && 0x020F in t && |t[0x020F]| >= 1
                  then r.concat == Some(ConcatInfo(Number(t[0x020C][..2]), t[0x020E][0], t[0x020F][0]))
                  else r.concat.None?)
  {
    hide ParseDcs, Ucs2.Decode, Gsm7.DecodeText, Septets.Unpacked, Septets.Start, HeaderIn, Number, Join;
    var t := pdu.body.sm.tlvs;
    if 0x020C in t && |t[0x020C]| >= 2 {
      NumberOfTwo(t[0x020C][..2], 0);
    }
  }
}
