/** SMPP v3.4 protocol data units on the wire (section 3.2 of SMPP v3.4). */
module SmppWire {
  import opened Wrappers
  import opened Bytes
  import opened SmppFields

  const HEADER_LEN := 16
  const MAX_PDU_LEN := 16 * 1024 * 1024

  datatype ShortMessage = ShortMessage(
    serviceType: seq<byte>,
    sourceTon: byte, sourceNpi: byte, source: seq<byte>,
    destTon: byte, destNpi: byte, destination: seq<byte>,
    esmClass: byte, protocolId: byte, priority: byte,
    schedule: seq<byte>, validity: seq<byte>,
    registered: byte, replace: byte, dataCoding: byte, defaultMsgId: byte,
    octets: seq<byte>,
    tlvs: Tlvs)

  /** The fields that a command carries. */
  datatype Body =
    | Bind(systemId: seq<byte>, password: seq<byte>, systemType: seq<byte>,
           version: byte, ton: byte, npi: byte, range: seq<byte>)
    | BindResp(systemId: seq<byte>)
    | Sm(sm: ShortMessage)
    | SmResp(messageId: seq<byte>)
    | NoBody

  datatype Pdu = Pdu(commandLength: u32, commandId: u32, status: u32, sequence: u32, body: Body)

  const SUBMIT_SM: u32 := 0x0000_0004
  const DELIVER_SM: u32 := 0x0000_0005

  predicate IsBind(id: u32) { id == 0x1 || id == 0x2 || id == 0x9 }

  predicate IsBindResp(id: u32) { id == 0x8000_0001 || id == 0x8000_0002 || id == 0x8000_0009 }

  predicate IsSm(id: u32) { id == SUBMIT_SM || id == DELIVER_SM }

  predicate IsSmResp(id: u32) { id == 0x8000_0004 || id == 0x8000_0005 }

  /** The body has the fields of its command. */
  predicate Shaped(id: u32, body: Body) {
    if IsBind(id) then body.Bind?
    else if IsBindResp(id) then body.BindResp?
    else if IsSm(id) then body.Sm?
    else if IsSmResp(id) then body.SmResp?
    else body.NoBody?
  }

  const EMPTY_SM := ShortMessage([], 0, 0, [], 0, 0, [], 0, 0, 0, [], [], 0, 0, 0, 0, [], map[])

  /** The fields of a PDU that consists of a header only. */
  function BlankBody(id: u32): Body {
    if IsBind(id) then Bind([], [], [], 0, 0, 0, [])
    else if IsBindResp(id) then BindResp([])
    else if IsSm(id) then Sm(EMPTY_SM)
    else if IsSmResp(id) then SmResp([])
    else NoBody
  }

  // ----- layouts -----

  const BIND_LAYOUT := [AString, AString, AString, AnOctet, AnOctet, AnOctet, AString]
  const STRING_LAYOUT := [AString]
  const SM_LAYOUT := [
    AString, AnOctet, AnOctet, AString, AnOctet, AnOctet, AString, AnOctet, AnOctet, AnOctet,
    AString, AString, AnOctet, AnOctet, AnOctet, AnOctet, AnOctet]

  function Layout(id: u32): seq<Kind> {
    if IsBind(id) then BIND_LAYOUT
    else if IsBindResp(id) || IsSmResp(id) then STRING_LAYOUT
    else if IsSm(id) then SM_LAYOUT
    else []
  }

  /** The fixed fields of a body; those of a short message end with its length octet. */
  function FieldsOf(body: Body): seq<Field> {
    match body
    case Bind(id, password, t, version, ton, npi, range) =>
      [CString(id), CString(password), CString(t), Octet(version), Octet(ton), Octet(npi), CString(range)]
    case BindResp(id) => [CString(id)]
    case SmResp(id) => [CString(id)]
    case NoBody => []
    case Sm(m) =>
      [CString(m.serviceType), Octet(m.sourceTon), Octet(m.sourceNpi), CString(m.source),
       Octet(m.destTon), Octet(m.destNpi), CString(m.destination),
       Octet(m.esmClass), Octet(m.protocolId), Octet(m.priority), CString(m.schedule), CString(m.validity),
       Octet(m.registered), Octet(m.replace), Octet(m.dataCoding), Octet(m.defaultMsgId), Octet(|m.octets| % 256)]
  }

  function TextOf(f: Field): seq<byte> { if f.CString? then f.text else [] }

  function ValueOf(f: Field): byte { if f.Octet? then f.value else 0 }

  function SmFrom(fs: seq<Field>, octets: seq<byte>, tlvs: Tlvs): ShortMessage
    requires |fs| == |SM_LAYOUT|
  {
    ShortMessage(
      TextOf(fs[0]), ValueOf(fs[1]), ValueOf(fs[2]), TextOf(fs[3]), ValueOf(fs[4]), ValueOf(fs[5]), TextOf(fs[6]),
      ValueOf(fs[7]), ValueOf(fs[8]), ValueOf(fs[9]), TextOf(fs[10]), TextOf(fs[11]),
      ValueOf(fs[12]), ValueOf(fs[13]), ValueOf(fs[14]), ValueOf(fs[15]), octets, tlvs)
  }

  /** A body without optional parts, from its fields. */
  function BodyFrom(id: u32, fs: seq<Field>): Body
    requires |fs| == |Layout(id)| && !IsSm(id)
  {
    if IsBind(id) then
      Bind(TextOf(fs[0]), TextOf(fs[1]), TextOf(fs[2]), ValueOf(fs[3]), ValueOf(fs[4]), ValueOf(fs[5]), TextOf(fs[6]))
    else if IsBindResp(id) then BindResp(TextOf(fs[0]))
    else if IsSmResp(id) then SmResp(TextOf(fs[0]))
    else NoBody
  }

  // ----- bodies -----

  function SmOctets(sm: ShortMessage, order: seq<word>): Result<seq<byte>, Fault>
    requires forall k :: k in order ==> k in sm.tlvs
  {
    if |sm.octets| > 255 then Err(MessageTooLong)
    else if !LengthsFit(sm.tlvs) then Err(ParameterTooLong)
    else Ok(EncodeFields(FieldsOf(Sm(sm))) + (sm.octets + EncodeTlvs(order, sm.tlvs)))
  }

  function TlvsOf(body: Body): Tlvs { if body.Sm? then body.sm.tlvs else map[] }

  /** encodeBody, for one order of ranging over the optional parameters. */
  function BodyOctets(body: Body, order: seq<word>): Result<seq<byte>, Fault>
    requires forall k :: k in order ==> k in TlvsOf(body)
  {
    if body.Sm? then
      assert TlvsOf(body) == body.sm.tlvs;
      SmOctets(body.sm, order)
    else Ok(EncodeFields(FieldsOf(body)))
  }

  function DecodeSm(data: seq<byte>): Result<ShortMessage, Fault> {
    var (fs, rest) :- DecodeFields(SM_LAYOUT, data);
    var n := ValueOf(fs[16]);
    if n > |rest| then Err(EndOfData)
    else
      var tlvs :- DecodeTlvs(rest[n..], map[]);
      Ok(SmFrom(fs, rest[..n], tlvs))
  }

  /** decodeBody; octets behind the fields of the other commands are ignored. */
  function DecodeBody(id: u32, data: seq<byte>): Result<Body, Fault> {
    if IsSm(id) then
      var sm :- DecodeSm(data);
      Ok(Sm(sm))
    else
      var (fs, rest) :- DecodeFields(Layout(id), data);
      Ok(BodyFrom(id, fs))
  }

  // ----- PDUs -----

  /** Encode; the command length is a 32-bit number, and is checked after it was truncated. */
  function Wire(pdu: Pdu, order: seq<word>): Result<seq<byte>, Fault>
    requires forall k :: k in order ==> k in TlvsOf(pdu.body)
  {
    var body :- BodyOctets(pdu.body, order);
    var length := (HEADER_LEN + |body|) % 0x1_0000_0000;
    if length > MAX_PDU_LEN then Err(BadLength)
    else Ok(Header(length, pdu) + body)
  }

  function Header(length: u32, pdu: Pdu): seq<byte> {
    U32Octets(length) + U32Octets(pdu.commandId) + U32Octets(pdu.status) + U32Octets(pdu.sequence)
  }

  /** Decode: the PDU at the front of a stream, and the stream behind it. */
  function Decode(s: seq<byte>): Result<(Pdu, seq<byte>), Fault> {
    if |s| < HEADER_LEN then Err(EndOfData)
    else
      var length, id := U32Of(s[0], s[1], s[2], s[3]), U32Of(s[4], s[5], s[6], s[7]);
      var status, sequence := U32Of(s[8], s[9], s[10], s[11]), U32Of(s[12], s[13], s[14], s[15]);
      if length < HEADER_LEN || length > MAX_PDU_LEN then Err(BadLength)
      else if length > |s| then Err(EndOfData)
      else if length == HEADER_LEN then Ok((Pdu(length, id, status, sequence, BlankBody(id)), s[length..]))
      else
        var body :- DecodeBody(id, s[HEADER_LEN..length]);
        Ok((Pdu(length, id, status, sequence, body), s[length..]))
  }

  // ----- round trips -----

  lemma FieldsFollowLayout(id: u32, body: Body)
    requires Shaped(id, body)
    ensures Kinds(FieldsOf(body)) == Layout(id)
  {
  }

  lemma BodyFromFields(id: u32, body: Body)
    requires Shaped(id, body) && !IsSm(id)
    ensures |FieldsOf(body)| == |Layout(id)| && BodyFrom(id, FieldsOf(body)) == body
  {
  }

  lemma FieldsFromBody(id: u32, fs: seq<Field>)
    requires Kinds(fs) == Layout(id) && !IsSm(id)
    ensures |fs| == |Layout(id)| && FieldsOf(BodyFrom(id, fs)) == fs && Shaped(id, BodyFrom(id, fs))
  {
    assert |Kinds(fs)| == |fs|;
    assert forall i :: 0 <= i < |fs| ==> KindOf(fs[i]) == Layout(id)[i];
  }

  lemma FieldsFromSm(fs: seq<Field>, octets: seq<byte>, tlvs: Tlvs)
    requires Kinds(fs) == SM_LAYOUT
    requires |octets| == ValueOf(fs[16])
    ensures FieldsOf(Sm(SmFrom(fs, octets, tlvs))) == fs
  {
    assert forall i :: 0 <= i < |fs| ==> KindOf(fs[i]) == SM_LAYOUT[i];
  }

  lemma SmFromFields(sm: ShortMessage)
    ensures |FieldsOf(Sm(sm))| == |SM_LAYOUT| && SmFrom(FieldsOf(Sm(sm)), sm.octets, sm.tlvs) == sm
    ensures |sm.octets| <= 255 ==> ValueOf(FieldsOf(Sm(sm))[16]) == |sm.octets|
  {
  }

  lemma SmRoundTrip(sm: ShortMessage, order: seq<word>)
    requires IsOrder(order, sm.tlvs) && SmOctets(sm, order).Ok?
    ensures DecodeSm(SmOctets(sm, order).value) == Ok(sm) <==> NulFree(FieldsOf(Sm(sm)))
  {
    hide EncodeFields, DecodeFields, EncodeTlvs, DecodeTlvs, SmFrom, Kinds, NulFree, FieldsOf;
    var fs := FieldsOf(Sm(sm));
    var tail := sm.octets + EncodeTlvs(order, sm.tlvs);
    var data := SmOctets(sm, order).value;
    FieldsFollowLayout(SUBMIT_SM, Sm(sm));
    SmFromFields(sm);
    if NulFree(fs) {
      FieldsRoundTrip(fs, tail);
      TlvsRoundTrip(order, sm.tlvs);
      assert tail[..|sm.octets|] == sm.octets && tail[|sm.octets|..] == EncodeTlvs(order, sm.tlvs);
    } else if DecodeSm(data) == Ok(sm) {
      var (gs, rest) := DecodeFields(SM_LAYOUT, data).value;
      ReadFieldsAreNulFree(SM_LAYOUT, data);
      var tlvs := DecodeTlvs(rest[ValueOf(gs[16])..], map[]).value;
      FieldsFromSm(gs, rest[..ValueOf(gs[16])], tlvs);
      assert false;
    }
  }

  /** A body is read back as it was exactly when no NUL hides inside its strings. */
  lemma BodyRoundTrip(id: u32, body: Body, order: seq<word>)
    requires Shaped(id, body) && IsOrder(order, TlvsOf(body)) && BodyOctets(body, order).Ok?
    ensures DecodeBody(id, BodyOctets(body, order).value) == Ok(body) <==> NulFree(FieldsOf(body))
  {
    hide EncodeFields, DecodeFields, BodyFrom, Kinds, NulFree, DecodeSm, SmOctets, FieldsOf;
    if IsSm(id) {
      SmRoundTrip(body.sm, order);
    } else {
      var fs, data := FieldsOf(body), BodyOctets(body, order).value;
      FieldsFollowLayout(id, body);
      BodyFromFields(id, body);
      assert EncodeFields(fs) + [] == data;
      if NulFree(fs) {
        FieldsRoundTrip(fs, []);
      } else if DecodeBody(id, data) == Ok(body) {
        var (gs, rest) := DecodeFields(Layout(id), data).value;
        ReadFieldsAreNulFree(Layout(id), data);
        FieldsFromBody(id, gs);
        assert false;
      }
    }
  }

  lemma HeaderFields(length: u32, pdu: Pdu, rest: seq<byte>)
    ensures var s := Header(length, pdu) + rest;
            && |s| == HEADER_LEN + |rest|
            && U32Of(s[0], s[1], s[2], s[3]) == length && U32Of(s[4], s[5], s[6], s[7]) == pdu.commandId
            && U32Of(s[8], s[9], s[10], s[11]) == pdu.status && U32Of(s[12], s[13], s[14], s[15]) == pdu.sequence
            && s[HEADER_LEN..] == rest
  {
    hide U32Of;
    assert forall n: u32 :: |U32Octets(n)| == 4;
    U32RoundTrip(length);
    U32RoundTrip(pdu.commandId);
    U32RoundTrip(pdu.status);
    U32RoundTrip(pdu.sequence);
  }

  lemma EmptyBodyIsBlank(id: u32, body: Body, order: seq<word>)
    requires Shaped(id, body) && IsOrder(order, TlvsOf(body)) && BodyOctets(body, order) == Ok([])
    ensures body.NoBody? && BlankBody(id) == body && NulFree(FieldsOf(body))
  {
    if !body.NoBody? {
      var first := EncodeField(FieldsOf(body)[0]);
      assert false;
    }
  }

  /**
    * Whatever order the optional parameters were written in and whatever follows on the
    * stream, a PDU is read back with only its length set, exactly when no NUL hides inside
    * its strings and its true length is legal.
    */
  lemma RoundTrip(pdu: Pdu, order: seq<word>, rest: seq<byte>)
    requires Shaped(pdu.commandId, pdu.body) && IsOrder(order, TlvsOf(pdu.body)) && Wire(pdu, order).Ok?
    ensures var wire := Wire(pdu, order).value;
            Decode(wire + rest) == Ok((pdu.(commandLength := |wire| % 0x1_0000_0000), rest))
            <==> NulFree(FieldsOf(pdu.body)) && |wire| <= MAX_PDU_LEN
  {
    hide BodyOctets, DecodeBody, NulFree, Header, FieldsOf, BlankBody, U32Of;
    var body := BodyOctets(pdu.body, order).value;
    var wire := Wire(pdu, order).value;
    var s := wire + rest;
    var length := (HEADER_LEN + |body|) % 0x1_0000_0000;
    assert s == Header(length, pdu) + (body + rest);
    HeaderFields(length, pdu, body + rest);
    HeaderFields(length, pdu, body);
    if |wire| <= MAX_PDU_LEN {
      assert length == |wire|;
      assert s[length..] == rest && s[HEADER_LEN..length] == body;
      if body == [] {
        EmptyBodyIsBlank(pdu.commandId, pdu.body, order);
      } else {
        BodyRoundTrip(pdu.commandId, pdu.body, order);
      }
    } else {
      assert length < |wire|;
      if length <= |s| {
        assert |s[length..]| > |rest|;
      }
    }
  }

  // ----- streams -----

  datatype Item = Item(pdu: Pdu, order: seq<word>)

  ghost predicate Sendable(i: Item) {
    && Shaped(i.pdu.commandId, i.pdu.body) && IsOrder(i.order, TlvsOf(i.pdu.body))
    && NulFree(FieldsOf(i.pdu.body))
    && Wire(i.pdu, i.order).Ok? && |Wire(i.pdu, i.order).value| <= MAX_PDU_LEN
  }

  ghost function Sent(items: seq<Item>): seq<byte>
    requires forall i :: 0 <= i < |items| ==> Sendable(items[i])
  {
    if items == [] then []
    else
      assert Sendable(items[0]);
      Wire(items[0].pdu, items[0].order).value + Sent(items[1..])
  }

  ghost function Received(items: seq<Item>): seq<Pdu>
    requires forall i :: 0 <= i < |items| ==> Sendable(items[i])
  {
    if items == [] then []
    else
      assert Sendable(items[0]);
      [items[0].pdu.(commandLength := |Wire(items[0].pdu, items[0].order).value|)] + Received(items[1..])
  }

  lemma DecodeShortens(s: seq<byte>)
    ensures Decode(s).Ok? ==> |Decode(s).value.1| < |s|
  {
    hide DecodeBody, U32Of;
  }

  /** Decode applied until the stream is used up. */
  function DecodeAll(s: seq<byte>): Result<seq<Pdu>, Fault>
    decreases |s|
  {
    if s == [] then Ok([])
    else
      var (pdu, rest) :- Decode(s);
      DecodeShortens(s);
      var pdus :- DecodeAll(rest);
      Ok([pdu] + pdus)
  }

  /** A stream of encodings decodes to exactly the PDUs that were written. */
  lemma {:induction false} StreamRoundTrip(items: seq<Item>)
    requires forall i :: 0 <= i < |items| ==> Sendable(items[i])
    ensures DecodeAll(Sent(items)) == Ok(Received(items))
  {
    hide Decode, Wire, FieldsOf, NulFree, Shaped;
    if items == [] {
    } else {
      var first, tail := items[0], Sent(items[1..]);
      assert Sendable(items[0]);
      var wire := Wire(first.pdu, first.order).value;
      RoundTrip(first.pdu, first.order, tail);
      assert wire != [] by { WireNotEmpty(first); }
      StreamRoundTrip(items[1..]);
    }
  }

  lemma WireNotEmpty(i: Item)
    requires Sendable(i)
    ensures Wire(i.pdu, i.order).value != []
  {
    hide U32Octets, BodyOctets;
    assert forall n: u32 :: |U32Octets(n)| == 4 by { U32Length(); }
  }

  lemma U32Length()
    ensures forall n: u32 :: |U32Octets(n)| == 4
  {
  }

  // ----- what was accepted can be sent on -----

  lemma AcceptedSm(data: seq<byte>, order: seq<word>)
    requires DecodeSm(data).Ok? && IsOrder(order, DecodeSm(data).value.tlvs)
    ensures var sm := DecodeSm(data).value;
            NulFree(FieldsOf(Sm(sm))) && SmOctets(sm, order).Ok? && |SmOctets(sm, order).value| <= |data|
  {
    hide EncodeFields, DecodeFields, EncodeTlvs, DecodeTlvs, SmFrom, Kinds, NulFree, FieldsOf;
    var (fs, rest) := DecodeFields(SM_LAYOUT, data).value;
    var n := ValueOf(fs[16]);
    ReadFieldsAreNulFree(SM_LAYOUT, data);
    var tlvs := DecodeTlvs(rest[n..], map[]).value;
    FieldsFromSm(fs, rest[..n], tlvs);
    SmKeeps(fs, rest[..n], tlvs);
    RewriteIsNoLonger(rest[n..], map[], [], order);
    assert EncodeTlvs([], map[]) == [] by { NoTlvs(); }
  }

  lemma SmKeeps(fs: seq<Field>, octets: seq<byte>, tlvs: Tlvs)
    requires |fs| == |SM_LAYOUT|
    ensures SmFrom(fs, octets, tlvs).octets == octets && SmFrom(fs, octets, tlvs).tlvs == tlvs
  {
  }

  lemma NoTlvs()
    ensures EncodeTlvs([], map[]) == []
  {
  }

  lemma BlankIsSendable(id: u32, order: seq<word>)
    requires IsOrder(order, TlvsOf(BlankBody(id)))
    ensures NulFree(FieldsOf(BlankBody(id)))
    ensures BodyOctets(BlankBody(id), order).Ok? && |BodyOctets(BlankBody(id), order).value| == |Layout(id)| <= 17
  {
    hide EncodeFields, EncodeTlvs;
    var fs := FieldsOf(BlankBody(id));
    BlankFieldsAreShort(fs);
    FirstIsMember(order);
    assert EncodeTlvs([], map[]) == [] by { NoTlvs(); }
  }

  lemma {:induction false} BlankFieldsAreShort(fs: seq<Field>)
    requires forall i :: 0 <= i < |fs| ==> fs[i] == Octet(0) || fs[i] == CString([])
    ensures |EncodeFields(fs)| == |fs|
  {
    if fs == [] {
    } else {
      BlankFieldsAreShort(fs[1..]);
    }
  }

  /**
    * Every PDU that was accepted can be encoded again, in any order of its parameters, and
    * what then arrives is the same PDU but for its length: repeated parameters and octets
    * behind the last field are gone. Only a PDU that was a bare header grows, by one octet
    * for each field that its command has.
    */
  lemma AcceptedIsStable(s: seq<byte>, order: seq<word>, rest: seq<byte>)
    requires Decode(s).Ok? && IsOrder(order, TlvsOf(Decode(s).value.0.body))
    ensures var pdu := Decode(s).value.0;
            Wire(pdu, order).Ok? && |Wire(pdu, order).value| <= MAX_PDU_LEN &&
            var wire := Wire(pdu, order).value;
            && Decode(wire + rest) == Ok((pdu.(commandLength := |wire|), rest))
            && if pdu.commandLength == HEADER_LEN then |wire| == HEADER_LEN + |Layout(pdu.commandId)|
               else |wire| <= pdu.commandLength
  {
    hide BodyOctets, DecodeBody, NulFree, Header, FieldsOf, BlankBody, U32Of, Shaped, Layout;
    var pdu := Decode(s).value.0;
    var id := pdu.commandId;
    var length := U32Of(s[0], s[1], s[2], s[3]);
    if length == HEADER_LEN {
      BlankIsSendable(id, order);
      BlankIsShaped(id);
    } else {
      var data := s[HEADER_LEN..length];
      AcceptedBody(id, data, order);
    }
    assert Wire(pdu, order).Ok? && |Wire(pdu, order).value| <= MAX_PDU_LEN by {
      HeaderFields((HEADER_LEN + |BodyOctets(pdu.body, order).value|) % 0x1_0000_0000, pdu,
                   BodyOctets(pdu.body, order).value);
    }
    WireLength(pdu, order);
    RoundTrip(pdu, order, rest);
  }

  lemma WireLength(pdu: Pdu, order: seq<word>)
    requires (forall k :: k in order ==> k in TlvsOf(pdu.body)) && Wire(pdu, order).Ok?
    ensures |Wire(pdu, order).value| == HEADER_LEN + |BodyOctets(pdu.body, order).value|
  {
    hide BodyOctets, Header;
    var body := BodyOctets(pdu.body, order).value;
    HeaderFields((HEADER_LEN + |body|) % 0x1_0000_0000, pdu, body);
  }

  lemma BlankIsShaped(id: u32)
    ensures Shaped(id, BlankBody(id))
  {
  }

  lemma AcceptedBody(id: u32, data: seq<byte>, order: seq<word>)
    requires DecodeBody(id, data).Ok? && IsOrder(order, TlvsOf(DecodeBody(id, data).value))
    ensures var body := DecodeBody(id, data).value;
            Shaped(id, body) && NulFree(FieldsOf(body)) &&
            BodyOctets(body, order).Ok? && |BodyOctets(body, order).value| <= |data|
  {
    hide EncodeFields, DecodeFields, BodyFrom, Kinds, NulFree, DecodeSm, SmOctets, FieldsOf;
    if IsSm(id) {
      AcceptedSm(data, order);
    } else {
      var (fs, rest) := DecodeFields(Layout(id), data).value;
      ReadFieldsAreNulFree(Layout(id), data);
      FieldsFromBody(id, fs);
    }
  }

  /** A response body without a terminating NUL is refused: the tolerated end of data never occurs. */
  lemma ResponseNeedsTerminator(id: u32, data: seq<byte>)
    requires IsSmResp(id)
    ensures DecodeBody(id, data).Err? <==> 0 !in data
  {
    UpToNulIsFirst(data);
    assert STRING_LAYOUT[1..] == [];
    var f := DecodeField(AString, data);
    assert DecodeFields(Layout(id), data).Ok? <==> f.Ok?;
  }
}
