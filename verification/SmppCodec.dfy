/** The SMPP codec as it runs: a growing buffer, a moving reader and a loop over the parameters. */
module SmppCodec {
  import opened Wrappers
  import opened Bytes
  import opened SmppFields
  import opened SmppWire

  /** The buffer a body is written to. */
  class Writer {
    var out: seq<byte>
    ghost var fields: seq<Field>

    ghost predicate Valid()
      reads this
    {
      out == EncodeFields(fields)
    }

    constructor ()
      ensures Valid() && fields == []
    {
      out, fields := [], [];
    }

    method WriteByte(b: byte)
      requires Valid()
      modifies this
      ensures Valid() && fields == old(fields) + [Octet(b)]
    {
      EncodeFieldsAppend(fields, Octet(b));
      out := out + [b];
      fields := fields + [Octet(b)];
    }

    /** writeCStr. */
    method WriteCString(s: seq<byte>)
      requires Valid()
      modifies this
      ensures Valid() && fields == old(fields) + [CString(s)]
    {
      EncodeFieldsAppend(fields, CString(s));
      out := out + s;
      out := out + [0];
      fields := fields + [CString(s)];
    }
  }

  /** encodeTLVs: ranges over the map in an order nobody chose. */
  method WriteTlvs(tlvs: Tlvs) returns (r: Result<seq<byte>, Fault>, ghost order: seq<word>)
    ensures r.Ok? <==> LengthsFit(tlvs)
    ensures r.Ok? ==> IsOrder(order, tlvs) && r == Ok(EncodeTlvs(order, tlvs))
    ensures r.Err? ==> order == [] && r == Err(ParameterTooLong)
  {
    hide EncodeTlvs, WordOctets;
    var out: seq<byte> := [];
    var todo := tlvs.Keys;
    ghost var done: Tlvs := map[];
    order := [];
    assert EncodeTlvs([], done) == [] by { NoOctets(done); }
    while todo != {}
      invariant todo !! done.Keys && todo + done.Keys == tlvs.Keys
      invariant forall k :: k in done ==> done[k] == tlvs[k]
      invariant LengthsFit(done) && IsOrder(order, done)
      invariant out == EncodeTlvs(order, done)
      decreases todo
    {
      var tag :| tag in todo;
      var val := tlvs[tag];
      if |val| > 65535 {
        return Err(ParameterTooLong), [];
      }
      StoreNext(order, done, tag, val);
      out := out + WordOctets(tag);
      out := out + WordOctets(|val|);
      out := out + val;
      assert out == EncodeTlvs(order, done) + TlvOctets(tag, val);
      order := order + [tag];
      done := done[tag := val];
      todo := todo - {tag};
    }
    assert done == tlvs;
    return Ok(out), order;
  }

  lemma NoOctets(tlvs: Tlvs)
    requires LengthsFit(tlvs)
    ensures EncodeTlvs([], tlvs) == []
  {
  }

  lemma StoreNext(order: seq<word>, done: Tlvs, tag: word, val: seq<byte>)
    requires LengthsFit(done) && IsOrder(order, done) && tag !in done && |val| <= 65535
    ensures LengthsFit(done[tag := val]) && IsOrder(order + [tag], done[tag := val])
    ensures EncodeTlvs(order + [tag], done[tag := val]) == EncodeTlvs(order, done) + TlvOctets(tag, val)
  {
    hide EncodeTlvs, TlvOctets;
    var more := done[tag := val];
    EncodeTlvsFrame(order, done, more);
    EncodeTlvsAppend(order, [tag], more);
    assert EncodeTlvs([tag], more) == TlvOctets(tag, val) by { OneTlv(tag, more); }
  }

  lemma OneTlv(tag: word, tlvs: Tlvs)
    requires LengthsFit(tlvs) && tag in tlvs
    ensures EncodeTlvs([tag], tlvs) == TlvOctets(tag, tlvs[tag])
  {
    assert EncodeTlvs([tag][1..], tlvs) == [];
  }

  /** The fields of a short message up to its destination. */
  function AddressFields(m: ShortMessage): seq<Field> {
    [CString(m.serviceType), Octet(m.sourceTon), Octet(m.sourceNpi), CString(m.source),
     Octet(m.destTon), Octet(m.destNpi), CString(m.destination)]
  }

  /** The fields behind its destination, with the length octet last. */
  function OptionFields(m: ShortMessage): seq<Field> {
    [Octet(m.esmClass), Octet(m.protocolId), Octet(m.priority), CString(m.schedule), CString(m.validity),
     Octet(m.registered), Octet(m.replace), Octet(m.dataCoding), Octet(m.defaultMsgId), Octet(|m.octets| % 256)]
  }

  method WriteAddresses(w: Writer, m: ShortMessage)
    requires w.Valid()
    modifies w
    ensures w.Valid() && w.fields == old(w.fields) + AddressFields(m)
  {
    hide EncodeFields;
    w.WriteCString(m.serviceType);
    w.WriteByte(m.sourceTon);
    w.WriteByte(m.sourceNpi);
    w.WriteCString(m.source);
    w.WriteByte(m.destTon);
    w.WriteByte(m.destNpi);
    w.WriteCString(m.destination);
  }

  method WriteOptions(w: Writer, m: ShortMessage)
    requires w.Valid()
    modifies w
    ensures w.Valid() && w.fields == old(w.fields) + OptionFields(m)
  {
    hide EncodeFields;
    w.WriteByte(m.esmClass);
    w.WriteByte(m.protocolId);
    w.WriteByte(m.priority);
    w.WriteCString(m.schedule);
    w.WriteCString(m.validity);
    w.WriteByte(m.registered);
    w.WriteByte(m.replace);
    w.WriteByte(m.dataCoding);
    w.WriteByte(m.defaultMsgId);
    w.WriteByte(|m.octets| % 256);
  }

  /** encodeBody. */
  method EncodeBody(id: u32, body: Body) returns (r: Result<seq<byte>, Fault>, ghost order: seq<word>)
    requires Shaped(id, body)
    ensures r.Ok? <==> (body.Sm? ==> |body.sm.octets| <= 255 && LengthsFit(body.sm.tlvs))
    ensures r.Ok? ==> IsOrder(order, TlvsOf(body))
    ensures (forall k :: k in order ==> k in TlvsOf(body)) && r == BodyOctets(body, order)
  {
    hide EncodeFields, EncodeTlvs;
    order := [];
    var w := new Writer();
    match body {
      case Bind(systemId, password, systemType, version, ton, npi, range) =>
        w.WriteCString(systemId);
        w.WriteCString(password);
        w.WriteCString(systemType);
        w.WriteByte(version);
        w.WriteByte(ton);
        w.WriteByte(npi);
        w.WriteCString(range);
      case BindResp(systemId) =>
        w.WriteCString(systemId);
      case SmResp(messageId) =>
        w.WriteCString(messageId);
      case NoBody =>
      case Sm(m) =>
        if |m.octets| > 255 {
          return Err(MessageTooLong), [];
        }
        WriteAddresses(w, m);
        WriteOptions(w, m);
        assert w.fields == FieldsOf(body);
        var tlvs, o := WriteTlvs(m.tlvs);
        order := o;
        if tlvs.Err? {
          return Err(tlvs.error), order;
        }
        return Ok(w.out + (m.octets + tlvs.value)), order;
    }
    assert w.fields == FieldsOf(body);
    return Ok(w.out), order;
  }

  /** Encode: the header in front of the body. */
  method EncodePdu(pdu: Pdu) returns (r: Result<seq<byte>, Fault>, ghost order: seq<word>)
    requires Shaped(pdu.commandId, pdu.body)
    ensures r.Ok? ==> pdu.body.Sm? ==> |pdu.body.sm.octets| <= 255 && LengthsFit(pdu.body.sm.tlvs)
    ensures r.Ok? ==> IsOrder(order, TlvsOf(pdu.body))
    ensures (forall k :: k in order ==> k in TlvsOf(pdu.body)) && r == Wire(pdu, order)
  {
    hide BodyOctets, U32Octets;
    var body, o := EncodeBody(pdu.commandId, pdu.body);
    order := o;
    if body.Err? {
      return Err(body.error), order;
    }
    var length := (HEADER_LEN + |body.value|) % 0x1_0000_0000;
    if length > MAX_PDU_LEN {
      return Err(BadLength), order;
    }
    var buf := U32Octets(length) + U32Octets(pdu.commandId) + U32Octets(pdu.status) + U32Octets(pdu.sequence);
    return Ok(buf + body.value), order;
  }

  /** A reader that moves through a body, field by field of a layout. */
  class Reader {
    const data: seq<byte>
    ghost const layout: seq<Kind>
    var pos: nat
    ghost var fields: seq<Field>

    ghost predicate Valid()
      reads this
    {
      && pos <= |data| && |fields| <= |layout|
      && DecodeFields(layout[..|fields|], data) == Ok((fields, data[pos..]))
    }

    constructor (data: seq<byte>, ghost layout: seq<Kind>)
      ensures Valid() && this.data == data && this.layout == layout && fields == []
    {
      this.data, this.layout := data, layout;
      pos, fields := 0, [];
    }

    lemma Step()
      requires Valid() && |fields| < |layout|
      ensures var k, r := layout[|fields|], DecodeField(layout[|fields|], data[pos..]);
              match r
              case Err(e) => DecodeFields(layout, data) == Err(e)
              case Ok((f, rest)) => DecodeFields(layout[..|fields| + 1], data) == Ok((fields + [f], rest))
    {
      hide DecodeField, DecodeFields;
      var n := |fields|;
      var next := layout[..n + 1];
      assert next == layout[..n] + [layout[n]];
      DecodeFieldsSplit(layout[..n], [layout[n]], data);
      OneField(layout[n], data[pos..]);
      assert layout == next + layout[n + 1..];
      DecodeFieldsSplit(next, layout[n + 1..], data);
    }

    method ReadByte() returns (r: Result<byte, Fault>)
      requires Valid() && |fields| < |layout| && layout[|fields|] == AnOctet
      modifies this
      ensures r.Ok? ==> Valid() && fields == old(fields) + [Octet(r.value)]
      ensures r.Err? ==> DecodeFields(layout, data) == Err(r.error)
    {
      hide DecodeFields;
      Step();
      if pos >= |data| {
        return Err(EndOfData);
      }
      var b := data[pos];
      assert data[pos..][1..] == data[pos + 1..];
      pos := pos + 1;
      fields := fields + [Octet(b)];
      return Ok(b);
    }

    /** readCStr: octets up to a NUL. */
    method ReadCString() returns (r: Result<seq<byte>, Fault>)
      requires Valid() && |fields| < |layout| && layout[|fields|] == AString
      modifies this
      ensures r.Ok? ==> Valid() && fields == old(fields) + [CString(r.value)]
      ensures r.Err? ==> DecodeFields(layout, data) == Err(r.error)
    {
      hide DecodeFields, UpToNul;
      Step();
      ghost var all := data[pos..];
      var buf: seq<byte> := [];
      var at := pos;
      while at < |data| && data[at] != 0
        invariant pos <= at <= |data| && buf == data[pos..at] && 0 !in buf
      {
        buf := buf + [data[at]];
        at := at + 1;
      }
      assert buf == all[..at - pos];
      if at >= |data| {
        assert buf == all;
        UpToNulIsFirst(all);
        return Err(Unterminated);
      }
      UpToNulUnique(all, at - pos);
      assert all[at - pos + 1..] == data[at + 1..];
      pos := at + 1;
      fields := fields + [CString(buf)];
      return Ok(buf);
    }
  }

  lemma OneField(k: Kind, data: seq<byte>)
    ensures DecodeFields([k], data) ==
            match DecodeField(k, data) case Err(e) => Err(e) case Ok((f, rest)) => Ok(([f], rest))
  {
    hide DecodeField;
    assert [k][1..] == [];
    var r := DecodeField(k, data);
    if r.Ok? {
      NothingToRead(r.value.1);
      assert [r.value.0] + [] == [r.value.0];
    }
  }

  /** decodeTLVs. */
  method ReadTlvs(data: seq<byte>) returns (r: Result<Tlvs, Fault>)
    ensures r == DecodeTlvs(data, map[])
  {
    hide Join;
    var tlvs: Tlvs := map[];
    var rest := data;
    while |rest| >= 4
      invariant DecodeTlvs(rest, tlvs) == DecodeTlvs(data, map[])
      decreases |rest|
    {
      var tag, length := Join(rest[0], rest[1]), Join(rest[2], rest[3]);
      if 4 + length > |rest| {
        return Err(EndOfData);
      }
      tlvs := tlvs[tag := rest[4..4 + length]];
      rest := rest[4 + length..];
    }
    if |rest| != 0 {
      return Err(TrailingOctets);
    }
    return Ok(tlvs);
  }

  /** Reads the fields up to the destination into an otherwise empty short message. */
  method ReadAddresses(rd: Reader) returns (r: Result<ShortMessage, Fault>)
    requires rd.Valid() && rd.layout == SM_LAYOUT && rd.fields == []
    modifies rd
    ensures r.Ok? ==> rd.Valid() && rd.fields == AddressFields(r.value)
    ensures r.Err? ==> DecodeFields(SM_LAYOUT, rd.data) == Err(r.error)
  {
    hide DecodeFields, Reader.Valid;
    var m :- ReadSource(rd);
    var destTon :- rd.ReadByte();
    var destNpi :- rd.ReadByte();
    var destination :- rd.ReadCString();
    m := m.(destTon := destTon, destNpi := destNpi, destination := destination);
    assert rd.fields == AddressFields(m);
    return Ok(m);
  }

  method ReadSource(rd: Reader) returns (r: Result<ShortMessage, Fault>)
    requires rd.Valid() && rd.layout == SM_LAYOUT && rd.fields == []
    modifies rd
    ensures r.Ok? ==> rd.Valid() && rd.fields == AddressFields(r.value)[..4]
    ensures r.Err? ==> DecodeFields(SM_LAYOUT, rd.data) == Err(r.error)
  {
    hide DecodeFields, Reader.Valid;
    var serviceType :- rd.ReadCString();
    var sourceTon :- rd.ReadByte();
    var sourceNpi :- rd.ReadByte();
    var source :- rd.ReadCString();
    var m := EMPTY_SM.(serviceType := serviceType, sourceTon := sourceTon, sourceNpi := sourceNpi, source := source);
    assert AddressFields(m)[..4] == [CString(serviceType), Octet(sourceTon), Octet(sourceNpi), CString(source)];
    return Ok(m);
  }

  /** Reads the remaining fields into it; `length` is the length octet. */
  method ReadOptions(rd: Reader, m: ShortMessage) returns (r: Result<(ShortMessage, byte), Fault>)
    requires rd.Valid() && rd.layout == SM_LAYOUT && |rd.fields| == 7
    modifies rd
    ensures r.Ok? ==>
              rd.Valid() && AddressFields(r.value.0) == AddressFields(m) &&
              rd.fields == old(rd.fields) + OptionFields(r.value.0)[..9] + [Octet(r.value.1)]
    ensures r.Err? ==> DecodeFields(SM_LAYOUT, rd.data) == Err(r.error)
  {
    hide DecodeFields, Reader.Valid;
    var modes :- ReadModes(rd, m);
    var registered :- rd.ReadByte();
    var replace :- rd.ReadByte();
    var dataCoding :- rd.ReadByte();
    var defaultMsgId :- rd.ReadByte();
    var smLength :- rd.ReadByte();
    return Ok((modes.(
      registered := registered, replace := replace, dataCoding := dataCoding, defaultMsgId := defaultMsgId), smLength));
  }

  method ReadModes(rd: Reader, m: ShortMessage) returns (r: Result<ShortMessage, Fault>)
    requires rd.Valid() && rd.layout == SM_LAYOUT && |rd.fields| == 7
    modifies rd
    ensures r.Ok? ==>
              rd.Valid() && AddressFields(r.value) == AddressFields(m) &&
              rd.fields == old(rd.fields) + OptionFields(r.value)[..5]
    ensures r.Err? ==> DecodeFields(SM_LAYOUT, rd.data) == Err(r.error)
  {
    hide DecodeFields, Reader.Valid;
    var esmClass :- rd.ReadByte();
    var protocolId :- rd.ReadByte();
    var priority :- rd.ReadByte();
    var schedule :- rd.ReadCString();
    var validity :- rd.ReadCString();
    return Ok(m.(
      esmClass := esmClass, protocolId := protocolId, priority := priority, schedule := schedule,
      validity := validity));
  }

  lemma SmAssembled(fs: seq<Field>, m: ShortMessage, octets: seq<byte>, tlvs: Tlvs, length: byte)
    requires fs == AddressFields(m) + OptionFields(m)[..9] + [Octet(length)]
    ensures |fs| == |SM_LAYOUT| && SmFrom(fs, octets, tlvs) == m.(octets := octets, tlvs := tlvs)
    ensures ValueOf(fs[16]) == length
  {
  }

  method ReadSm(data: seq<byte>) returns (r: Result<ShortMessage, Fault>)
    ensures r == DecodeSm(data)
  {
    hide DecodeFields, DecodeTlvs, SmFrom, AddressFields, OptionFields;
    var rd := new Reader(data, SM_LAYOUT);
    var m :- ReadAddresses(rd);
    assert |rd.fields| == 7 by { AddressCount(m); }
    var options :- ReadOptions(rd, m);
    var smLength: nat := options.1;
    assert SM_LAYOUT[..17] == SM_LAYOUT;
    ghost var rest := data[rd.pos..];
    SmAssembled(rd.fields, options.0, [], map[], options.1);
    if rd.pos + smLength > |data| {
      return Err(EndOfData);
    }
    var octets := data[rd.pos..rd.pos + smLength];
    assert octets == rest[..smLength] && data[rd.pos + smLength..] == rest[smLength..];
    var tlvs :- ReadTlvs(data[rd.pos + smLength..]);
    SmAssembled(rd.fields, options.0, octets, tlvs, options.1);
    return Ok(options.0.(octets := octets, tlvs := tlvs));
  }

  lemma AddressCount(m: ShortMessage)
    ensures |AddressFields(m)| == 7
  {
  }

  /** decodeBody. */
  method ReadBody(id: u32, data: seq<byte>) returns (r: Result<Body, Fault>)
    ensures r == DecodeBody(id, data)
  {
    hide DecodeFields, DecodeSm;
    if IsBind(id) {
      var rd := new Reader(data, BIND_LAYOUT);
      var systemId :- rd.ReadCString();
      var password :- rd.ReadCString();
      var systemType :- rd.ReadCString();
      var version :- rd.ReadByte();
      var ton :- rd.ReadByte();
      var npi :- rd.ReadByte();
      var range :- rd.ReadCString();
      assert BIND_LAYOUT[..7] == BIND_LAYOUT;
      return Ok(Bind(systemId, password, systemType, version, ton, npi, range));
    }
    if IsSm(id) {
      var sm :- ReadSm(data);
      return Ok(Sm(sm));
    }
    if IsBindResp(id) || IsSmResp(id) {
      var rd := new Reader(data, STRING_LAYOUT);
      var text :- rd.ReadCString();
      assert STRING_LAYOUT[..1] == STRING_LAYOUT;
      return Ok(if IsBindResp(id) then BindResp(text) else SmResp(text));
    }
    NothingToRead(data);
    return Ok(NoBody);
  }

  lemma NothingToRead(data: seq<byte>)
    ensures DecodeFields([], data) == Ok(([], data))
  {
  }

  /** Decode: one PDU from the front of what is still to be read. */
  method DecodePdu(s: seq<byte>) returns (r: Result<(Pdu, seq<byte>), Fault>)
    ensures r == Decode(s)
  {
    hide DecodeBody, U32Of;
    if |s| < HEADER_LEN {
      return Err(EndOfData);
    }
    var hdr := s[..HEADER_LEN];
    var length, id := U32Of(hdr[0], hdr[1], hdr[2], hdr[3]), U32Of(hdr[4], hdr[5], hdr[6], hdr[7]);
    var status, sequence := U32Of(hdr[8], hdr[9], hdr[10], hdr[11]), U32Of(hdr[12], hdr[13], hdr[14], hdr[15]);
    if length < HEADER_LEN {
      return Err(BadLength);
    }
    if length > MAX_PDU_LEN {
      return Err(BadLength);
    }
    var bodyLen := length - HEADER_LEN;
    if HEADER_LEN + bodyLen > |s| {
      return Err(EndOfData);
    }
    var body := BlankBody(id);
    if bodyLen > 0 {
      body :- ReadBody(id, s[HEADER_LEN..HEADER_LEN + bodyLen]);
    }
    return Ok((Pdu(length, id, status, sequence, body), s[HEADER_LEN + bodyLen..]));
  }
}
