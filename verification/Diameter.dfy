/** Diameter attribute-value pairs and messages (sections 3 and 4.1 of RFC 6733). */
module Diameter {
  import opened Wrappers
  import opened Bytes

  const LIMIT := 0x100_0000
  const HEADER_LEN := 20

  datatype Avp = Avp(code: u32, vendorId: u32, flags: byte, data: seq<byte>)

  datatype Fault =
    | Short | InvalidLength | ShortVendorHeader | ZeroVendor | ShortData | ShortPadding
    | EndOfStream | UnsupportedVersion | LengthTooShort

  // ----- attribute-value pairs -----

  function Zeros(n: nat): seq<byte> { seq(n, _ => 0) }

  /** A length rounded up to a multiple of four. */
  function Padded(n: nat): nat { (n + 3) / 4 * 4 }

  function AvpHeaderSize(vendorId: u32): nat { if vendorId != 0 then 12 else 8 }

  function TotalLength(a: Avp): nat { AvpHeaderSize(a.vendorId) + |a.data| }

  predicate VendorBit(flags: byte) { flags >= 128 }

  /** The flags with the vendor bit set or cleared. */
  function WithVendorBit(flags: byte, on: bool): byte { flags % 128 + if on then 128 else 0 }

  /** The form in which an AVP goes on the wire: its vendor bit says whether a vendor is named. */
  function Normal(a: Avp): Avp { a.(flags := WithVendorBit(a.flags, a.vendorId != 0)) }

  function AvpHeader(a: Avp): seq<byte> {
    U32Octets(a.code) + ([WithVendorBit(a.flags, a.vendorId != 0)] + U24Octets(TotalLength(a) % LIMIT))
    + (if a.vendorId != 0 then U32Octets(a.vendorId) else [])
  }

  /** Encode: only 24 bits of the length are written. */
  function Encode(a: Avp): seq<byte> {
    AvpHeader(a) + (a.data + Zeros(Padded(TotalLength(a)) - TotalLength(a)))
  }

  /** Decode: the AVP at the front, and the octets that it takes with its padding. */
  function Decode(b: seq<byte>): Result<(Avp, nat), Fault> {
    if |b| < 8 then Err(Short)
    else
      var code, flags, length := U32Of(b[0], b[1], b[2], b[3]), b[4], U24Of(b[5], b[6], b[7]);
      if length < 8 then Err(InvalidLength)
      else if VendorBit(flags) && |b| < 12 then Err(ShortVendorHeader)
      else if VendorBit(flags) && U32Of(b[8], b[9], b[10], b[11]) == 0 then Err(ZeroVendor)
      else
        var vendorId := if VendorBit(flags) then U32Of(b[8], b[9], b[10], b[11]) else 0;
        var hdr := AvpHeaderSize(vendorId);
        if length < hdr || |b| < length then Err(ShortData)
        else if Padded(length) > |b| then Err(ShortPadding)
        else Ok((Avp(code, vendorId, flags, b[hdr..length]), Padded(length)))
  }

  /** Every step consumes a positive multiple of four octets that are there. */
  lemma DecodeAdvances(b: seq<byte>)
    requires Decode(b).Ok?
    ensures var n := Decode(b).value.1; 0 < n <= |b| && n % 4 == 0
  {
    hide U32Of, U24Of;
  }

  function EncodeAll(avps: seq<Avp>): seq<byte> {
    if avps == [] then [] else Encode(avps[0]) + EncodeAll(avps[1..])
  }

  function DecodeAll(b: seq<byte>): Result<seq<Avp>, Fault>
    decreases |b|
  {
    if b == [] then Ok([])
    else
      var (a, n) :- Decode(b);
      DecodeAdvances(b);
      var others :- DecodeAll(b[n..]);
      Ok([a] + others)
  }

  function NormalAll(avps: seq<Avp>): seq<Avp> {
    seq(|avps|, i requires 0 <= i < |avps| => Normal(avps[i]))
  }

  predicate Fits(a: Avp) { TotalLength(a) < LIMIT }

  // ----- the codec as it runs -----

  /** PutUint32 and copy: overwrites a stretch of a buffer. */
  method Put(buf: array<byte>, at: nat, s: seq<byte>)
    requires at + |s| <= buf.Length
    modifies buf
    ensures buf[..] == old(buf[..at]) + s + old(buf[at + |s|..])
  {
    for i := 0 to |s|
      invariant forall k :: 0 <= k < buf.Length ==> buf[k] == if at <= k < at + i then s[k - at] else old(buf[k])
    {
      buf[at + i] := s[i];
    }
  }

  /** A stretch written behind what a zeroed buffer holds already. */
  method PutNext(buf: array<byte>, ghost done: seq<byte>, at: nat, s: seq<byte>)
    requires |done| == at && at + |s| <= buf.Length
    requires buf[..] == done + Zeros(buf.Length - at)
    modifies buf
    ensures buf[..] == done + s + Zeros(buf.Length - at - |s|)
  {
    Put(buf, at, s);
  }

  method EncodeAvp(a: Avp) returns (out: seq<byte>)
    ensures out == Encode(a)
  {
    hide U32Octets, U24Octets;
    FieldLengths();
    var total := TotalLength(a);
    var buf := new byte[Padded(total)](_ => 0);
    PutNext(buf, [], 0, U32Octets(a.code));
    ghost var done := U32Octets(a.code) + ([WithVendorBit(a.flags, a.vendorId != 0)] + U24Octets(total % LIMIT));
    assert [] + U32Octets(a.code) == U32Octets(a.code);
    PutNext(buf, U32Octets(a.code), 4, [WithVendorBit(a.flags, a.vendorId != 0)] + U24Octets(total % LIMIT));
    var hdr := 8;
    if a.vendorId != 0 {
      hdr := 12;
      PutNext(buf, done, 8, U32Octets(a.vendorId));
    } else {
      assert done + [] == done;
    }
    PutNext(buf, AvpHeader(a), hdr, a.data);
    out := buf[..];
  }

  lemma FieldLengths()
    ensures (forall n: u32 :: |U32Octets(n)| == 4) && (forall n: u24 :: |U24Octets(n)| == 3)
  {
  }

  method EncodeAvps(avps: seq<Avp>) returns (out: seq<byte>)
    ensures out == EncodeAll(avps)
  {
    hide Encode;
    out := [];
    assert avps[0..] == avps;
    for i := 0 to |avps|
      invariant out + EncodeAll(avps[i..]) == EncodeAll(avps)
    {
      var enc := EncodeAvp(avps[i]);
      assert avps[i..][1..] == avps[i + 1..];
      assert out + (enc + EncodeAll(avps[i + 1..])) == out + enc + EncodeAll(avps[i + 1..]);
      out := out + enc;
    }
  }

  /** DecodeAll: shrinks the input by one AVP at a time. */
  method DecodeAvps(data: seq<byte>) returns (r: Result<seq<Avp>, Fault>)
    ensures r == DecodeAll(data)
  {
    hide Decode;
    var avps: seq<Avp>, b := [], data;
    assert DecodeAll(data).Ok? ==> avps + DecodeAll(data).value == DecodeAll(data).value;
    while |b| > 0
      invariant DecodeAll(data) == match DecodeAll(b) case Err(e) => Err(e) case Ok(rest) => Ok(avps + rest)
      decreases |b|
    {
      DecodeShort(b);
      if |b| < 8 {
        return Err(Short);
      }
      var step :- Decode(b);
      var (a, n) := step;
      DecodeAdvances(b);
      ghost var rest := DecodeAll(b[n..]);
      if rest.Ok? {
        assert avps + ([a] + rest.value) == avps + [a] + rest.value;
      }
      avps := avps + [a];
      b := b[n..];
    }
    assert avps + [] == avps;
    return Ok(avps);
  }

  lemma DecodeShort(b: seq<byte>)
    ensures |b| < 8 ==> Decode(b) == Err(Short)
  {
  }

  // ----- round trips -----

  lemma EncodedFields(a: Avp, rest: seq<byte>)
    ensures var b := Encode(a) + rest;
            && |Encode(a)| == Padded(TotalLength(a)) && |b| == |Encode(a)| + |rest|
            && U32Of(b[0], b[1], b[2], b[3]) == a.code
            && b[4] == WithVendorBit(a.flags, a.vendorId != 0)
            && U24Of(b[5], b[6], b[7]) == TotalLength(a) % LIMIT
            && (a.vendorId != 0 ==> U32Of(b[8], b[9], b[10], b[11]) == a.vendorId)
            && b[AvpHeaderSize(a.vendorId)..TotalLength(a)] == a.data
  {
    hide U32Octets, U24Octets, U32Of, U24Of;
    FieldLengths();
    U32RoundTrip(a.code);
    U24RoundTrip(TotalLength(a) % LIMIT);
    U32RoundTrip(a.vendorId);
    var b, hdr := Encode(a) + rest, AvpHeader(a);
    assert |hdr| == AvpHeaderSize(a.vendorId);
    assert b == hdr + (a.data + (Zeros(Padded(TotalLength(a)) - TotalLength(a)) + rest));
    assert hdr[..4] == U32Octets(a.code);
    assert hdr[5..8] == U24Octets(TotalLength(a) % LIMIT);
    assert a.vendorId != 0 ==> hdr[8..12] == U32Octets(a.vendorId);
  }

  /** An AVP is read back, with its vendor bit normalised, exactly when its length fits 24 bits. */
  lemma {:induction false} AvpRoundTrip(a: Avp, rest: seq<byte>)
    ensures Decode(Encode(a) + rest) == Ok((Normal(a), |Encode(a)|)) <==> Fits(a)
    ensures Decode(Encode(a) + rest).Ok? && Decode(Encode(a) + rest).value.0 == Normal(a) ==> Fits(a)
  {
    hide U32Octets, U24Octets, U32Of, U24Of, Encode;
    EncodedFields(a, rest);
  }

  lemma {:induction false} DecodeAllFirst(b: seq<byte>)
    ensures b != [] && DecodeAll(b).Ok? ==>
              Decode(b).Ok? && DecodeAll(b).value != [] && DecodeAll(b).value[0] == Decode(b).value.0
  {
    hide Decode;
  }

  lemma NothingPadded()
    ensures PaddingZeroed([]) == [] && EncodeAll([]) == []
  {
  }

  /** A concatenation of encodings decodes to the normalised list exactly when every length fits. */
  lemma {:induction false} ListRoundTrip(avps: seq<Avp>)
    ensures DecodeAll(EncodeAll(avps)) == Ok(NormalAll(avps)) <==> forall a :: a in avps ==> Fits(a)
  {
    hide Encode, Decode, Normal, Fits;
    if avps == [] {
      assert NormalAll(avps) == [];
    } else {
      var head, tail := avps[0], avps[1..];
      var b := EncodeAll(avps);
      AvpRoundTrip(head, EncodeAll(tail));
      EncodedFields(head, []);
      ListRoundTrip(tail);
      assert NormalAll(avps) == [Normal(head)] + NormalAll(tail);
      assert avps == [head] + tail;
      DecodeAllFirst(b);
      assert NormalAll(avps)[0] == Normal(head);
      if Fits(head) {
        assert b[|Encode(head)|..] == EncodeAll(tail);
        var others := DecodeAll(EncodeAll(tail));
        assert others.Ok? ==> ([Normal(head)] + others.value)[1..] == others.value;
        assert NormalAll(avps)[1..] == NormalAll(tail);
      } else if DecodeAll(b) == Ok(NormalAll(avps)) {
        assert false;
      }
    }
  }

  /** The octets with everything zeroed that lies between the end of an AVP and the next multiple of four. */
  function PaddingZeroed(b: seq<byte>): seq<byte>
    decreases |b|
  {
    if |b| < 8 then b
    else
      var n := U24Of(b[5], b[6], b[7]);
      if n == 0 || Padded(n) > |b| then b
      else b[..n] + Zeros(Padded(n) - n) + PaddingZeroed(b[Padded(n)..])
  }

  lemma AcceptedHeader(b: seq<byte>)
    requires Decode(b).Ok?
    ensures var (a, n) := Decode(b).value;
            && Fits(a) && Normal(a) == a
            && TotalLength(a) <= |b| && TotalLength(a) == U24Of(b[5], b[6], b[7]) && n == Padded(TotalLength(a))
            && AvpHeader(a) == b[..AvpHeaderSize(a.vendorId)]
            && a.data == b[AvpHeaderSize(a.vendorId)..TotalLength(a)]
  {
    hide U32Octets, U24Octets, U32Of, U24Of;
    FieldLengths();
    var a := Decode(b).value.0;
    U32Inverse(b[0], b[1], b[2], b[3]);
    U24Inverse(b[5], b[6], b[7]);
    assert b[0..4] == U32Octets(a.code);
    if VendorBit(b[4]) {
      U32Inverse(b[8], b[9], b[10], b[11]);
      assert b[8..12] == U32Octets(a.vendorId);
    }
  }

  lemma AcceptedAvp(b: seq<byte>)
    requires Decode(b).Ok?
    ensures var (a, n) := Decode(b).value;
            Encode(a) == b[..TotalLength(a)] + Zeros(n - TotalLength(a))
  {
    hide AvpHeader, U32Of, U24Of, Decode;
    AcceptedHeader(b);
    var a := Decode(b).value.0;
    assert b[..TotalLength(a)] == AvpHeader(a) + a.data;
  }

  /** Whatever was accepted is encoded to the same octets with zero padding. */
  lemma {:induction false} AcceptedList(b: seq<byte>)
    requires DecodeAll(b).Ok?
    ensures EncodeAll(DecodeAll(b).value) == PaddingZeroed(b) && |PaddingZeroed(b)| == |b| && |b| % 4 == 0
    decreases |b|
  {
    hide Encode, Decode, Normal, Fits, PaddingZeroed, TotalLength;
    if b == [] {
      NothingPadded();
    } else {
      var (a, n) := Decode(b).value;
      AcceptedStep(b);
      AcceptedList(b[n..]);
      var others := DecodeAll(b[n..]).value;
      assert ([a] + others)[1..] == others;
      assert EncodeAll([a] + others) == Encode(a) + EncodeAll(others);
    }
  }

  /** Whatever was accepted is already normal. */
  lemma {:induction false} AcceptedIsNormal(b: seq<byte>)
    requires DecodeAll(b).Ok?
    ensures NormalAll(DecodeAll(b).value) == DecodeAll(b).value
    ensures forall a :: a in DecodeAll(b).value ==> Fits(a)
    decreases |b|
  {
    hide Encode, Decode, Normal, Fits, PaddingZeroed;
    if b == [] {
    } else {
      var (a, n) := Decode(b).value;
      AcceptedStep(b);
      AcceptedIsNormal(b[n..]);
      var others := DecodeAll(b[n..]).value;
      assert NormalAll([a] + others) == [Normal(a)] + NormalAll(others);
    }
  }

  lemma AcceptedStep(b: seq<byte>)
    requires Decode(b).Ok?
    ensures var (a, n) := Decode(b).value;
            && Fits(a) && Normal(a) == a && 8 <= n <= |b| && n % 4 == 0
            && PaddingZeroed(b) == Encode(a) + PaddingZeroed(b[n..]) && |Encode(a)| == n
  {
    hide Encode, Decode, Normal, Fits, U24Of;
    DecodeAdvances(b);
    AcceptedHeader(b);
    AcceptedAvp(b);
    DecodeShort(b);
  }

  /** Zeroing the padding changes nothing that is read. */
  lemma {:induction false} PaddingIsIgnored(b: seq<byte>)
    requires DecodeAll(b).Ok?
    ensures DecodeAll(PaddingZeroed(b)) == DecodeAll(b)
  {
    AcceptedList(b);
    AcceptedIsNormal(b);
    ListRoundTrip(DecodeAll(b).value);
  }

  // ----- grouped AVPs -----

  /** An AVP whose children are filled in when it is built or taken apart. */
  class GroupedAvp {
    const avp: Avp
    var children: seq<Avp>

    /** An AVP that was just read: nothing is known of its children. */
    constructor (avp: Avp)
      ensures this.avp == avp && children == []
    {
      this.avp, children := avp, [];
    }

    /** DecodeGrouped. */
    method DecodeChildren() returns (r: Result<seq<Avp>, Fault>)
      modifies this
      ensures r == DecodeAll(avp.data)
      ensures children == if r.Ok? then r.value else old(children)
    {
      r := DecodeAvps(avp.data);
      if r.Ok? {
        children := r.value;
      }
    }
  }

  function Grouped(code: u32, vendorId: u32, flags: byte, children: seq<Avp>): Avp {
    Avp(code, vendorId, if vendorId != 0 then WithVendorBit(flags, true) else flags, EncodeAll(children))
  }

  method NewGrouped(code: u32, vendorId: u32, flags: byte, kids: seq<Avp>) returns (g: GroupedAvp)
    ensures fresh(g) && g.avp == Grouped(code, vendorId, flags, kids) && g.children == kids
  {
    hide EncodeAll;
    var data := EncodeAvps(kids);
    g := new GroupedAvp(Avp(code, vendorId, if vendorId != 0 then WithVendorBit(flags, true) else flags, data));
    g.children := kids;
  }

  lemma {:induction false} ChildrenFit(children: seq<Avp>, i: nat)
    requires i < |children|
    ensures TotalLength(children[i]) <= |EncodeAll(children)|
  {
    hide Encode;
    EncodedFields(children[0], []);
    assert Encode(children[0]) + [] == Encode(children[0]);
    if i == 0 {
    } else {
      ChildrenFit(children[1..], i - 1);
    }
  }

  /** A group that was built, sent and taken apart yields its children exactly when the whole group fits. */
  lemma GroupRoundTrip(code: u32, vendorId: u32, flags: byte, children: seq<Avp>, rest: seq<byte>)
    ensures var group := Grouped(code, vendorId, flags, children);
            var r := Decode(Encode(group) + rest);
            (r == Ok((Normal(group), |Encode(group)|)) && DecodeAll(r.value.0.data) == Ok(NormalAll(children)))
            <==> Fits(group)
  {
    hide Encode, Decode, EncodeAll, DecodeAll;
    var group := Grouped(code, vendorId, flags, children);
    AvpRoundTrip(group, rest);
    if Fits(group) {
      forall i: nat | i < |children| ensures Fits(children[i]) {
        ChildrenFit(children, i);
      }
      ListRoundTrip(children);
    }
  }

  // ----- messages -----

  datatype Header = Header(
    version: byte, length: u24, flags: byte, commandCode: u32, appId: u32, hopByHop: u32, endToEnd: u32)

  datatype Message = Message(header: Header, avps: seq<Avp>)

  function MessageLength(m: Message): nat { HEADER_LEN + |EncodeAll(m.avps)| }

  function HeaderOctets(h: Header, length: nat): seq<byte> {
    [1] + U24Octets(length % LIMIT) + ([h.flags] + U24Octets(h.commandCode % LIMIT))
    + (U32Octets(h.appId) + U32Octets(h.hopByHop) + U32Octets(h.endToEnd))
  }

  /** Message.Encode: version one, and 24 bits of length and of command code. */
  function EncodeMessage(m: Message): seq<byte> {
    HeaderOctets(m.header, MessageLength(m)) + EncodeAll(m.avps)
  }

  function HeaderOf(b: seq<byte>): Header
    requires |b| >= HEADER_LEN
  {
    Header(b[0], U24Of(b[1], b[2], b[3]), b[4], U24Of(b[5], b[6], b[7]),
           U32Of(b[8], b[9], b[10], b[11]), U32Of(b[12], b[13], b[14], b[15]), U32Of(b[16], b[17], b[18], b[19]))
  }

  /** DecodeMessage: the message at the front of a stream, and the stream behind it. */
  function DecodeMessage(s: seq<byte>): Result<(Message, seq<byte>), Fault> {
    if |s| < 4 then Err(EndOfStream)
    else if s[0] != 1 then Err(UnsupportedVersion)
    else
      var length := U24Of(s[1], s[2], s[3]);
      if length < HEADER_LEN then Err(LengthTooShort)
      else if |s| < length then Err(EndOfStream)
      else
        var avps :- DecodeAll(s[HEADER_LEN..length]);
        Ok((Message(HeaderOf(s), avps), s[length..]))
  }

  /** What arrives of a message. */
  function Seen(m: Message): Message {
    Message(m.header.(version := 1, length := MessageLength(m) % LIMIT, commandCode := m.header.commandCode % LIMIT),
            NormalAll(m.avps))
  }

  lemma HeaderRoundTrip(h: Header, length: nat, rest: seq<byte>)
    ensures var b := HeaderOctets(h, length) + rest;
            && |b| == HEADER_LEN + |rest| && b[HEADER_LEN..] == rest
            && HeaderOf(b) == h.(version := 1, length := length % LIMIT, commandCode := h.commandCode % LIMIT)
  {
    hide U32Octets, U24Octets, U32Of, U24Of;
    FieldLengths();
    U24RoundTrip(length % LIMIT);
    U24RoundTrip(h.commandCode % LIMIT);
    U32RoundTrip(h.appId);
    U32RoundTrip(h.hopByHop);
    U32RoundTrip(h.endToEnd);
    var b := HeaderOctets(h, length) + rest;
    assert b[1..4] == U24Octets(length % LIMIT) && b[5..8] == U24Octets(h.commandCode % LIMIT);
    assert b[8..12] == U32Octets(h.appId) && b[12..16] == U32Octets(h.hopByHop);
    assert b[16..20] == U32Octets(h.endToEnd);
  }

  /** Whatever follows on the stream, a message is read back exactly when its length fits 24 bits. */
  lemma MessageRoundTrip(m: Message, rest: seq<byte>)
    ensures DecodeMessage(EncodeMessage(m) + rest) == Ok((Seen(m), rest)) <==> MessageLength(m) < LIMIT
  {
    hide HeaderOctets, HeaderOf, U24Of, EncodeAll, DecodeAll, NormalAll, Fits;
    var body, length := EncodeAll(m.avps), MessageLength(m);
    var s := EncodeMessage(m) + rest;
    assert s == HeaderOctets(m.header, length) + (body + rest);
    HeaderRoundTrip(m.header, length, body + rest);
    HeaderLengthField(s);
    if length < LIMIT {
      assert s[length..] == rest && s[HEADER_LEN..length] == body;
      forall i: nat | i < |m.avps| ensures Fits(m.avps[i]) {
        ChildrenFit(m.avps, i);
        FitsIfShorter(m.avps[i], |body|);
      }
      ListRoundTrip(m.avps);
    } else {
      var shorter := length % LIMIT;
      assert shorter <= |s| ==> |s[shorter..]| > |rest|;
    }
  }

  lemma HeaderLengthField(s: seq<byte>)
    requires |s| >= HEADER_LEN
    ensures HeaderOf(s).version == s[0] && HeaderOf(s).length == U24Of(s[1], s[2], s[3])
  {
    hide U24Of, U32Of;
  }

  lemma FitsIfShorter(a: Avp, n: nat)
    requires TotalLength(a) <= n < LIMIT
    ensures Fits(a)
  {
  }

  /** A message that was accepted is encoded to the octets it came from, with zero padding. */
  lemma AcceptedMessage(s: seq<byte>)
    requires DecodeMessage(s).Ok?
    ensures var (m, rest) := DecodeMessage(s).value;
            var n := m.header.length;
            && HEADER_LEN <= n <= |s| && rest == s[n..] && Seen(m) == m
            && EncodeMessage(m) == s[..HEADER_LEN] + PaddingZeroed(s[HEADER_LEN..n])
  {
    hide U32Octets, U24Octets, U32Of, U24Of, EncodeAll, DecodeAll, NormalAll, PaddingZeroed, Fits;
    var m := DecodeMessage(s).value.0;
    FieldLengths();
    AcceptedList(s[HEADER_LEN..m.header.length]);
    AcceptedIsNormal(s[HEADER_LEN..m.header.length]);
    U24Inverse(s[1], s[2], s[3]);
    U24Inverse(s[5], s[6], s[7]);
    U32Inverse(s[8], s[9], s[10], s[11]);
    U32Inverse(s[12], s[13], s[14], s[15]);
    U32Inverse(s[16], s[17], s[18], s[19]);
    assert HeaderOctets(m.header, m.header.length) == s[..HEADER_LEN];
  }

  // ----- streams of messages -----

  function Sent(ms: seq<Message>): seq<byte> {
    if ms == [] then [] else EncodeMessage(ms[0]) + Sent(ms[1..])
  }

  function SeenAll(ms: seq<Message>): seq<Message> { seq(|ms|, i requires 0 <= i < |ms| => Seen(ms[i])) }

  lemma DecodeMessageAdvances(s: seq<byte>)
    ensures DecodeMessage(s).Ok? ==> |DecodeMessage(s).value.1| < |s|
  {
    hide U24Of, HeaderOf, DecodeAll;
  }

  /** DecodeMessage applied until the stream is used up. */
  function Received(s: seq<byte>): Result<seq<Message>, Fault>
    decreases |s|
  {
    if s == [] then Ok([])
    else
      var (m, rest) :- DecodeMessage(s);
      DecodeMessageAdvances(s);
      var ms :- Received(rest);
      Ok([m] + ms)
  }

  lemma {:induction false} StreamRoundTrip(ms: seq<Message>)
    requires forall i :: 0 <= i < |ms| ==> MessageLength(ms[i]) < LIMIT
    ensures Received(Sent(ms)) == Ok(SeenAll(ms))
  {
    hide DecodeMessage, EncodeMessage, Seen, MessageLength, HeaderOctets;
    if ms == [] {
      assert SeenAll(ms) == [];
    } else {
      assert SeenAll(ms) == [Seen(ms[0])] + SeenAll(ms[1..]);
      MessageRoundTrip(ms[0], Sent(ms[1..]));
      MessageNotEmpty(ms[0]);
      StreamRoundTrip(ms[1..]);
    }
  }

  lemma MessageNotEmpty(m: Message)
    ensures EncodeMessage(m) != []
  {
  }

  method WriteMessage(m: Message) returns (out: seq<byte>)
    ensures out == EncodeMessage(m)
  {
    hide U32Octets, U24Octets, EncodeAll;
    FieldLengths();
    var body := EncodeAvps(m.avps);
    var total := HEADER_LEN + |body|;
    var buf := new byte[total](_ => 0);
    ghost var first := [1] + U24Octets(total % LIMIT);
    ghost var second := first + ([m.header.flags] + U24Octets(m.header.commandCode % LIMIT));
    PutNext(buf, [], 0, [1] + U24Octets(total % LIMIT));
    assert [] + first == first;
    PutNext(buf, first, 4, [m.header.flags] + U24Octets(m.header.commandCode % LIMIT));
    PutNext(buf, second, 8, U32Octets(m.header.appId) + U32Octets(m.header.hopByHop) + U32Octets(m.header.endToEnd));
    PutNext(buf, HeaderOctets(m.header, total), HEADER_LEN, body);
    assert HeaderOctets(m.header, total) + body + Zeros(0) == HeaderOctets(m.header, total) + body;
    out := buf[..];
  }

  /** A connection from which octets are taken in order. */
  class Stream {
    var unread: seq<byte>

    constructor (octets: seq<byte>)
      ensures unread == octets
    {
      unread := octets;
    }

    /** io.ReadFull; a stream that ends early has been read to its end. */
    method ReadFull(n: nat) returns (r: Result<seq<byte>, Fault>)
      modifies this
      ensures r == if n <= old(|unread|) then Ok(old(unread[..n])) else Err(EndOfStream)
      ensures unread == if n <= old(|unread|) then old(unread[n..]) else []
    {
      if n <= |unread| {
        r := Ok(unread[..n]);
        unread := unread[n..];
      } else {
        r := Err(EndOfStream);
        unread := [];
      }
    }

    /** DecodeMessage and decodeBytes. */
    method ReadMessage() returns (r: Result<Message, Fault>)
      modifies this
      ensures r == match DecodeMessage(old(unread)) case Err(e) => Err(e) case Ok((m, _)) => Ok(m)
      ensures r.Ok? ==> unread == DecodeMessage(old(unread)).value.1
    {
      hide U24Of, U32Of;
      ghost var s := unread;
      var hdr :- ReadFull(4);
      if hdr[0] != 1 {
        return Err(UnsupportedVersion);
      }
      var total := U24Of(hdr[1], hdr[2], hdr[3]);
      if total < HEADER_LEN {
        return Err(LengthTooShort);
      }
      var rest :- ReadFull(total - 4);
      var full := hdr + rest;
      assert full == s[..total];
      assert full[HEADER_LEN..total] == s[HEADER_LEN..total];
      assert HeaderOf(full) == HeaderOf(s);
      var avps :- DecodeAvps(full[HEADER_LEN..total]);
      return Ok(Message(HeaderOf(full), avps));
    }
  }
}
