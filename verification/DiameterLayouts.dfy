/** Where everything stands in Diameter messages, in plain octets and numbers (sections 3 and 4.1 of RFC 6733). */
module DiameterLayouts {
  import opened Wrappers
  import opened Bytes
  import opened Diameter

  /** An AVP: code, flags with the vendor bit, length, vendor if there is one, data, and zeros to a multiple of four. */
  lemma AvpLaidOut(a: Avp)
    requires 12 + |a.data| < 0x100_0000
    ensures var b, hdr := Diameter.Encode(a), if a.vendorId != 0 then 12 else 8;
            && |b| % 4 == 0 && hdr + |a.data| <= |b| < hdr + |a.data| + 4
            && Number(b[..4]) == a.code
            && b[4] == a.flags % 128 + (if a.vendorId != 0 then 128 else 0)
            && Number(b[5..8]) == hdr + |a.data|
            && (a.vendorId != 0 ==> Number(b[8..12]) == a.vendorId)
            && b[hdr..hdr + |a.data|] == a.data
            && forall i :: hdr + |a.data| <= i < |b| ==> b[i] == 0
  {
    hide U32Octets, U24Octets, Number;
    NumberOfFour([], a.code);
    NumberOfFour([], a.vendorId);
    NumberOfThree([], TotalLength(a) % LIMIT);
    FieldLengths();
    var b, hdr := Diameter.Encode(a), AvpHeader(a);
    assert |hdr| == AvpHeaderSize(a.vendorId);
    assert b[..4] == U32Octets(a.code) && b[5..8] == U24Octets(TotalLength(a) % LIMIT);
    assert a.vendorId != 0 ==> b[8..12] == U32Octets(a.vendorId);
  }

  /** When octets begin with an AVP, and what it takes of them. */
  lemma AvpsAccepted(b: seq<byte>)
    ensures Diameter.Decode(b).Ok? <==>
              && |b| >= 8
              && var length := Number(b[5..8]);
              && length >= 8 && (length + 3) / 4 * 4 <= |b|
              && (b[4] >= 128 ==> length >= 12 && |b| >= 12 && Number(b[8..12]) != 0)
    ensures Diameter.Decode(b).Err? ==>
              Diameter.Decode(b).error ==
              if |b| < 8 then Short
              else
                var length, vendor := Number(b[5..8]), b[4] >= 128;
                if length < 8 then InvalidLength
                else if vendor && |b| < 12 then ShortVendorHeader
                else if vendor && Number(b[8..12]) == 0 then ZeroVendor
                else if (vendor && length < 12) || |b| < length then ShortData
                else ShortPadding
    ensures Diameter.Decode(b).Ok? ==>
              var (a, n) := Diameter.Decode(b).value;
              var length := Number(b[5..8]);
              && n == (length + 3) / 4 * 4 && a.flags == b[4] && a.code == Number(b[..4])
              && a.vendorId == (if b[4] >= 128 then Number(b[8..12]) else 0)
              && a.data == b[if b[4] >= 128 then 12 else 8..length]
  {
    hide Number, U32Of, U24Of;
    if |b| >= 8 {
      NumberOfFour(b[..4], 0);
      NumberOfThree(b[5..8], 0);
      if |b| >= 12 {
        NumberOfFour(b[8..12], 0);
      }
    }
  }

  /** A group is built of its children's encodings, one behind the other. */
  lemma {:induction false} GroupLaidOut(code: u32, vendorId: u32, flags: byte, children: seq<Avp>, last: Avp)
    ensures var g := Grouped(code, vendorId, flags, children);
            && g.code == code && g.vendorId == vendorId && g.flags % 128 == flags % 128
            && (vendorId == 0 ==> g.flags == flags) && (vendorId != 0 ==> g.flags >= 128)
            && g.data == EncodeAll(children)
    ensures EncodeAll(children + [last]) == EncodeAll(children) + Diameter.Encode(last) && EncodeAll([]) == []
  {
    hide Diameter.Encode;
    if children == [] {
      assert [] + [last] == [last] && [last][1..] == [];
    } else {
      assert (children + [last])[1..] == children[1..] + [last];
      GroupLaidOut(code, vendorId, flags, children[1..], last);
    }
  }

  /** A message: version one, its length, flags, command, application and the two identifiers, and its AVPs. */
  lemma MessageLaidOut(m: Message)
    requires 20 + |EncodeAll(m.avps)| < 0x100_0000 && m.header.commandCode < 0x100_0000
    ensures var b := EncodeMessage(m);
            && |b| == 20 + |EncodeAll(m.avps)| && b[0] == 1 && Number(b[1..4]) == |b|
            && b[4] == m.header.flags && Number(b[5..8]) == m.header.commandCode
            && Number(b[8..12]) == m.header.appId
            && Number(b[12..16]) == m.header.hopByHop
            && Number(b[16..20]) == m.header.endToEnd
            && b[20..] == EncodeAll(m.avps)
  {
    hide U32Octets, U24Octets, Number, EncodeAll;
    var length := MessageLength(m);
    NumberOfThree([], length);
    NumberOfFour([], m.header.appId);
    NumberOfThree([], m.header.commandCode);
    NumberOfFour([], m.header.hopByHop);
    NumberOfFour([], m.header.endToEnd);
    FieldLengths();
    var b := EncodeMessage(m);
    assert b[1..4] == U24Octets(length) && b[5..8] == U24Octets(m.header.commandCode);
    assert b[8..12] == U32Octets(m.header.appId) && b[12..16] == U32Octets(m.header.hopByHop);
    assert b[16..20] == U32Octets(m.header.endToEnd);
  }

  /** When a stream begins with a message, and what is read of its header. */
  lemma MessagesAccepted(s: seq<byte>)
    ensures DecodeMessage(s).Ok? <==>
              && |s| >= 4 && s[0] == 1
              && var length := Number(s[1..4]);
              && 20 <= length <= |s| && DecodeAll(s[20..length]).Ok?
    ensures DecodeMessage(s).Err? ==>
              DecodeMessage(s) ==
              if |s| < 4 then Err(EndOfStream)
              else if s[0] != 1 then Err(UnsupportedVersion)
              else if Number(s[1..4]) < 20 then Err(LengthTooShort)
              else if |s| < Number(s[1..4]) then Err(EndOfStream)
              else Err(DecodeAll(s[20..Number(s[1..4])]).error)
    ensures DecodeMessage(s).Ok? ==>
              var (m, rest) := DecodeMessage(s).value;
              var length := Number(s[1..4]);
              && rest == s[length..] && DecodeAll(s[20..length]) == Ok(m.avps)
              && m.header == Header(s[0], length, s[4], Number(s[5..8]),
                                    Number(s[8..12]), Number(s[12..16]),
                                    Number(s[16..20]))
  {
    hide DecodeAll, Number, U32Of, U24Of;
    if |s| >= 4 {
      NumberOfThree(s[1..4], 0);
    }
    if |s| >= 20 {
      NumberOfThree(s[5..8], 0);
      NumberOfFour(s[8..12], 0);
      NumberOfFour(s[12..16], 0);
      NumberOfFour(s[16..20], 0);
    }
  }
}
