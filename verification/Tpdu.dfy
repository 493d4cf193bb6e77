/** SMS-SUBMIT, SMS-DELIVER and SMS-STATUS-REPORT (TS 23.040 sections 9.2.2.1 to 9.2.2.3). */
module Tpdu {
  import opened Wrappers
  import opened Bytes
  import opened Messages
  import Gsm7
  import TpduAddress
  import UserData
  import ValidityPeriod

  type TpMessage = Message<Gsm7.rune>

  /** Minutes from now until an absolute time stamp; the clock and the calendar stay outside the model. */
  type Clock = seq<byte> -> int

  const DELIVER := 0x00
  const SUBMIT := 0x01
  const STATUS_REPORT := 0x02

  // ----- encoding -----

  function SubmitFlags(msg: TpMessage): byte {
    SUBMIT + (if msg.validity.Some? then 0x10 else 0) + (if msg.reportRequired then 0x20 else 0)
      + (if UserData.HeaderOf(msg) != [] then 0x40 else 0)
  }

  function ValidityField(msg: TpMessage): seq<byte> {
    if msg.validity.Some? then [ValidityPeriod.Encode(msg.validity.value)] else []
  }

  /** EncodeSubmit. */
  function Submit(msg: TpMessage): Result<seq<byte>, Fault> {
    var da :- TpduAddress.Encode(msg.destination);
    var (ud, udl) :- UserData.Encode(msg, UserData.HeaderOf(msg));
    Ok([SubmitFlags(msg), msg.tpmr]
       + (da + ([0x00, DcsForEgress(msg)] + (ValidityField(msg) + UserData.Field(ud, udl)))))
  }

  method EncodeSubmit(msg: TpMessage) returns (r: Result<seq<byte>, Fault>)
    ensures r == Submit(msg)
  {
    hide TpduAddress.Encode, UserData.Encode, ValidityPeriod.Encode;
    var da := TpduAddress.EncodeAddress(msg.destination);
    if da.Err? {
      return Err(da.error);
    }
    var udh := UserData.HeaderOf(msg);
    var ud := UserData.EncodeUserData(msg, udh);
    if ud.Err? {
      return Err(ud.error);
    }
    var b0: byte := SUBMIT;
    if msg.reportRequired {
      b0 := b0 + 0x20;
    }
    if |udh| > 0 {
      b0 := b0 + 0x40;
    }
    if msg.validity.Some? {
      b0 := b0 + 0x10;
    }
    var out := [b0];
    out := out + [msg.tpmr];
    out := out + da.value;
    out := out + [0x00];
    out := out + [DcsForEgress(msg)];
    if msg.validity.Some? {
      out := out + [ValidityPeriod.Encode(msg.validity.value)];
    }
    ghost var head := [0x00, DcsForEgress(msg)];
    assert out == [b0, msg.tpmr] + (da.value + (head + ValidityField(msg)));
    out := out + [ud.value.1 % 256];
    out := out + ud.value.0;
    assert out == [b0, msg.tpmr] + (da.value + (head + (ValidityField(msg) + UserData.Field(ud.value.0, ud.value.1))));
    return Ok(out);
  }

  function DeliverFlags(msg: TpMessage): byte {
    DELIVER + 0x04 + (if msg.reportRequired then 0x20 else 0)
      + (if UserData.HeaderOf(msg) != [] then 0x40 else 0)
  }

  /** EncodeDeliver, given the octets of the service centre time stamp. */
  function Deliver(msg: TpMessage, scts: seq<byte>): Result<seq<byte>, Fault>
    requires |scts| == 7
  {
    var oa :- TpduAddress.Encode(msg.source);
    var (ud, udl) :- UserData.Encode(msg, UserData.HeaderOf(msg));
    Ok([DeliverFlags(msg)] + (oa + ([0x00, DcsForEgress(msg)] + (scts + UserData.Field(ud, udl)))))
  }

  method EncodeDeliver(msg: TpMessage, scts: seq<byte>) returns (r: Result<seq<byte>, Fault>)
    requires |scts| == 7
    ensures r == Deliver(msg, scts)
  {
    hide TpduAddress.Encode, UserData.Encode;
    var oa := TpduAddress.EncodeAddress(msg.source);
    if oa.Err? {
      return Err(oa.error);
    }
    var udh := UserData.HeaderOf(msg);
    var ud := UserData.EncodeUserData(msg, udh);
    if ud.Err? {
      return Err(ud.error);
    }
    var b0: byte := DELIVER + 0x04;
    if msg.reportRequired {
      b0 := b0 + 0x20;
    }
    if |udh| > 0 {
      b0 := b0 + 0x40;
    }
    var out := [b0];
    out := out + oa.value;
    out := out + [0x00];
    out := out + [DcsForEgress(msg)];
    out := out + scts;
    out := out + [ud.value.1 % 256];
    out := out + ud.value.0;
    ghost var head := [0x00, DcsForEgress(msg)];
    assert out == [b0] + (oa.value + (head + (scts + UserData.Field(ud.value.0, ud.value.1))));
    return Ok(out);
  }

  // ----- decoding -----

  /** decodeVP at the start of `data`: the period in minutes and the octets it took. */
  function DecodeVp(data: seq<byte>, vpf: nat, until: Clock): (r: Result<(Option<int>, nat), Fault>)
    ensures r.Ok? ==> r.value.1 <= |data|
  {
    if vpf == 0 then Ok((None, 0))
    else if vpf == 2 then
      if data == [] then Err(Truncated) else Ok((Some(ValidityPeriod.Decode(data[0]) as int), 1))
    else if |data| < 7 then Err(Truncated)
    else if vpf == 3 then
      var mins := until(data[..7]);
      Ok((Some(if mins < 0 then 0 else mins), 7))
    else Ok((Some(ValidityPeriod.Decode(data[1]) as int), 7))
  }

  function Assemble(c: UserData.Content, source: TpduAddress.TpAddress, destination: TpduAddress.TpAddress,
                    dcs: byte, tpmr: byte, report: bool, validity: Option<int>, timestamp: seq<byte>): TpMessage
  {
    Message(source, destination, c.text, c.binary, c.encoding, dcs, c.udh, c.concat, tpmr, report, validity, timestamp)
  }

  /** decodeSubmit. */
  function SubmitFrom(data: seq<byte>, until: Clock): Result<TpMessage, Fault>
    requires |data| >= 2
  {
    var (da, n) :- TpduAddress.Decode(data[2..]);
    if |data| < 2 + n + 2 then Err(Truncated)
    else
      var dcs, rest := data[2 + n + 1], data[2 + n + 2..];
      var (vp, k) :- DecodeVp(rest, data[0] / 8 % 4, until);
      var c :- UserData.Decode(rest[k..], dcs, data[0] / 64 % 2 == 1);
      Ok(Assemble(c, TpduAddress.NO_ADDRESS, da, dcs, data[1], data[0] / 32 % 2 == 1, vp, []))
  }

  /** decodeDeliver. */
  function DeliverFrom(data: seq<byte>): Result<TpMessage, Fault>
    requires |data| >= 2
  {
    var (oa, n) :- TpduAddress.Decode(data[1..]);
    if |data| < 1 + n + 2 then Err(Truncated)
    else
      var dcs, rest := data[1 + n + 1], data[1 + n + 2..];
      if |rest| < 7 then Err(Truncated)
      else
        var c :- UserData.Decode(rest[7..], dcs, data[0] / 64 % 2 == 1);
        Ok(Assemble(c, oa, TpduAddress.NO_ADDRESS, dcs, 0, data[0] / 32 % 2 == 1, None, rest[..7]))
  }

  /** decodeStatusReport: two time stamps and the status octet must follow the recipient. */
  function StatusReportFrom(data: seq<byte>): Result<TpMessage, Fault>
    requires |data| >= 2
  {
    if |data| < 14 then Err(TooShort)
    else
      var (ra, n) :- TpduAddress.Decode(data[2..]);
      if 2 + n + 15 > |data| then Err(Truncated)
      else Ok(Message(ra, TpduAddress.NO_ADDRESS, [], [], EncodingGsm7, 0, None, None, data[1], false, None, []))
  }

  function Decode(data: seq<byte>, until: Clock): Result<TpMessage, Fault> {
    if |data| < 2 then Err(TooShort)
    else if data[0] % 4 == SUBMIT then SubmitFrom(data, until)
    else if data[0] % 4 == DELIVER then DeliverFrom(data)
    else if data[0] % 4 == STATUS_REPORT then StatusReportFrom(data)
    else Err(UnsupportedType)
  }

  /** Decode, with the cursor that moves through the octets. */
  method DecodeTpdu(data: seq<byte>, until: Clock) returns (r: Result<TpMessage, Fault>)
    ensures r == Decode(data, until)
  {
    hide TpduAddress.Decode, UserData.Decode, ValidityPeriod.Decode;
    if |data| < 2 {
      return Err(TooShort);
    }
    var mti := data[0] % 4;
    if mti == SUBMIT {
      r := DecodeSubmit(data, until);
    } else if mti == DELIVER {
      r := DecodeDeliver(data);
    } else if mti == STATUS_REPORT {
      if |data| < 14 {
        return Err(TooShort);
      }
      var ra := TpduAddress.DecodeAddress(data, 2);
      if ra.Err? {
        return Err(ra.error);
      }
      if 2 + ra.value.1 + 15 > |data| {
        return Err(Truncated);
      }
      r := Ok(Message(
        ra.value.0, TpduAddress.NO_ADDRESS, [], [], EncodingGsm7, 0, None, None, data[1], false, None, []));
    } else {
      r := Err(UnsupportedType);
    }
  }

  method DecodeSubmit(data: seq<byte>, until: Clock) returns (r: Result<TpMessage, Fault>)
    requires |data| >= 2
    ensures r == SubmitFrom(data, until)
  {
    hide TpduAddress.Decode, UserData.Decode, ValidityPeriod.Decode;
    var hasUdhi, srr, vpf := data[0] / 64 % 2 == 1, data[0] / 32 % 2 == 1, data[0] / 8 % 4;
    var tpmr := data[1];
    var pos: nat := 2;
    var da := TpduAddress.DecodeAddress(data, pos);
    if da.Err? {
      return Err(da.error);
    }
    pos := pos + da.value.1;
    if pos + 2 > |data| {
      return Err(Truncated);
    }
    pos := pos + 1;
    var dcs := data[pos];
    pos := pos + 1;
    ghost var rest := data[pos..];
    var vp := DecodeVp(data[pos..], vpf, until);
    if vp.Err? {
      return Err(vp.error);
    }
    assert rest[vp.value.1..] == data[pos + vp.value.1..];
    pos := pos + vp.value.1;
    var c := UserData.DecodeUserData(data, pos, dcs, hasUdhi);
    if c.Err? {
      return Err(c.error);
    }
    return Ok(Assemble(c.value, TpduAddress.NO_ADDRESS, da.value.0, dcs, tpmr, srr, vp.value.0, []));
  }

  method DecodeDeliver(data: seq<byte>) returns (r: Result<TpMessage, Fault>)
    requires |data| >= 2
    ensures r == DeliverFrom(data)
  {
    hide TpduAddress.Decode, UserData.Decode;
    var hasUdhi, srr := data[0] / 64 % 2 == 1, data[0] / 32 % 2 == 1;
    var pos: nat := 1;
    var oa := TpduAddress.DecodeAddress(data, pos);
    if oa.Err? {
      return Err(oa.error);
    }
    pos := pos + oa.value.1;
    if pos + 2 > |data| {
      return Err(Truncated);
    }
    pos := pos + 1;
    var dcs := data[pos];
    pos := pos + 1;
    ghost var rest := data[pos..];
    if pos + 7 > |data| {
      return Err(Truncated);
    }
    var ts := data[pos..pos + 7];
    assert ts == rest[..7] && data[pos + 7..] == rest[7..];
    pos := pos + 7;
    var c := UserData.DecodeUserData(data, pos, dcs, hasUdhi);
    if c.Err? {
      return Err(c.error);
    }
    return Ok(Assemble(c.value, oa.value.0, TpduAddress.NO_ADDRESS, dcs, 0, srr, None, ts));
  }

  // ----- round trips -----

  /** What the receiver of a SUBMIT should see of a message. */
  function SubmitExpected(msg: TpMessage): TpMessage {
    Assemble(
      UserData.Expected(msg, UserData.HeaderOf(msg)), TpduAddress.NO_ADDRESS, TpduAddress.Canonical(msg.destination),
      DcsForEgress(msg), msg.tpmr, msg.reportRequired,
      if msg.validity.None? then None
      else Some(ValidityPeriod.Decode(ValidityPeriod.Encode(msg.validity.value)) as int),
      [])
  }

  /** What the receiver of a DELIVER should see of a message. */
  function DeliverExpected(msg: TpMessage, scts: seq<byte>): TpMessage {
    Assemble(
      UserData.Expected(msg, UserData.HeaderOf(msg)), TpduAddress.Canonical(msg.source), TpduAddress.NO_ADDRESS,
      DcsForEgress(msg), 0, msg.reportRequired, None, scts)
  }

  predicate UserDataFits(msg: TpMessage) {
    UserData.Encode(msg, UserData.HeaderOf(msg)).Ok? &&
    UserData.Fits(msg, UserData.HeaderOf(msg), DcsForEgress(msg))
  }

  lemma SubmitReadsFlags(msg: TpMessage)
    ensures var b := SubmitFlags(msg);
            && b % 4 == SUBMIT
            && b / 8 % 4 == (if msg.validity.Some? then 2 else 0)
            && (b / 32 % 2 == 1 <==> msg.reportRequired)
            && (b / 64 % 2 == 1 <==> UserData.HeaderOf(msg) != [])
  {
  }

  lemma DeliverReadsFlags(msg: TpMessage)
    ensures var b := DeliverFlags(msg);
            && b % 4 == DELIVER
            && (b / 32 % 2 == 1 <==> msg.reportRequired)
            && (b / 64 % 2 == 1 <==> UserData.HeaderOf(msg) != [])
  {
  }

  /**
    * A SUBMIT decodes to the message it was made from exactly when the destination fits its
    * field and the user data fits: coding octet, header and length octet.
    */
  lemma SubmitRoundTrip(msg: TpMessage, until: Clock)
    requires Submit(msg).Ok?
    ensures Decode(Submit(msg).value, until) == Ok(SubmitExpected(msg))
            <==> TpduAddress.Fits(msg.destination) && UserDataFits(msg)
  {
    hide TpduAddress.Encode, TpduAddress.Decode, TpduAddress.Fits, TpduAddress.Canonical, UserData.Encode;
    hide UserData.Decode, UserData.Fits, UserData.Field, ValidityPeriod.Encode, ValidityPeriod.Decode, SubmitFlags;
    hide UserData.HeaderOf, UserData.Expected, DcsForEgress;
    var wire, udh := Submit(msg).value, UserData.HeaderOf(msg);
    var da := TpduAddress.Encode(msg.destination).value;
    var (ud, udl) := UserData.Encode(msg, udh).value;
    var field := UserData.Field(ud, udl);
    var tail := [0x00, DcsForEgress(msg)] + (ValidityField(msg) + field);
    assert wire[2..] == da + tail;
    assert wire[0] == SubmitFlags(msg) && wire[1] == msg.tpmr;
    SubmitReadsFlags(msg);
    TpduAddress.RoundTrip(msg.destination, tail);
    if TpduAddress.Fits(msg.destination) {
      var n := |da|;
      assert wire[2 + n..] == tail by { Suffix(wire, 2, da, tail); }
      assert wire[2 + n + 1] == tail[1] && wire[2 + n + 2..] == ValidityField(msg) + field;
      var k := |ValidityField(msg)|;
      assert (ValidityField(msg) + field)[k..] == field;
      UserData.RoundTrip(msg, udh, DcsForEgress(msg));
    } else if Decode(wire, until) == Ok(SubmitExpected(msg)) {
      TpduAddress.OnlyFittingSurvive(msg.destination, tail);
    }
  }

  lemma Suffix(wire: seq<byte>, at: nat, a: seq<byte>, tail: seq<byte>)
    requires at <= |wire| && wire[at..] == a + tail
    ensures at + |a| <= |wire| && wire[at + |a|..] == tail
  {
    assert wire[at..][|a|..] == tail;
  }

  /** The same for a DELIVER, over the source address and any time stamp. */
  lemma DeliverRoundTrip(msg: TpMessage, scts: seq<byte>, until: Clock)
    requires |scts| == 7 && Deliver(msg, scts).Ok?
    ensures Decode(Deliver(msg, scts).value, until) == Ok(DeliverExpected(msg, scts))
            <==> TpduAddress.Fits(msg.source) && UserDataFits(msg)
  {
    hide TpduAddress.Encode, TpduAddress.Decode, TpduAddress.Fits, TpduAddress.Canonical, UserData.Encode;
    hide UserData.Decode, UserData.Fits, UserData.Field, DeliverFlags;
    hide UserData.HeaderOf, UserData.Expected, DcsForEgress;
    var wire, udh := Deliver(msg, scts).value, UserData.HeaderOf(msg);
    var oa := TpduAddress.Encode(msg.source).value;
    var (ud, udl) := UserData.Encode(msg, udh).value;
    var field := UserData.Field(ud, udl);
    var tail := [0x00, DcsForEgress(msg)] + (scts + field);
    assert wire[1..] == oa + tail;
    assert wire[0] == DeliverFlags(msg);
    DeliverReadsFlags(msg);
    TpduAddress.RoundTrip(msg.source, tail);
    if TpduAddress.Fits(msg.source) {
      var n := |oa|;
      assert wire[1 + n..] == tail by { Suffix(wire, 1, oa, tail); }
      assert wire[1 + n + 1] == tail[1] && wire[1 + n + 2..] == scts + field;
      assert (scts + field)[7..] == field && (scts + field)[..7] == scts;
      UserData.RoundTrip(msg, udh, DcsForEgress(msg));
    } else if Decode(wire, until) == Ok(DeliverExpected(msg, scts)) {
      TpduAddress.OnlyFittingSurvive(msg.source, tail);
    }
  }
}
