/** The GSM 7-bit default alphabet and its extension table (TS 23.038 section 6.2.1). */
module Gsm7 {
  import opened Wrappers
  import opened Bytes
  import opened Septets

  /** A Unicode scalar value, which is what ranging over a string yields. */
  type rune = r: int | 0 <= r < 0xD800 || 0xE000 <= r < 0x110000

  const ESC: septet := 0x1B
  const QUESTION_MARK: septet := 0x3F

  /** The default alphabet, gsm7Basic. */
  function Basic(i: septet): rune {
    match i
    case 0x00 => 0x40   case 0x01 => 0xA3   case 0x02 => 0x24   case 0x03 => 0xA5
    case 0x04 => 0xE8   case 0x05 => 0xE9   case 0x06 => 0xF9   case 0x07 => 0xEC
    case 0x08 => 0xF2   case 0x09 => 0xC7   case 0x0B => 0xD8   case 0x0C => 0xF8
    case 0x0E => 0xC5   case 0x0F => 0xE5   case 0x10 => 0x394  case 0x11 => 0x5F
    case 0x12 => 0x3A6  case 0x13 => 0x393  case 0x14 => 0x39B  case 0x15 => 0x3A9
    case 0x16 => 0x3A0  case 0x17 => 0x3A8  case 0x18 => 0x3A3  case 0x19 => 0x398
    case 0x1A => 0x39E  case 0x1C => 0xC6   case 0x1D => 0xE6   case 0x1E => 0xDF
    case 0x1F => 0xC9   case 0x24 => 0xA4   case 0x40 => 0xA1   case 0x5B => 0xC4
    case 0x5C => 0xD6   case 0x5D => 0xD1   case 0x5E => 0xDC   case 0x5F => 0xA7
    case 0x60 => 0xBF   case 0x7B => 0xE4   case 0x7C => 0xF6   case 0x7D => 0xF1
    case 0x7E => 0xFC   case 0x7F => 0xE0
    case _ => i
  }

  /** The extension table, gsm7Ext; zero marks an undefined position. */
  function Extension(i: septet): rune {
    match i
    case 0x0A => 0x0C   case 0x14 => 0x5E   case 0x28 => 0x7B   case 0x29 => 0x7D
    case 0x2F => 0x5C   case 0x3C => 0x5B   case 0x3D => 0x7E   case 0x3E => 0x5D
    case 0x40 => 0x7C   case 0x65 => 0x20AC
    case _ => 0
  }

  /** The position of a rune in the default alphabet. */
  function BasicCode(r: rune): Option<septet> {
    match r
    case 0x40 => Some(0x00)   case 0xA3 => Some(0x01)   case 0x24 => Some(0x02)   case 0xA5 => Some(0x03)
    case 0xE8 => Some(0x04)   case 0xE9 => Some(0x05)   case 0xF9 => Some(0x06)   case 0xEC => Some(0x07)
    case 0xF2 => Some(0x08)   case 0xC7 => Some(0x09)   case 0x0A => Some(0x0A)   case 0xD8 => Some(0x0B)
    case 0xF8 => Some(0x0C)   case 0x0D => Some(0x0D)   case 0xC5 => Some(0x0E)   case 0xE5 => Some(0x0F)
    case 0x394 => Some(0x10)  case 0x5F => Some(0x11)   case 0x3A6 => Some(0x12)  case 0x393 => Some(0x13)
    case 0x39B => Some(0x14)  case 0x3A9 => Some(0x15)  case 0x3A0 => Some(0x16)  case 0x3A8 => Some(0x17)
    case 0x3A3 => Some(0x18)  case 0x398 => Some(0x19)  case 0x39E => Some(0x1A)  case 0xC6 => Some(0x1C)
    case 0xE6 => Some(0x1D)   case 0xDF => Some(0x1E)   case 0xC9 => Some(0x1F)   case 0xA4 => Some(0x24)
    case 0xA1 => Some(0x40)   case 0xC4 => Some(0x5B)   case 0xD6 => Some(0x5C)   case 0xD1 => Some(0x5D)
    case 0xDC => Some(0x5E)   case 0xA7 => Some(0x5F)   case 0xBF => Some(0x60)   case 0xE4 => Some(0x7B)
    case 0xF6 => Some(0x7C)   case 0xF1 => Some(0x7D)   case 0xFC => Some(0x7E)   case 0xE0 => Some(0x7F)
    case _ =>
      if 0x20 <= r <= 0x23 || 0x25 <= r <= 0x3F || 0x41 <= r <= 0x5A || 0x61 <= r <= 0x7A then Some(r) else None
  }

  /** The position of a rune in the extension table. */
  function ExtensionCode(r: rune): Option<septet> {
    match r
    case 0x0C => Some(0x0A)   case 0x5E => Some(0x14)   case 0x7B => Some(0x28)   case 0x7D => Some(0x29)
    case 0x5C => Some(0x2F)   case 0x5B => Some(0x3C)   case 0x7E => Some(0x3D)   case 0x5D => Some(0x3E)
    case 0x7C => Some(0x40)   case 0x20AC => Some(0x65)
    case _ => None
  }

  /** The default alphabet is injective, and the escape position is never a character's code. */
  lemma BasicInverts(r: rune, i: septet)
    ensures BasicCode(r) == Some(i) <==> i != ESC && Basic(i) == r
  {
  }

  /** The extension table is injective and shares no rune with the default alphabet. */
  lemma ExtensionInverts(r: rune, i: septet)
    ensures ExtensionCode(r) == Some(i) <==> Extension(i) != 0 && Extension(i) == r
    ensures BasicCode(r).Some? ==> ExtensionCode(r).None?
  {
  }

  /** The reverse tables as the package builds them at start-up, by walking the forward tables. */
  method BuildReverse() returns (basic: map<rune, septet>, ext: map<rune, septet>)
    ensures forall r: rune :: (r in basic <==> BasicCode(r).Some?) && (r in basic ==> BasicCode(r) == Some(basic[r]))
    ensures forall r: rune :: (r in ext <==> ExtensionCode(r).Some?) && (r in ext ==> ExtensionCode(r) == Some(ext[r]))
  {
    hide Basic, BasicCode, Extension, ExtensionCode;
    basic, ext := map[], map[];
    for i := 0 to 128
      invariant forall r: rune :: r in basic <==> BasicCode(r).Some? && BasicCode(r).value < i
      invariant forall r: rune :: r in basic ==> BasicCode(r) == Some(basic[r])
    {
      var r := Basic(i);
      BasicInverts(r, i);
      BasicNonZero(i);
      forall q: rune | BasicCode(q) == Some(i) ensures i != ESC && q == r {
        BasicInverts(q, i);
      }
      if r != 0 && r != 0x1B {
        basic := basic[r := i];
      }
    }
    for i := 0 to 128
      invariant forall r: rune :: r in ext <==> ExtensionCode(r).Some? && ExtensionCode(r).value < i
      invariant forall r: rune :: r in ext ==> ExtensionCode(r) == Some(ext[r])
    {
      var r := Extension(i);
      ExtensionInverts(r, i);
      forall q: rune | ExtensionCode(q) == Some(i) ensures r != 0 && q == r {
        ExtensionInverts(q, i);
      }
      if r != 0 {
        ext := ext[r := i];
      }
    }
  }

  lemma BasicNonZero(i: septet)
    ensures Basic(i) != 0 && (Basic(i) == 0x1B <==> i == ESC)
  {
  }

  // ----- text -----

  predicate Representable(r: rune) { BasicCode(r).Some? || ExtensionCode(r).Some? }

  /** The text a receiver sees when everything else is replaced by a question mark. */
  function Substituted(text: seq<rune>): (out: seq<rune>) {
    seq(|text|, i requires 0 <= i < |text| => if Representable(text[i]) then text[i] else 0x3F)
  }

  /** The septets one rune is sent as. */
  function Code(r: rune): seq<septet> {
    if BasicCode(r).Some? then [BasicCode(r).value]
    else if ExtensionCode(r).Some? then [ESC, ExtensionCode(r).value]
    else [QUESTION_MARK]
  }

  function EncodeText(text: seq<rune>): seq<septet> {
    if text == [] then [] else Code(text[0]) + EncodeText(text[1..])
  }

  /** The rune an escaped septet stands for; undefined positions read as a space. */
  function Escaped(s: septet): rune { if Extension(s) != 0 then Extension(s) else 0x20 }

  function DecodeText(s: seq<septet>): seq<rune> {
    if s == [] then []
    else if s[0] != ESC then [Basic(s[0])] + DecodeText(s[1..])
    else if |s| == 1 then []
    else [Escaped(s[1])] + DecodeText(s[2..])
  }

  lemma CodeDecodes(r: rune, rest: seq<septet>)
    ensures DecodeText(Code(r) + rest) == [if Representable(r) then r else 0x3F] + DecodeText(rest)
  {
    hide Basic, BasicCode, Extension, ExtensionCode;
    var s := Code(r) + rest;
    if BasicCode(r).Some? {
      BasicInverts(r, BasicCode(r).value);
      assert s[1..] == rest;
    } else if ExtensionCode(r).Some? {
      ExtensionInverts(r, ExtensionCode(r).value);
      assert s[2..] == rest;
    } else {
      assert Basic(QUESTION_MARK) == 0x3F by { QuestionMark(); }
      assert s[1..] == rest;
    }
  }

  lemma QuestionMark()
    ensures BasicCode(0x3F) == Some(QUESTION_MARK) && Basic(QUESTION_MARK) == 0x3F
  {
  }

  /** Decoding what was encoded, followed by anything, gives the substituted text and then the rest. */
  lemma {:induction false} DecodeEncode(text: seq<rune>, rest: seq<septet>)
    ensures DecodeText(EncodeText(text) + rest) == Substituted(text) + DecodeText(rest)
  {
    hide Code, Representable, DecodeText;
    if text == [] {
      assert EncodeText(text) + rest == rest;
      assert Substituted(text) == [];
    } else {
      DecodeEncode(text[1..], rest);
      CodeDecodes(text[0], EncodeText(text[1..]) + rest);
      assert EncodeText(text) + rest == Code(text[0]) + (EncodeText(text[1..]) + rest);
      assert Substituted(text) == [if Representable(text[0]) then text[0] else 0x3F] + Substituted(text[1..]);
    }
  }

  /** Substitution changes nothing exactly when every rune is in one of the two tables. */
  lemma SubstitutedIdentity(text: seq<rune>)
    ensures Substituted(text) == text <==> forall i :: 0 <= i < |text| ==> Representable(text[i])
    ensures Substituted(Substituted(text)) == Substituted(text)
  {
    hide BasicCode, ExtensionCode;
    QuestionMark();
    if Substituted(text) == text {
      forall i | 0 <= i < |text| ensures Representable(text[i]) {
        assert Substituted(text)[i] == text[i];
      }
    }
  }

  /** Every escape sequence is sent whole, so substituting before encoding changes nothing. */
  lemma {:induction false} EncodeSubstituted(text: seq<rune>)
    ensures EncodeText(Substituted(text)) == EncodeText(text)
  {
    hide BasicCode, ExtensionCode;
    if text == [] {
    } else {
      QuestionMark();
      assert Substituted(text)[1..] == Substituted(text[1..]);
      EncodeSubstituted(text[1..]);
    }
  }

  /** Encoding what was decoded never needs more septets than were read. */
  lemma {:induction false} EncodeDecodeShorter(s: seq<septet>)
    ensures |EncodeText(DecodeText(s))| <= |s|
  {
    hide Basic, BasicCode, Extension, ExtensionCode;
    if s == [] {
    } else if s[0] != ESC {
      EncodeDecodeShorter(s[1..]);
      BasicInverts(Basic(s[0]), s[0]);
      var d := DecodeText(s);
      assert d[1..] == DecodeText(s[1..]);
      assert |Code(d[0])| == 1;
    } else if |s| > 1 {
      EncodeDecodeShorter(s[2..]);
      var d := DecodeText(s);
      assert d[1..] == DecodeText(s[2..]);
      assert |Code(d[0])| <= 2;
    }
  }

  // ----- the packed forms -----

  /** EncodeGSM7: packed octets and the septet count that goes into TP-UDL. */
  method EncodeGsm7(text: seq<rune>) returns (packed: seq<byte>, septets: nat)
    ensures packed == Packed([], EncodeText(text), 0)
    ensures septets == |EncodeText(text)|
  {
    var raw := TextSeptets(text);
    packed := PackGsm7(raw);
    septets := |raw|;
  }

  /** The loop that both EncodeGSM7 and packGSM7WithUDH run over the text. */
  method TextSeptets(text: seq<rune>) returns (raw: seq<septet>)
    ensures raw == EncodeText(text)
  {
    hide Basic, BasicCode, Extension, ExtensionCode, EncodeText;
    var basic, ext := BuildReverse();
    raw := [];
    assert text[0..] == text;
    for i := 0 to |text|
      invariant raw + EncodeText(text[i..]) == EncodeText(text)
    {
      var r := text[i];
      ghost var before := raw;
      if r in basic {
        raw := raw + [basic[r]];
      } else if r in ext {
        raw := raw + [ESC, ext[r]];
      } else {
        QuestionMark();
        raw := raw + [basic[0x3F]];
      }
      assert raw == before + Code(r);
      EncodeStep(text, i);
      assert raw + EncodeText(text[i + 1..]) == before + (Code(r) + EncodeText(text[i + 1..]));
    }
    EncodeEnd(text);
  }

  lemma EncodeStep(text: seq<rune>, i: nat)
    requires i < |text|
    ensures EncodeText(text[i..]) == Code(text[i]) + EncodeText(text[i + 1..])
  {
    hide Code;
    assert text[i..][1..] == text[i + 1..];
  }

  lemma EncodeEnd(text: seq<rune>)
    ensures EncodeText(text[|text|..]) == []
  {
  }

  lemma Regroup(a: seq<rune>, r: rune, rest: seq<rune>)
    ensures a + [r] + rest == a + ([r] + rest)
  {
  }

  lemma DecodeFrom(s: seq<septet>, i: nat)
    requires i < |s|
    ensures DecodeText(s[i..]) ==
            if s[i] != ESC then [Basic(s[i])] + DecodeText(s[i + 1..])
            else if i + 1 == |s| then []
            else [Escaped(s[i + 1])] + DecodeText(s[i + 2..])
    ensures DecodeText(s[|s|..]) == []
  {
    hide Basic, Escaped;
    assert s[i..][1..] == s[i + 1..];
    if i + 1 < |s| {
      assert s[i..][2..] == s[i + 2..];
    }
  }

  /** DecodeGSM7: `septets` characters from behind a header of `udhOctets` octets. */
  method DecodeGsm7(packed: seq<byte>, septets: nat, udhOctets: nat) returns (text: seq<rune>)
    ensures text == DecodeText(Unpacked(packed, septets, Start(udhOctets)))
  {
    hide Basic, Extension, Unpacked, Start, DecodeText;
    var raw := UnpackGsm7(packed, septets, udhOctets);
    text := [];
    assert raw[0..] == raw;
    assert raw == [] ==> DecodeText(raw) == [] by { DecodeNothing(); }
    var i: nat := 0;
    while i < |raw|
      invariant i <= |raw|
      invariant text + DecodeText(raw[i..]) == DecodeText(raw)
    {
      var b := raw[i];
      ghost var before, at := text, i;
      DecodeFrom(raw, i);
      if b == ESC {
        i := i + 1;
        if i < |raw| {
          var e := raw[i];
          if Extension(e) != 0 {
            text := text + [Extension(e)];
          } else {
            text := text + [0x20];
          }
          assert text == before + [Escaped(e)];
          Regroup(before, Escaped(e), DecodeText(raw[at + 2..]));
        } else {
          return;
        }
      } else {
        text := text + [Basic(b)];
        Regroup(before, Basic(b), DecodeText(raw[at + 1..]));
      }
      i := i + 1;
    }
    assert raw[i..] == [];
    DecodeNothing();
  }

  /** Text behind any header survives packing and unpacking with the encoder's own septet count. */
  lemma PackedTextRoundTrip(head: seq<byte>, text: seq<rune>, start: nat)
    requires 8 * |head| <= start
    ensures var septets := EncodeText(text);
            DecodeText(Unpacked(Packed(head, septets, start), |septets|, start)) == Substituted(text)
  {
    hide DecodeText, EncodeText, Substituted, Packed, Unpacked;
    var septets := EncodeText(text);
    UnpackPack(head, septets, start);
    DecodeEncode(text, []);
    assert septets + [] == septets;
    assert DecodeText([]) == [] by { DecodeNothing(); }
  }

  lemma DecodeNothing()
    ensures DecodeText([]) == []
  {
  }
}
