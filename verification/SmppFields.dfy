/**
  * The building blocks of an SMPP body (section 3.1 of SMPP v3.4): single octets,
  * C-octet strings and optional parameters.
  */
module SmppFields {
  import opened Wrappers
  import opened Bytes

  datatype Fault = EndOfData | Unterminated | TrailingOctets | BadLength | MessageTooLong | ParameterTooLong

  datatype Field = Octet(value: byte) | CString(text: seq<byte>)

  datatype Kind = AnOctet | AString

  function KindOf(f: Field): Kind { if f.Octet? then AnOctet else AString }

  function Kinds(fs: seq<Field>): seq<Kind> { seq(|fs|, i requires 0 <= i < |fs| => KindOf(fs[i])) }

  // ----- fields -----

  function EncodeField(f: Field): seq<byte> {
    match f case Octet(b) => [b] case CString(s) => s + [0]
  }

  function EncodeFields(fs: seq<Field>): seq<byte> {
    if fs == [] then [] else EncodeField(fs[0]) + EncodeFields(fs[1..])
  }

  /** The octets before the first NUL. */
  function UpToNul(data: seq<byte>): Option<nat> {
    if data == [] then None
    else if data[0] == 0 then Some(0)
    else match UpToNul(data[1..]) case None => None case Some(n) => Some(n + 1)
  }

  lemma {:induction false} UpToNulIsFirst(data: seq<byte>)
    ensures UpToNul(data).None? ==> 0 !in data
    ensures UpToNul(data).Some? ==>
              var n := UpToNul(data).value;
              n < |data| && data[n] == 0 && 0 !in data[..n]
  {
    if data == [] || data[0] == 0 {
    } else {
      UpToNulIsFirst(data[1..]);
      assert data == [data[0]] + data[1..];
      if UpToNul(data).Some? {
        var n := UpToNul(data).value;
        assert data[..n] == [data[0]] + data[1..][..n - 1];
      }
    }
  }

  lemma {:induction false} UpToNulUnique(data: seq<byte>, n: nat)
    requires n < |data| && data[n] == 0 && 0 !in data[..n]
    ensures UpToNul(data) == Some(n)
  {
    if n == 0 {
    } else {
      assert data[..n][0] == data[0];
      assert data[1..][..n - 1] == data[..n][1..];
      UpToNulUnique(data[1..], n - 1);
    }
  }

  function DecodeField(k: Kind, data: seq<byte>): (r: Result<(Field, seq<byte>), Fault>)
    ensures r.Ok? ==> KindOf(r.value.0) == k && |r.value.1| < |data|
  {
    match k
    case AnOctet => if data == [] then Err(EndOfData) else Ok((Octet(data[0]), data[1..]))
    case AString =>
      UpToNulIsFirst(data);
      match UpToNul(data)
      case None => Err(Unterminated)
      case Some(n) => Ok((CString(data[..n]), data[n + 1..]))
  }

  function DecodeFields(ks: seq<Kind>, data: seq<byte>): (r: Result<(seq<Field>, seq<byte>), Fault>)
    ensures r.Ok? ==> |r.value.0| == |ks| && |r.value.1| <= |data|
    decreases |ks|
  {
    if ks == [] then Ok(([], data))
    else
      var (f, rest) :- DecodeField(ks[0], data);
      var (fs, last) :- DecodeFields(ks[1..], rest);
      Ok(([f] + fs, last))
  }

  predicate NulFree(fs: seq<Field>) { forall f :: f in fs && f.CString? ==> 0 !in f.text }

  lemma FieldRoundTrip(f: Field, rest: seq<byte>)
    ensures var r := DecodeField(KindOf(f), EncodeField(f) + rest);
            if f.CString? && 0 in f.text then r.Err? || r.value.0 != f else r == Ok((f, rest))
  {
    if f.CString? {
      var data := f.text + [0] + rest;
      assert data[|f.text|] == 0 && data[..|f.text|] == f.text;
      if 0 !in f.text {
        UpToNulUnique(data, |f.text|);
        assert data[|f.text| + 1..] == rest;
      } else {
        UpToNulIsFirst(data);
      }
      assert EncodeField(f) + rest == data;
    }
  }

  /** NUL-free fields are read back with whatever follows them left over. */
  lemma {:induction false} FieldsRoundTrip(fs: seq<Field>, rest: seq<byte>)
    requires NulFree(fs)
    ensures DecodeFields(Kinds(fs), EncodeFields(fs) + rest) == Ok((fs, rest))
  {
    hide DecodeField, EncodeField, KindOf;
    if fs == [] {
      assert EncodeFields(fs) + rest == rest;
    } else {
      assert fs[0] in fs;
      var tail := EncodeFields(fs[1..]) + rest;
      assert EncodeFields(fs) + rest == EncodeField(fs[0]) + tail;
      FieldRoundTrip(fs[0], tail);
      assert Kinds(fs)[0] == KindOf(fs[0]) && Kinds(fs)[1..] == Kinds(fs[1..]);
      FieldsRoundTrip(fs[1..], rest);
      assert fs == [fs[0]] + fs[1..];
    }
  }

  /** Fields with a NUL inside a string are never read back as they were. */
  lemma {:induction false} OnlyNulFreeSurvive(fs: seq<Field>, rest: seq<byte>)
    requires var r := DecodeFields(Kinds(fs), EncodeFields(fs) + rest); r.Ok? && r.value.0 == fs
    ensures NulFree(fs)
  {
    if fs == [] {
    } else {
      var tail := EncodeFields(fs[1..]) + rest;
      var data := EncodeFields(fs) + rest;
      assert data == EncodeField(fs[0]) + tail;
      assert Kinds(fs)[0] == KindOf(fs[0]) && Kinds(fs)[1..] == Kinds(fs[1..]);
      FieldRoundTrip(fs[0], tail);
      var first := DecodeField(KindOf(fs[0]), data);
      var others := DecodeFields(Kinds(fs[1..]), first.value.1);
      assert DecodeFields(Kinds(fs), data).value.0 == [first.value.0] + others.value.0;
      assert ([first.value.0] + others.value.0)[0] == first.value.0;
      assert ([first.value.0] + others.value.0)[1..] == others.value.0;
      OnlyNulFreeSurvive(fs[1..], rest);
      assert fs == [fs[0]] + fs[1..];
    }
  }

  lemma ReadField(k: Kind, data: seq<byte>)
    requires DecodeField(k, data).Ok?
    ensures var (f, rest) := DecodeField(k, data).value;
            (f.CString? ==> 0 !in f.text) && EncodeField(f) + rest == data
  {
    UpToNulIsFirst(data);
  }

  /** Every field that was read is NUL-free, and the fields account for the octets read. */
  lemma {:induction false} ReadFieldsAreNulFree(ks: seq<Kind>, data: seq<byte>)
    requires DecodeFields(ks, data).Ok?
    ensures var (fs, rest) := DecodeFields(ks, data).value;
            NulFree(fs) && Kinds(fs) == ks && EncodeFields(fs) + rest == data
  {
    hide DecodeField, EncodeField, KindOf, NulFree, Kinds, EncodeFields;
    if ks == [] {
      NoFields();
      assert [] + data == data;
    } else {
      var (f, rest) := DecodeField(ks[0], data).value;
      var (fs, last) := DecodeFields(ks[1..], rest).value;
      ReadField(ks[0], data);
      ReadFieldsAreNulFree(ks[1..], rest);
      MoreFields(f, fs);
      assert EncodeField(f) + EncodeFields(fs) + last == EncodeField(f) + (EncodeFields(fs) + last);
      assert ks == [ks[0]] + ks[1..];
    }
  }

  lemma NoFields()
    ensures NulFree([]) && Kinds([]) == [] && EncodeFields([]) == []
  {
  }

  lemma MoreFields(f: Field, fs: seq<Field>)
    ensures NulFree([f] + fs) <==> NulFree([f]) && NulFree(fs)
    ensures NulFree([f]) <==> (f.CString? ==> 0 !in f.text)
    ensures Kinds([f] + fs) == [KindOf(f)] + Kinds(fs)
    ensures EncodeFields([f] + fs) == EncodeField(f) + EncodeFields(fs)
  {
    hide KindOf, EncodeField;
    assert ([f] + fs)[1..] == fs;
  }

  lemma {:induction false} EncodeFieldsAppend(fs: seq<Field>, f: Field)
    ensures EncodeFields(fs + [f]) == EncodeFields(fs) + EncodeField(f)
  {
    if fs == [] {
      assert fs + [f] == [f];
      assert EncodeFields([f][1..]) == [];
    } else {
      assert (fs + [f])[1..] == fs[1..] + [f];
      EncodeFieldsAppend(fs[1..], f);
    }
  }

  /** Reading a layout is reading a front part of it and then the rest. */
  lemma {:induction false} DecodeFieldsSplit(a: seq<Kind>, b: seq<Kind>, data: seq<byte>)
    ensures DecodeFields(a + b, data) ==
            match DecodeFields(a, data)
            case Err(e) => Err(e)
            case Ok((fs, rest)) =>
              match DecodeFields(b, rest)
              case Err(e) => Err(e)
              case Ok((gs, last)) => Ok((fs + gs, last))
    decreases |a|
  {
    if a == [] {
      assert a + b == b;
      var r := DecodeFields(b, data);
      if r.Ok? {
        assert [] + r.value.0 == r.value.0;
      }
    } else {
      assert (a + b)[0] == a[0] && (a + b)[1..] == a[1..] + b;
      var first := DecodeField(a[0], data);
      if first.Ok? {
        DecodeFieldsSplit(a[1..], b, first.value.1);
        var front := DecodeFields(a[1..], first.value.1);
        if front.Ok? {
          var back := DecodeFields(b, front.value.1);
          if back.Ok? {
            assert [first.value.0] + (front.value.0 + back.value.0) == [first.value.0] + front.value.0 + back.value.0;
          }
        }
      }
    }
  }

  // ----- optional parameters -----

  type Tlvs = map<word, seq<byte>>

  /** An order in which ranging over the map may visit it: every key once. */
  ghost predicate IsOrder(order: seq<word>, tlvs: Tlvs) {
    && (forall k :: k in order <==> k in tlvs)
    && (forall i, j :: 0 <= i < j < |order| ==> order[i] != order[j])
  }

  predicate LengthsFit(tlvs: Tlvs) { forall k :: k in tlvs ==> |tlvs[k]| <= 65535 }

  function TlvOctets(tag: word, val: seq<byte>): seq<byte>
    requires |val| <= 65535
  {
    WordOctets(tag) + WordOctets(|val|) + val
  }

  function EncodeTlvs(order: seq<word>, tlvs: Tlvs): seq<byte>
    requires LengthsFit(tlvs) && forall k :: k in order ==> k in tlvs
  {
    if order == [] then [] else TlvOctets(order[0], tlvs[order[0]]) + EncodeTlvs(order[1..], tlvs)
  }

  /** decodeTLVs: a repeated tag keeps its last value, and fewer than four octets may not be left. */
  function DecodeTlvs(data: seq<byte>, tlvs: Tlvs): Result<Tlvs, Fault>
    decreases |data|
  {
    if |data| < 4 then if data == [] then Ok(tlvs) else Err(TrailingOctets)
    else
      var tag, length := Join(data[0], data[1]), Join(data[2], data[3]);
      if 4 + length > |data| then Err(EndOfData)
      else DecodeTlvs(data[4 + length..], tlvs[tag := data[4..4 + length]])
  }

  lemma DecodeOne(tag: word, val: seq<byte>, rest: seq<byte>, tlvs: Tlvs)
    requires |val| <= 65535
    ensures DecodeTlvs(TlvOctets(tag, val) + rest, tlvs) == DecodeTlvs(rest, tlvs[tag := val])
  {
    hide Join;
    var data := TlvOctets(tag, val) + rest;
    WordRoundTrip(tag, 0, 0);
    WordRoundTrip(|val|, 0, 0);
    assert data[4..4 + |val|] == val && data[4 + |val|..] == rest;
  }

  /** Whatever order the map is written in, it is read back whole. */
  lemma {:induction false} TlvsRoundTripFrom(order: seq<word>, tlvs: Tlvs, before: Tlvs)
    requires LengthsFit(tlvs) && forall k :: k in order ==> k in tlvs
    requires before.Keys <= tlvs.Keys && forall k :: k in before ==> before[k] == tlvs[k]
    requires forall k :: k in tlvs ==> k in order || k in before
    ensures DecodeTlvs(EncodeTlvs(order, tlvs), before) == Ok(tlvs)
  {
    hide DecodeTlvs, TlvOctets;
    if order == [] {
      assert before == tlvs;
      DecodeNone(before);
    } else {
      var k0, rest := order[0], order[1..];
      DecodeOne(k0, tlvs[k0], EncodeTlvs(rest, tlvs), before);
      assert order == [k0] + rest;
      TlvsRoundTripFrom(rest, tlvs, before[k0 := tlvs[k0]]);
    }
  }

  lemma DecodeNone(tlvs: Tlvs)
    ensures DecodeTlvs([], tlvs) == Ok(tlvs)
  {
  }

  lemma TlvsRoundTrip(order: seq<word>, tlvs: Tlvs)
    requires LengthsFit(tlvs) && IsOrder(order, tlvs)
    ensures DecodeTlvs(EncodeTlvs(order, tlvs), map[]) == Ok(tlvs)
  {
    TlvsRoundTripFrom(order, tlvs, map[]);
  }

  lemma {:induction false} EncodeTlvsAppend(a: seq<word>, b: seq<word>, tlvs: Tlvs)
    requires LengthsFit(tlvs) && forall k :: k in a + b ==> k in tlvs
    ensures (forall k :: k in a ==> k in a + b) && (forall k :: k in b ==> k in a + b)
    ensures EncodeTlvs(a + b, tlvs) == EncodeTlvs(a, tlvs) + EncodeTlvs(b, tlvs)
  {
    if a == [] {
      assert a + b == b;
    } else {
      assert (a + b)[1..] == a[1..] + b;
      EncodeTlvsAppend(a[1..], b, tlvs);
    }
  }

  lemma {:induction false} EncodeTlvsFrame(order: seq<word>, tlvs: Tlvs, more: Tlvs)
    requires LengthsFit(tlvs) && LengthsFit(more)
    requires forall k :: k in order ==> k in tlvs && k in more && tlvs[k] == more[k]
    ensures EncodeTlvs(order, tlvs) == EncodeTlvs(order, more)
  {
    if order == [] {
    } else {
      EncodeTlvsFrame(order[1..], tlvs, more);
    }
  }

  lemma WithoutKey(order: seq<word>, tlvs: Tlvs, i: nat)
    requires IsOrder(order, tlvs) && i < |order|
    ensures IsOrder(order[..i] + order[i + 1..], tlvs - {order[i]})
  {
    var rest := order[..i] + order[i + 1..];
    forall j | 0 <= j < |rest| ensures rest[j] == order[if j < i then j else j + 1] { }
    forall q ensures q in rest <==> q in tlvs - {order[i]} {
      if q in rest {
        var j :| 0 <= j < |rest| && rest[j] == q;
        assert order[if j < i then j else j + 1] == q;
      }
      if q in tlvs && q != order[i] {
        var j :| 0 <= j < |order| && order[j] == q;
        assert rest[if j < i then j else j - 1] == q;
      }
    }
  }

  /** Taking one key out of an order shortens the encoding by that parameter. */
  lemma RemoveKey(order: seq<word>, tlvs: Tlvs, k: word) returns (rest: seq<word>)
    requires LengthsFit(tlvs) && IsOrder(order, tlvs) && k in tlvs
    ensures IsOrder(rest, tlvs - {k}) && |rest| < |order|
    ensures forall q :: q in rest ==> q in tlvs
    ensures |EncodeTlvs(order, tlvs)| == |EncodeTlvs(rest, tlvs)| + 4 + |tlvs[k]|
  {
    hide TlvOctets, EncodeTlvs;
    var i :| 0 <= i < |order| && order[i] == k;
    var a, b := order[..i], order[i + 1..];
    rest := a + b;
    WithoutKey(order, tlvs, i);
    RestLength(a, k, b, tlvs);
    assert order == a + ([k] + b);
  }

  lemma RestLength(a: seq<word>, k: word, b: seq<word>, tlvs: Tlvs)
    requires LengthsFit(tlvs) && forall q :: q in a + ([k] + b) ==> q in tlvs
    ensures forall q :: q in a + b ==> q in a + ([k] + b)
    ensures |EncodeTlvs(a + ([k] + b), tlvs)| == |EncodeTlvs(a + b, tlvs)| + 4 + |tlvs[k]|
  {
    hide TlvOctets, EncodeTlvs;
    EncodeTlvsAppend(a, [k] + b, tlvs);
    EncodeTlvsAppend([k], b, tlvs);
    EncodeTlvsAppend(a, b, tlvs);
    EncodeSingle(tlvs, k);
  }

  lemma EncodeSingle(tlvs: Tlvs, k: word)
    requires LengthsFit(tlvs) && k in tlvs
    ensures |EncodeTlvs([k], tlvs)| == 4 + |tlvs[k]|
  {
    assert EncodeTlvs([k][1..], tlvs) == [];
  }

  /** An order for the map after one more parameter was stored, no longer than that parameter allows. */
  lemma ExtendOrder(order: seq<word>, tlvs: Tlvs, tag: word, val: seq<byte>) returns (next: seq<word>)
    requires LengthsFit(tlvs) && IsOrder(order, tlvs) && |val| <= 65535
    ensures IsOrder(next, tlvs[tag := val])
    ensures |EncodeTlvs(next, tlvs[tag := val])| <= |EncodeTlvs(order, tlvs)| + 4 + |val|
  {
    hide TlvOctets, EncodeTlvs;
    var more := tlvs[tag := val];
    var kept := order;
    if tag in tlvs {
      kept := RemoveKey(order, tlvs, tag);
    }
    next := kept + [tag];
    EncodeTlvsFrame(kept, tlvs, more);
    EncodeTlvsAppend(kept, [tag], more);
    EncodeSingle(more, tag);
  }

  /** Writing back what was read, in any order at all, never takes more octets. */
  lemma {:induction false} RewriteIsNoLonger(data: seq<byte>, before: Tlvs, prior: seq<word>, order: seq<word>)
    requires LengthsFit(before) && IsOrder(prior, before)
    requires DecodeTlvs(data, before).Ok? && IsOrder(order, DecodeTlvs(data, before).value)
    ensures LengthsFit(DecodeTlvs(data, before).value)
    ensures |EncodeTlvs(order, DecodeTlvs(data, before).value)| <= |data| + |EncodeTlvs(prior, before)|
    decreases |data|
  {
    if |data| < 4 {
      OrdersAgree(order, prior, before);
    } else {
      var tag, length := Join(data[0], data[1]), Join(data[2], data[3]);
      var next := ExtendOrder(prior, before, tag, data[4..4 + length]);
      RewriteIsNoLonger(data[4 + length..], before[tag := data[4..4 + length]], next, order);
    }
  }

  lemma FirstIsMember(order: seq<word>)
    ensures order != [] ==> order[0] in order
  {
  }

  /** All orders of one map give encodings of the same length. */
  lemma {:induction false} OrdersAgree(a: seq<word>, b: seq<word>, tlvs: Tlvs)
    requires LengthsFit(tlvs) && IsOrder(a, tlvs) && IsOrder(b, tlvs)
    ensures |EncodeTlvs(a, tlvs)| == |EncodeTlvs(b, tlvs)|
    decreases |a|
  {
    hide TlvOctets, EncodeTlvs;
    if a == [] {
      FirstIsMember(b);
    } else {
      var k := a[0];
      assert k in a;
      var shorter := RemoveKey(a, tlvs, k);
      var rest := RemoveKey(b, tlvs, k);
      OrdersAgree(shorter, rest, tlvs - {k});
      EncodeTlvsFrame(shorter, tlvs - {k}, tlvs);
      EncodeTlvsFrame(rest, tlvs - {k}, tlvs);
    }
  }
}
