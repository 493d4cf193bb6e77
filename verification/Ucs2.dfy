/** UCS-2 user data, read and written as big-endian UTF-16 (section 2 of RFC 2781). */
module Ucs2 {
  import opened Bytes
  import opened Gsm7

  const REPLACEMENT: rune := 0xFFFD

  predicate High(w: word) { 0xD800 <= w <= 0xDBFF }

  predicate Low(w: word) { 0xDC00 <= w <= 0xDFFF }

  /** The code units of one scalar value. */
  function Units(r: rune): seq<word> {
    if r < 0x10000 then [r] else [0xD800 + (r - 0x10000) / 1024, 0xDC00 + (r - 0x10000) % 1024]
  }

  function EncodeUnits(text: seq<rune>): seq<word> {
    if text == [] then [] else Units(text[0]) + EncodeUnits(text[1..])
  }

  function Combine(hi: word, lo: word): rune
    requires High(hi) && Low(lo)
  {
    0x10000 + (hi as int - 0xD800) * 1024 + (lo as int - 0xDC00)
  }

  /** The next rune and the number of code units it takes; an unpaired surrogate is replaced. */
  function First(ws: seq<word>): (next: (rune, nat))
    requires ws != []
    ensures 1 <= next.1 <= |ws|
  {
    if High(ws[0]) && |ws| > 1 && Low(ws[1]) then (Combine(ws[0], ws[1]), 2)
    else if High(ws[0]) || Low(ws[0]) then (REPLACEMENT, 1)
    else (ws[0], 1)
  }

  function DecodeUnits(ws: seq<word>): seq<rune> {
    if ws == [] then [] else [First(ws).0] + DecodeUnits(ws[First(ws).1..])
  }

  function Octets(ws: seq<word>): seq<byte> {
    seq(2 * |ws|, k requires 0 <= k < 2 * |ws| => if k % 2 == 0 then ws[k / 2] / 256 else ws[k / 2] % 256)
  }

  /** The code units in an octet string; a trailing odd octet is dropped. */
  function Words(b: seq<byte>): seq<word> {
    seq(|b| / 2, i requires 0 <= i < |b| / 2 => Join(b[2 * i], b[2 * i + 1]))
  }

  function Encode(text: seq<rune>): seq<byte> { Octets(EncodeUnits(text)) }

  function Decode(b: seq<byte>): seq<rune> { DecodeUnits(Words(b)) }

  lemma WordsOfOctets(ws: seq<word>)
    ensures Words(Octets(ws)) == ws
  {
    var b := Octets(ws);
    forall i | 0 <= i < |ws| ensures Words(b)[i] == ws[i] {
      assert b[2 * i] == ws[i] / 256 && b[2 * i + 1] == ws[i] % 256;
    }
  }

  lemma OctetsOfWords(b: seq<byte>)
    ensures Octets(Words(b)) == b[..|b| / 2 * 2]
  {
    var ws := Words(b);
    forall k | 0 <= k < 2 * |ws| ensures Octets(ws)[k] == b[k] {
      assert ws[k / 2] == Join(b[2 * (k / 2)], b[2 * (k / 2) + 1]);
    }
  }

  lemma UnitsDecode(r: rune, rest: seq<word>)
    ensures DecodeUnits(Units(r) + rest) == [r] + DecodeUnits(rest)
  {
    var ws := Units(r) + rest;
    if r < 0x10000 {
      assert ws[1..] == rest;
    } else {
      assert ws[2..] == rest;
    }
  }

  lemma {:induction false} UnitsRoundTrip(text: seq<rune>)
    ensures DecodeUnits(EncodeUnits(text)) == text
  {
    if text == [] {
    } else {
      UnitsRoundTrip(text[1..]);
      UnitsDecode(text[0], EncodeUnits(text[1..]));
    }
  }

  /** Every sequence of scalar values survives being encoded and decoded. */
  lemma DecodeEncode(text: seq<rune>)
    ensures Decode(Encode(text)) == text
  {
    WordsOfOctets(EncodeUnits(text));
    UnitsRoundTrip(text);
  }

  /** Every high surrogate is followed by a low one, and every low one preceded by a high one. */
  predicate Paired(ws: seq<word>) {
    && (forall i :: 0 <= i < |ws| && High(ws[i]) ==> i + 1 < |ws| && Low(ws[i + 1]))
    && (forall i :: 0 <= i < |ws| && Low(ws[i]) ==> i > 0 && High(ws[i - 1]))
  }

  lemma PairedTail(ws: seq<word>, n: nat)
    requires n == 1 || n == 2
    requires |ws| >= n
    requires n == 1 ==> !High(ws[0]) && !Low(ws[0])
    requires n == 2 ==> High(ws[0]) && Low(ws[1])
    ensures Paired(ws) <==> Paired(ws[n..])
  {
    var tail := ws[n..];
    if Paired(tail) {
      forall i | 0 <= i < |ws| && High(ws[i]) ensures i + 1 < |ws| && Low(ws[i + 1]) {
        if i >= n {
          assert High(tail[i - n]);
        }
      }
      forall i | 0 <= i < |ws| && Low(ws[i]) ensures i > 0 && High(ws[i - 1]) {
        if i >= n {
          assert Low(tail[i - n]);
        }
      }
    }
    if Paired(ws) {
      forall i | 0 <= i < |tail| && High(tail[i]) ensures i + 1 < |tail| && Low(tail[i + 1]) {
        assert High(ws[i + n]);
      }
      forall i | 0 <= i < |tail| && Low(tail[i]) ensures i > 0 && High(tail[i - 1]) {
        assert Low(ws[i + n]) && High(ws[i + n - 1]);
      }
    }
  }

  lemma {:induction false} UnitsSurvive(ws: seq<word>)
    ensures EncodeUnits(DecodeUnits(ws)) == ws <==> Paired(ws)
  {
    hide First, Units, Paired;
    if ws == [] {
      assert Paired([]) by { NothingUnpaired(); }
    } else {
      var (r, n) := First(ws);
      var rest := EncodeUnits(DecodeUnits(ws[n..]));
      UnitsSurvive(ws[n..]);
      FirstCases(ws);
      assert DecodeUnits(ws)[1..] == DecodeUnits(ws[n..]);
      assert EncodeUnits(DecodeUnits(ws)) == Units(r) + rest;
      assert ws == ws[..n] + ws[n..];
      if Units(r) == ws[..n] {
        PrefixCancels(ws[..n], rest, ws[n..]);
      } else {
        assert (Units(r) + rest)[0] != ws[0];
      }
    }
  }

  lemma PrefixCancels(a: seq<word>, b: seq<word>, c: seq<word>)
    ensures a + b == a + c <==> b == c
  {
    assert (a + b)[|a|..] == b && (a + c)[|a|..] == c;
  }

  lemma NothingUnpaired()
    ensures Paired([])
  {
  }

  /** The first rune either stands for the units it was read from, or replaces an unpaired one. */
  lemma FirstCases(ws: seq<word>)
    requires ws != []
    ensures var (r, n) := First(ws);
            if Units(r) == ws[..n] then Paired(ws) <==> Paired(ws[n..])
            else !Paired(ws) && Units(r) != [] && Units(r)[0] != ws[0]
  {
    if (High(ws[0]) || Low(ws[0])) && First(ws).1 == 1 {
      assert Units(REPLACEMENT) == [REPLACEMENT];
    } else {
      FirstSurvives(ws);
      PairedTail(ws, First(ws).1);
    }
  }

  lemma FirstSurvives(ws: seq<word>)
    requires ws != []
    requires High(ws[0]) || Low(ws[0]) ==> First(ws).1 == 2
    ensures Units(First(ws).0) == ws[..First(ws).1]
  {
  }

  /** An octet string comes back unchanged exactly when it is even and its surrogates pair up. */
  lemma {:induction false} EncodeDecode(b: seq<byte>)
    ensures Encode(Decode(b)) == b <==> |b| % 2 == 0 && Paired(Words(b))
  {
    hide DecodeUnits, EncodeUnits, Paired;
    var ws := Words(b);
    UnitsSurvive(ws);
    OctetsOfWords(b);
    var back := EncodeUnits(DecodeUnits(ws));
    WordsOfOctets(back);
    if Encode(Decode(b)) == b {
      assert |b| == 2 * |back|;
    }
    if |b| % 2 == 0 {
      assert b[..|b| / 2 * 2] == b;
    }
  }

  /** Re-encoding and decoding again changes nothing, whatever the octets were. */
  lemma DecodeIsStable(b: seq<byte>)
    ensures Decode(Encode(Decode(b))) == Decode(b)
  {
    DecodeEncode(Decode(b));
  }

  /** A decoded text never needs more octets than it was read from. */
  lemma {:induction false} UnitsShorter(ws: seq<word>)
    ensures |EncodeUnits(DecodeUnits(ws))| <= |ws|
  {
    if ws == [] {
    } else {
      var (r, n) := First(ws);
      UnitsShorter(ws[n..]);
      assert DecodeUnits(ws)[1..] == DecodeUnits(ws[n..]);
    }
  }

  lemma EncodeDecodeShorter(b: seq<byte>)
    ensures |Encode(Decode(b))| <= |b|
  {
    UnitsShorter(Words(b));
  }

  /** DecodeUCS2, as the loop that steps over one or two code units at a time. */
  method DecodeUcs2(b: seq<byte>) returns (text: seq<rune>)
    ensures text == Decode(b)
  {
    var even := if |b| % 2 != 0 then b[..|b| - 1] else b;
    var words := new word[|even| / 2](_ => 0);
    for i := 0 to words.Length
      invariant forall k :: 0 <= k < i ==> words[k] == Join(even[2 * k], even[2 * k + 1])
    {
      words[i] := Join(even[i * 2], even[i * 2 + 1]);
    }
    assert words[..] == Words(b);
    text := DecodeWords(words);
  }

  method DecodeWords(words: array<word>) returns (text: seq<rune>)
    ensures text == DecodeUnits(words[..])
  {
    hide DecodeUnits;
    text := [];
    var i: nat := 0;
    assert words[0..] == words[..];
    while i < words.Length
      invariant i <= words.Length
      invariant text + DecodeUnits(words[i..]) == DecodeUnits(words[..])
    {
      var w := words[i];
      DecodeStep(words[i..], text);
      if 0xD800 <= w <= 0xDBFF {
        if i + 1 < words.Length {
          var lo := words[i + 1];
          if 0xDC00 <= lo <= 0xDFFF {
            text := text + [Combine(w, lo)];
            assert words[i..][2..] == words[i + 2..];
            i := i + 2;
            continue;
          }
        }
        text := text + [REPLACEMENT];
      } else if 0xDC00 <= w <= 0xDFFF {
        text := text + [REPLACEMENT];
      } else {
        text := text + [w];
      }
      assert words[i..][1..] == words[i + 1..];
      i := i + 1;
    }
    DecodeStep(words[i..], text);
  }

  lemma DecodeStep(ws: seq<word>, before: seq<rune>)
    ensures ws == [] ==> before + DecodeUnits(ws) == before
    ensures ws != [] ==> before + DecodeUnits(ws) == before + [First(ws).0] + DecodeUnits(ws[First(ws).1..])
  {
  }

  /** EncodeUCS2, appending two or four octets for each rune. */
  method EncodeUcs2(text: seq<rune>) returns (out: seq<byte>)
    ensures out == Encode(text)
  {
    hide Octets, EncodeUnits;
    out := [];
    assert text[0..] == text;
    for i := 0 to |text|
      invariant out + Encode(text[i..]) == Encode(text)
    {
      var r := text[i];
      EncodeStep(text, i, out);
      OctetsOfUnits(r);
      if r < 0x10000 {
        out := out + [r / 256, r % 256];
      } else {
        var s := r as int - 0x10000;
        var hi: word, lo: word := 0xD800 + s / 1024, 0xDC00 + s % 1024;
        out := out + [hi / 256, hi % 256, lo / 256, lo % 256];
      }
    }
    EncodeEnd(text);
  }

  lemma OctetsOfUnits(r: rune)
    ensures Octets(Units(r)) ==
            if r < 0x10000 then [r / 256, r % 256]
            else [Units(r)[0] / 256, Units(r)[0] % 256, Units(r)[1] / 256, Units(r)[1] % 256]
  {
  }

  lemma EncodeStep(text: seq<rune>, i: nat, before: seq<byte>)
    requires i < |text|
    ensures before + Encode(text[i..]) == before + Octets(Units(text[i])) + Encode(text[i + 1..])
  {
    hide Octets;
    assert text[i..][1..] == text[i + 1..];
    OctetsAppend(Units(text[i]), EncodeUnits(text[i + 1..]));
  }

  lemma EncodeEnd(text: seq<rune>)
    ensures Encode(text[|text|..]) == []
  {
  }

  lemma OctetsAppend(a: seq<word>, b: seq<word>)
    ensures Octets(a + b) == Octets(a) + Octets(b)
  {
  }
}
