/** The relative validity period (TS 23.040 section 9.2.3.12.1), over whole minutes. */
module ValidityPeriod {
  import opened Bytes

  const DAY := 1440
  const WEEK := 10080

  /** Go's integer division: the quotient is truncated toward zero. */
  function Quotient(a: int, b: int): int
    requires b > 0
  {
    if a >= 0 then a / b else -(-a / b)
  }

  function Min(a: int, b: int): int { if a < b then a else b }

  function Encode(mins: int): byte {
    if mins <= 720 then
      var v := Quotient(mins, 5) - 1;
      if v < 0 then 0 else v
    else if mins <= 1440 then
      var v := 143 + Quotient(mins - 720, 30);
      Min(v, 167)
    else if mins <= 30240 then
      var v := 166 + Quotient(mins, DAY);
      Min(v, 196)
    else
      var v := 192 + Quotient(mins, WEEK);
      Min(v, 255)
  }

  function Decode(vp: byte): nat {
    if vp <= 143 then (vp + 1) * 5
    else if vp <= 167 then 720 + (vp - 143) * 30
    else if vp <= 196 then (vp - 166) * DAY
    else (vp - 192) * WEEK
  }

  lemma EncodeMonotone(a: int, b: int)
    requires a <= b
    ensures Encode(a) <= Encode(b)
  {
  }

  lemma DecodeStrictlyIncreasing(v: byte, w: byte)
    ensures v < w <==> Decode(v) < Decode(w)
  {
  }

  /** The durations for which weeks are counted although the code they give still means days. */
  predicate TooLong(mins: int) { 30240 < mins < 43200 }

  /**
    * Encode picks the largest code whose period does not exceed the duration, for all
    * durations of at least five minutes but those between 21 and 30 days.
    */
  lemma EncodeIsLargestNotExceeding(mins: int)
    requires mins >= 5
    ensures (forall v: byte :: Decode(v) <= mins <==> v <= Encode(mins)) <==> !TooLong(mins)
  {
    if TooLong(mins) {
      assert Decode(Encode(mins)) > mins;
    } else {
      forall v: byte ensures Decode(v) <= mins <==> v <= Encode(mins) {
        Bracket(mins);
        DecodeStrictlyIncreasing(v, Encode(mins));
        if Encode(mins) < 255 {
          DecodeStrictlyIncreasing(v, Encode(mins) + 1);
        }
      }
    }
  }

  lemma Bracket(mins: int)
    requires mins >= 5 && !TooLong(mins)
    ensures Decode(Encode(mins)) <= mins
    ensures Encode(mins) < 255 ==> mins < Decode(Encode(mins) + 1)
  {
  }

  /** A phone's period is never stretched, except exactly in that range and below the shortest period. */
  lemma NeverExceeds(mins: int)
    ensures Decode(Encode(mins)) <= mins <==> mins >= 5 && !TooLong(mins)
    ensures mins < 5 ==> Decode(Encode(mins)) == 5
  {
  }

  /** Only the codes for 22 to 29 days do not come back. */
  lemma EncodeDecode(v: byte)
    ensures Encode(Decode(v)) == v <==> !(188 <= v <= 195)
  {
  }

  lemma StretchedPeriod()
    ensures Decode(Encode(22 * DAY)) == 29 * DAY
  {
  }
}
