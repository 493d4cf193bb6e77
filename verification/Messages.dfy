/** The canonical message that every codec converts to and from. */
module Messages {
  import opened Wrappers
  import opened Bytes
  import opened Gsm7

  datatype Encoding = EncodingGsm7 | EncodingUcs2 | EncodingUtf8 | EncodingBinary

  /** Digits are kept as ASCII octets; A is the character type of an alphanumeric sender ID. */
  datatype Address<A> = Address(msisdn: seq<byte>, alpha: seq<A>, ton: byte, npi: byte)

  datatype ConcatInfo = ConcatInfo(reference: word, total: byte, sequence: byte)

  datatype Udh = Udh(raw: seq<byte>, concat: Option<ConcatInfo>)

  datatype Message<A> = Message(
    source: Address<A>,
    destination: Address<A>,
    text: seq<rune>,
    binary: seq<byte>,
    encoding: Encoding,
    dcs: byte,
    udh: Option<Udh>,
    concat: Option<ConcatInfo>,
    tpmr: byte,
    reportRequired: bool,
    validity: Option<int>,   // whole minutes
    timestamp: seq<byte>)    // the service centre time stamp octets

  /** Digits without the plus sign in front of an international number. */
  function TrimPlus(digits: seq<byte>): seq<byte> {
    if digits != [] && digits[0] == 0x2B then digits[1..] else digits
  }

  /** Why a codec refuses its input. */
  datatype Fault =
    | TooShort | UnsupportedType | AddressOutOfBounds | Truncated | UdhTruncated | UdhExceedsLength
    | NotADigit | UnsupportedEncoding | UnexpectedCommand

  /** ParseDCS: the character encoding a data coding scheme octet stands for (TS 23.038 section 4). */
  function ParseDcs(dcs: byte): Encoding {
    var upper := dcs / 16;
    if upper <= 0x0B then CharsetBits(dcs / 4 % 4)
    else if upper == 0x0C || upper == 0x0D then EncodingGsm7
    else if upper == 0x0E then EncodingUcs2
    else if dcs / 4 % 2 == 1 then EncodingBinary
    else EncodingGsm7
  }

  function CharsetBits(b: nat): Encoding {
    if b == 1 then EncodingBinary else if b == 2 then EncodingUcs2 else EncodingGsm7
  }

  /** BuildDCS: a minimal octet for an encoding. */
  function BuildDcs(enc: Encoding): byte {
    match enc
    case EncodingGsm7 => 0x00
    case EncodingBinary => 0x04
    case EncodingUcs2 => 0x08
    case EncodingUtf8 => 0x00
  }

  /** dcsForEgress: the received octet, or a minimal one when there is none. */
  function DcsForEgress<A>(msg: Message<A>): byte {
    if msg.dcs != 0 then msg.dcs else BuildDcs(msg.encoding)
  }

  /** A message without a received octet is always sent with one that names its encoding. */
  lemma BuiltDcsParses(enc: Encoding)
    ensures ParseDcs(BuildDcs(enc)) == if enc == EncodingUtf8 then EncodingGsm7 else enc
    ensures forall dcs: byte :: ParseDcs(dcs) != EncodingUtf8
  {
  }

  /** The last concatenation element in a run of information elements. */
  function ParseElements(ie: seq<byte>, concat: Option<ConcatInfo>): Option<ConcatInfo> {
    if |ie| < 2 || 2 + ie[1] > |ie| then concat
    else
      var val := ie[2..2 + ie[1]];
      var found :=
        if ie[0] == 0x00 && ie[1] == 3 then Some(ConcatInfo(val[0], val[1], val[2]))
        else if ie[0] == 0x08 && ie[1] == 4 then Some(ConcatInfo(Join(val[0], val[1]), val[2], val[3]))
        else concat;
      ParseElements(ie[2 + ie[1]..], found)
  }

  /** A header whose length octet counts the octets that follow it. */
  predicate WellFormedUdh(raw: seq<byte>) { raw != [] && raw[0] == |raw| - 1 }

  /** What decodeUDH makes of a header given with its length octet. */
  function UdhOf(raw: seq<byte>): Result<Udh, Fault> {
    if raw == [] then Ok(Udh(raw, None))
    else if |raw| - 1 < raw[0] then Err(UdhTruncated)
    else Ok(Udh(raw, ParseElements(raw[1..1 + raw[0]], None)))
  }

  /** decodeUDH, looping over the information elements. */
  method DecodeUdh(raw: seq<byte>) returns (r: Result<Udh, Fault>)
    ensures r == UdhOf(raw)
  {
    if |raw| < 1 {
      return Ok(Udh(raw, None));
    }
    var udhl := raw[0];
    var ie := raw[1..];
    if |ie| < udhl {
      return Err(UdhTruncated);
    }
    ie := ie[..udhl];
    var concat: Option<ConcatInfo> := None;
    ghost var all := raw[1..1 + udhl];
    assert ie == all;
    while |ie| >= 2
      invariant ParseElements(ie, concat) == ParseElements(all, None)
      decreases |ie|
    {
      var iei, iel := ie[0], ie[1];
      if 2 + iel > |ie| {
        break;
      }
      var val := ie[2..2 + iel];
      if iei == 0x00 {
        if iel == 3 {
          concat := Some(ConcatInfo(val[0], val[1], val[2]));
        }
      } else if iei == 0x08 {
        if iel == 4 {
          concat := Some(ConcatInfo(Join(val[0], val[1]), val[2], val[3]));
        }
      }
      ie := ie[2 + iel..];
    }
    return Ok(Udh(raw, concat));
  }

  /** buildConcatUDH: one element with a 16-bit reference. */
  function BuildConcatUdh(c: ConcatInfo): seq<byte> {
    [0x06, 0x08, 0x04, c.reference / 256, c.reference % 256, c.total, c.sequence]
  }

  /** The header built for a segment is well formed and parses back to the same segment. */
  lemma BuiltConcatParses(c: ConcatInfo)
    ensures WellFormedUdh(BuildConcatUdh(c))
    ensures ParseElements(BuildConcatUdh(c)[1..], None) == Some(c)
  {
    var ie := BuildConcatUdh(c)[1..];
    assert ie == [0x08, 0x04, c.reference / 256, c.reference % 256, c.total, c.sequence];
    assert ie[2..6] == [c.reference / 256, c.reference % 256, c.total, c.sequence];
    assert ParseElements(ie, None) == ParseElements(ie[6..], Some(c));
  }
}
