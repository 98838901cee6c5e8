/** The ReadMemoryByAddress service, 0x23 (section 10.3 of ISO 14229-1:2013). */
module ReadMemory {
  import opened Bytes
  import opened Options
  import opened UdsDefinitions
  import opened UdsTypes

  const READ_MEMORY_BY_ADDRESS_SID: byte := 0x23
  const RESPONSE_SID: byte := READ_MEMORY_BY_ADDRESS_SID + SEND_RECEIVE_SID_OFFSET

  datatype MemoryArguments = MemoryArguments(format: byte, address: seq<byte>, size: seq<byte>)

  /** The greatest field width; a longer one that was asked for counts as this. */
  const MAX_WIDTH: byte := 8

  function Clamped(len: byte): byte { if len > MAX_WIDTH then MAX_WIDTH else len }

  /** The width of the field for `value`, or nothing when the width asked for is too small. */
  function FieldWidth(value: uint64, len: Option<byte>): Option<nat> {
    match len
    case None => Some(MinWidth(value))
    case Some(n) => if Clamped(n) < MinWidth(value) then None else Some(Clamped(n))
  }

  /** The format byte: the size width in the high nibble, the address width in the low one. */
  function Format(a: nat, s: nat): byte
    requires a <= 8 && s <= 8
  {
    s * 0x10 + a
  }

  function Convert(address: uint64, size: uint64, addressLen: Option<byte>, sizeLen: Option<byte>)
    : Result<MemoryArguments>
  {
    match (FieldWidth(address, addressLen), FieldWidth(size, sizeLen))
    case (Some(a), Some(s)) =>
      Width64(address);
      Width64(size);
      Success(MemoryArguments(Format(a, s), BigEndian(address, a), BigEndian(size, s)))
    case _ => Failure(InvalidArgument)
  }

  /** `b << 4` in eight bits. */
  function ShiftLeft4(b: byte): byte { b * 0x10 % 0x100 }

  method ConvertFromSimpleToNormal(address: uint64, size: uint64, addressLen: Option<byte>, sizeLen: Option<byte>)
    returns (r: Result<MemoryArguments>)
    ensures r == Convert(address, size, addressLen, sizeLen)
  {
    Width64(address);
    Width64(size);
    var addressEncodeBytes: byte := 0;
    var sizeEncodeBytes: byte := 0;
    var i := address;
    while i > 0
      invariant addressEncodeBytes + MinWidth(i) == MinWidth(address)
    {
      i := i / 0x100;
      addressEncodeBytes := addressEncodeBytes + 1;
    }
    i := size;
    while i > 0
      invariant sizeEncodeBytes + MinWidth(i) == MinWidth(size)
    {
      i := i / 0x100;
      sizeEncodeBytes := sizeEncodeBytes + 1;
    }

    if addressLen.Some? {
      var providedAddressLen := addressLen.value;
      if providedAddressLen > MAX_WIDTH {
        providedAddressLen := MAX_WIDTH;
      }
      if providedAddressLen < addressEncodeBytes {
        return Failure(InvalidArgument);
      }
      if providedAddressLen > addressEncodeBytes {
        addressEncodeBytes := providedAddressLen;
      }
    }
    assert FieldWidth(address, addressLen) == Some(addressEncodeBytes);
    if sizeLen.Some? {
      var providedSizeLen := sizeLen.value;
      if providedSizeLen > MAX_WIDTH {
        providedSizeLen := MAX_WIDTH;
      }
      if providedSizeLen < sizeEncodeBytes {
        return Failure(InvalidArgument);
      }
      if providedSizeLen > sizeEncodeBytes {
        sizeEncodeBytes := providedSizeLen;
      }
    }
    assert FieldWidth(size, sizeLen) == Some(sizeEncodeBytes);
    ConvertedTo(address, size, addressLen, sizeLen, addressEncodeBytes, sizeEncodeBytes);
    Nibbles(addressEncodeBytes, sizeEncodeBytes);
    var format: byte := ShiftLeft4(sizeEncodeBytes) + addressEncodeBytes;
    var addressBytes := ToBigEndianBytes(address)[8 - addressEncodeBytes..];
    var sizeBytes := ToBigEndianBytes(size)[8 - sizeEncodeBytes..];
    return Success(MemoryArguments(format, addressBytes, sizeBytes));
  }

  /** The eight bytes of a 64-bit value. */
  function ToBigEndianBytes(v: uint64): (bs: seq<byte>)
    ensures |bs| == 8
  {
    BigEndian(v, 8)
  }

  lemma FieldIsSuffix(value: uint64, len: Option<byte>, w: nat)
    requires FieldWidth(value, len) == Some(w)
    ensures w <= 8 && ToBigEndianBytes(value)[8 - w..] == BigEndian(value, w)
  {
    Width64(value);
    NarrowedSuffix(value, 8, w);
  }

  lemma ConvertedTo(address: uint64, size: uint64, addressLen: Option<byte>, sizeLen: Option<byte>, a: nat, s: nat)
    requires FieldWidth(address, addressLen) == Some(a) && FieldWidth(size, sizeLen) == Some(s)
    ensures a <= 8 && s <= 8
    ensures var addressBytes, sizeBytes := ToBigEndianBytes(address)[8 - a..], ToBigEndianBytes(size)[8 - s..];
            Convert(address, size, addressLen, sizeLen)
            == Success(MemoryArguments(Format(a, s), addressBytes, sizeBytes))
  {
    FieldIsSuffix(address, addressLen, a);
    FieldIsSuffix(size, sizeLen, s);
  }

  function Formulate(arguments: MemoryArguments): seq<byte> {
    [READ_MEMORY_BY_ADDRESS_SID, arguments.format] + arguments.address + arguments.size
  }

  method FormulateRequest(format: byte, address: seq<byte>, size: seq<byte>) returns (request: seq<byte>)
    ensures request == Formulate(MemoryArguments(format, address, size))
  {
    request := [READ_MEMORY_BY_ADDRESS_SID, format];
    request := request + address;
    request := request + size;
  }

  /** The parser indexes the first byte without a check, so an empty frame aborts it. */
  function ParseResponse(raw: seq<byte>): Await<UdsResponse> {
    if raw == [] then Panicked
    else if raw[0] != RESPONSE_SID then Failed(SidMismatch(RESPONSE_SID, raw[0], raw))
    else Ready(ReadMemoryByAddress(raw[1..]))
  }

  // ----- reading a request back

  datatype MemoryRange = MemoryRange(address: nat, size: nat)

  function LowNibble(b: byte): nat { b % 0x10 }

  function HighNibble(b: byte): nat { b / 0x10 }

  lemma Nibbles(low: nat, high: nat)
    requires low <= 8 && high <= 8
    ensures LowNibble(Format(low, high)) == low && HighNibble(Format(low, high)) == high
    ensures ShiftLeft4(high) + low == Format(low, high)
  {
  }

  /** A request read by its format byte: low nibble the address width, high nibble the size width. */
  function DecodeRequest(frame: seq<byte>): Option<MemoryRange> {
    if |frame| < 2 || frame[0] != READ_MEMORY_BY_ADDRESS_SID then None
    else
      var a, s := LowNibble(frame[1]), HighNibble(frame[1]);
      if |frame| != 2 + a + s then None
      else Some(MemoryRange(FromBigEndian(frame[2..2 + a]), FromBigEndian(frame[2 + a..])))
  }

  lemma DecodeFormulated(arguments: MemoryArguments)
    requires LowNibble(arguments.format) == |arguments.address|
    requires HighNibble(arguments.format) == |arguments.size|
    ensures DecodeRequest(Formulate(arguments))
         == Some(MemoryRange(FromBigEndian(arguments.address), FromBigEndian(arguments.size)))
  {
  }

  /** A conversion fails exactly when a width that was asked for cannot hold its value. */
  lemma ConversionFailsExactly(address: uint64, size: uint64, addressLen: Option<byte>, sizeLen: Option<byte>)
    ensures Convert(address, size, addressLen, sizeLen) == Failure(InvalidArgument)
       <==> || (addressLen.Some? && Pow256(Clamped(addressLen.value)) <= address)
            || (sizeLen.Some? && Pow256(Clamped(sizeLen.value)) <= size)
    ensures Convert(address, size, addressLen, sizeLen).Failure?
        ==> Convert(address, size, addressLen, sizeLen) == Failure(InvalidArgument)
  {
    if addressLen.Some? {
      MinWidthIsLeast(address, Clamped(addressLen.value));
    }
    if sizeLen.Some? {
      MinWidthIsLeast(size, Clamped(sizeLen.value));
    }
  }

  /** A width of eight or more means eight bytes; a smaller one means that many, if they can hold the value. */
  lemma WidthExactly(value: uint64, n: byte)
    ensures FieldWidth(value, Some(n)) == if n >= 8 then Some(8) else if Pow256(n) <= value then None else Some(n)
  {
    Width64(value);
    MinWidthIsLeast(value, n);
  }

  /** So a width of eight or more never fails, and a smaller one only when it cannot hold the value. */
  lemma WidthsExactly(address: uint64, size: uint64, n: byte, other: Option<byte>)
    ensures n >= 8 ==> Convert(address, size, Some(n), other) == Convert(address, size, Some(8), other)
    ensures n >= 8 ==> Convert(address, size, other, Some(n)) == Convert(address, size, other, Some(8))
    ensures Convert(address, size, Some(n), None).Failure? <==> n < 8 && Pow256(n) <= address
    ensures Convert(address, size, None, Some(n)).Failure? <==> n < 8 && Pow256(n) <= size
    ensures Convert(address, size, Some(n), other).Success?
        ==> |Convert(address, size, Some(n), other).value.address| == if n < 8 then n else 8
    ensures Convert(address, size, other, Some(n)).Success?
        ==> |Convert(address, size, other, Some(n)).value.size| == if n < 8 then n else 8
  {
    WidthExactly(address, n);
    WidthExactly(size, n);
    WidthExactly(address, 8);
    WidthExactly(size, 8);
  }

  /** The field of a value: wide enough, as wide as asked for, and else no wider than needed. */
  ghost predicate IsFieldOf(field: seq<byte>, value: uint64, len: Option<byte>) {
    && FromBigEndian(field) == value
    && |field| <= 8
    && match len
       case Some(n) => |field| == Clamped(n)
       case None => forall w: nat :: value < Pow256(w) <==> |field| <= w
  }

  lemma FieldsAreMinimal(value: uint64, len: Option<byte>)
    requires FieldWidth(value, len).Some?
    ensures IsFieldOf(BigEndian(value, FieldWidth(value, len).value), value, len)
  {
    var width := FieldWidth(value, len).value;
    Width64(value);
    MinWidthIsLeast(value, width);
    DecodeEncode(value, width);
    forall w: nat ensures value < Pow256(w) <==> MinWidth(value) <= w {
      MinWidthIsLeast(value, w);
    }
  }

  /** Asking for more width than a value needs only prepends zero bytes. */
  lemma ExtraWidthIsZeros(value: uint64, len: Option<byte>)
    requires FieldWidth(value, len).Some?
    ensures var width, least := FieldWidth(value, len).value, MinWidth(value);
            least <= width && BigEndian(value, width) == Zeros(width - least) + BigEndian(value, least)
  {
    var width, least := FieldWidth(value, len).value, MinWidth(value);
    MinWidthIsLeast(value, least);
    PaddedPrefix(value, least, width - least);
  }

  /**
   * For all addresses, sizes and widths: the fields are those of the two values, and the whole frame
   * read by its format byte gives the two values back.
   */
  lemma MemoryRoundTrip(address: uint64, size: uint64, addressLen: Option<byte>, sizeLen: Option<byte>)
    requires Convert(address, size, addressLen, sizeLen).Success?
    ensures var arguments := Convert(address, size, addressLen, sizeLen).value;
            && IsFieldOf(arguments.address, address, addressLen)
            && IsFieldOf(arguments.size, size, sizeLen)
            && DecodeRequest(Formulate(arguments)) == Some(MemoryRange(address, size))
  {
    FieldsAreMinimal(address, addressLen);
    FieldsAreMinimal(size, sizeLen);
    var arguments := Convert(address, size, addressLen, sizeLen).value;
    Nibbles(|arguments.address|, |arguments.size|);
    DecodeFormulated(arguments);
  }

  /** Calls that differ in address or size never produce the same frame, whatever widths they ask for. */
  lemma FramesAreDistinct(
    a1: uint64, s1: uint64, al1: Option<byte>, sl1: Option<byte>,
    a2: uint64, s2: uint64, al2: Option<byte>, sl2: Option<byte>)
    requires Convert(a1, s1, al1, sl1).Success? && Convert(a2, s2, al2, sl2).Success?
    requires Formulate(Convert(a1, s1, al1, sl1).value) == Formulate(Convert(a2, s2, al2, sl2).value)
    ensures a1 == a2 && s1 == s2
  {
    MemoryRoundTrip(a1, s1, al1, sl1);
    MemoryRoundTrip(a2, s2, al2, sl2);
  }

  /** Every well-formed request with fields of at most eight bytes is one that the conversion can produce. */
  lemma EveryRequestIsProduced(frame: seq<byte>)
    requires DecodeRequest(frame).Some?
    requires LowNibble(frame[1]) <= 8 && HighNibble(frame[1]) <= 8
    ensures var range := DecodeRequest(frame).value;
            && range.address < 0x1_0000_0000_0000_0000 && range.size < 0x1_0000_0000_0000_0000
            && var r := Convert(range.address, range.size, Some(LowNibble(frame[1])), Some(HighNibble(frame[1])));
            && r.Success? && Formulate(r.value) == frame
  {
    var a := LowNibble(frame[1]);
    var address, size := frame[2..2 + a], frame[2 + a..];
    FieldsAreProduced(address, size);
    ByteOfNibbles(frame[1]);
    assert frame == [frame[0], frame[1]] + address + size;
  }

  lemma ByteOfNibbles(b: byte)
    requires LowNibble(b) <= 8 && HighNibble(b) <= 8
    ensures Format(LowNibble(b), HighNibble(b)) == b
  {
  }

  lemma FieldsAreProduced(address: seq<byte>, size: seq<byte>)
    requires |address| <= 8 && |size| <= 8
    ensures FromBigEndian(address) < 0x1_0000_0000_0000_0000 && FromBigEndian(size) < 0x1_0000_0000_0000_0000
    ensures Convert(FromBigEndian(address), FromBigEndian(size), Some(|address|), Some(|size|))
         == Success(MemoryArguments(Format(|address|, |size|), address, size))
  {
    FieldIsProduced(address);
    FieldIsProduced(size);
  }

  lemma FieldIsProduced(field: seq<byte>)
    requires |field| <= 8
    ensures var value := FromBigEndian(field);
            && value < 0x1_0000_0000_0000_0000
            && FieldWidth(value, Some(|field|)) == Some(|field|)
            && BigEndian(value, |field|) == field
  {
    EncodeDecode(field);
    FitsIn64(field);
    MinWidthIsLeast(FromBigEndian(field), |field|);
  }

  lemma FitsIn64(bs: seq<byte>)
    requires |bs| <= 8
    ensures FromBigEndian(bs) < 0x1_0000_0000_0000_0000
  {
    EncodeDecode(bs);
    MinWidthIsLeast(FromBigEndian(bs), |bs|);
    MinWidthIsLeast(FromBigEndian(bs), 8);
    assert Pow256(8) == 0x100 * (0x100 * (0x100 * (0x100 * Pow256(4))));
  }

  /** A field is left out altogether exactly when its value is zero and no width of its own was asked for. */
  lemma FieldIsMissingExactly(value: uint64, len: Option<byte>)
    requires FieldWidth(value, len).Some?
    ensures FieldWidth(value, len) == Some(0) <==> value == 0 && (len == None || len == Some(0))
  {
  }
}
