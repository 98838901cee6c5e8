/**
 * The frame that each call sends, byte by byte as ISO 14229-1:2013 lays it out, without recourse to the
 * functions that compose it.
 */
module RequestFormats {
  import opened Bytes
  import opened Options
  import opened UdsTypes
  import opened Exchange
  import opened ExchangeLaws
  import opened Calls
  import opened CallLaws
  import ReadData
  import ReadMemory
  import ReadDtc

  /** Service 0x22, then two bytes for each identifier, the higher first. */
  predicate AsksForDids(dids: seq<uint16>, frame: seq<byte>) {
    && |frame| == 1 + 2 * |dids| && frame[0] == 0x22
    && forall i :: 0 <= i < |dids| ==> frame[1 + 2 * i] == dids[i] / 0x100 && frame[2 + 2 * i] == dids[i] % 0x100
  }

  /** The bytes of the value, most significant first. */
  predicate Holds(field: seq<byte>, value: nat) {
    && value < Pow256(|field|)
    && forall i :: 0 <= i < |field| ==> field[i] == value / Pow256(|field| - 1 - i) % 0x100
  }

  /** As long as was asked for, but at most eight bytes; and without a leading zero if no length was asked for. */
  predicate HasLength(field: seq<byte>, len: Option<byte>) {
    match len
    case Some(n) => |field| == if n < 8 then n else 8
    case None => field == [] || field[0] != 0
  }

  predicate IsField(field: seq<byte>, value: nat, len: Option<byte>) { HasLength(field, len) && Holds(field, value) }

  /** Service 0x23, the lengths of the fields, size in the high nibble, then the address, then the size. */
  predicate AsksForMemory(address: nat, size: nat, addressLen: Option<byte>, sizeLen: Option<byte>, frame: seq<byte>) {
    && |frame| >= 2 && frame[0] == 0x23
    && var a, s := frame[1] % 0x10, frame[1] / 0x10;
    && |frame| == 2 + a + s
    && IsField(frame[2..2 + a], address, addressLen) && IsField(frame[2 + a..], size, sizeLen)
  }

  function ResetNumber(t: ResetType): byte {
    match t
    case HardReset => 0x01
    case KeyOffOnReset => 0x02
    case SoftReset => 0x03
    case EnableRapidPowerShutDown => 0x04
    case DisableRapidPowerShutDown => 0x05
  }

  /** The frame asks for what the call is about. */
  predicate Asks(call: Call, frame: seq<byte>) {
    match call
    case ReadDids(dids) => AsksForDids(dids, frame)
    case ReadTuple(specs) =>
      AsksForDids(seq(|specs|, i requires 0 <= i < |specs| => specs[i].did), frame)
    case ReadMemoryRaw(arguments) => frame == [0x23, arguments.format] + arguments.address + arguments.size
    case ReadMemorySimplified(address, size, addressLen, sizeLen) =>
      AsksForMemory(address, size, addressLen, sizeLen, frame)
    case CountDtcs(mask) => frame == [0x19, 0x01, mask]
    case ListDtcs(mask) => frame == [0x19, 0x02, mask]
    case MostRecentConfirmedDtc => frame == [0x19, 0x0E]
    case DtcSnapshot(dtc, n) =>
      frame == [0x19, 0x04, dtc / 0x1_0000 % 0x100, dtc / 0x100 % 0x100, dtc % 0x100, n]
    case DtcExtendedData(dtc, n) =>
      frame == [0x19, 0x06, dtc / 0x1_0000 % 0x100, dtc / 0x100 % 0x100, dtc % 0x100, n]
    case Reset(t) => frame == [0x11, ResetNumber(t)]
    case Session(session) => frame == [0x10, session]
    case ClearDtcs(group) => frame == [0x14, group / 0x1_0000 % 0x100, group / 0x100 % 0x100, group % 0x100]
    case WriteDid(did, data) => frame == [0x2E, did / 0x100, did % 0x100] + data
  }

  // ----- identifiers

  lemma {:induction false} DidBytes(dids: seq<uint16>, frame: seq<byte>)
    ensures frame == ReadData.ComposeRequest(dids) <==> AsksForDids(dids, frame)
  {
    EncodedDids(dids);
    var request := ReadData.ComposeRequest(dids);
    assert request[0] == 0x22 && forall j :: 1 <= j < |request| ==> request[j] == ReadData.EncodeDids(dids)[j - 1];
    if AsksForDids(dids, frame) {
      forall j | 0 <= j < |frame| ensures frame[j] == request[j] {
        if j > 0 {
          var i := (j - 1) / 2;
          assert frame[1 + 2 * i] == dids[i] / 0x100 == ReadData.EncodeDids(dids)[2 * i];
          assert frame[2 + 2 * i] == dids[i] % 0x100 == ReadData.EncodeDids(dids)[2 * i + 1];
          assert j == 1 + 2 * i || j == 2 + 2 * i;
        }
      }
      assert frame == request;
    }
  }

  lemma {:induction false} EncodedDids(dids: seq<uint16>)
    ensures var bytes := ReadData.EncodeDids(dids);
            && |bytes| == 2 * |dids|
            && forall i :: 0 <= i < |dids| ==> bytes[2 * i] == dids[i] / 0x100 && bytes[2 * i + 1] == dids[i] % 0x100
  {
    if dids != [] {
      EncodedDids(dids[..|dids| - 1]);
    }
  }

  // ----- memory

  /** The field of a converted value is the only one there is, and there is one if and only if it converts. */
  lemma FieldExactly(value: uint64, len: Option<byte>, field: seq<byte>)
    ensures IsField(field, value, len)
       <==> && ReadMemory.FieldWidth(value, len).Some?
            && field == BigEndian(value, ReadMemory.FieldWidth(value, len).value)
  {
    Width64(value);
    MinWidthIsLeast(value, |field|);
    FieldBytes(field, value);
    var width := ReadMemory.FieldWidth(value, len);
    if width.Some? {
      MinWidthIsLeast(value, width.value);
      FieldBytes(BigEndian(value, width.value), value);
      LeadingByte(BigEndian(value, width.value), value);
    }
    LeadingByte(field, value);
  }

  lemma FieldBytes(field: seq<byte>, value: nat)
    ensures Holds(field, value) <==> value < Pow256(|field|) && field == BigEndian(value, |field|)
  {
    forall i | 0 <= i < |field| ensures BigEndian(value, |field|)[i] == value / Pow256(|field| - 1 - i) % 0x100 {
      DigitExactly(value, |field|, i);
    }
  }

  lemma LeadingByte(field: seq<byte>, value: nat)
    ensures Holds(field, value) ==> (HasLength(field, None) <==> |field| == MinWidth(value))
  {
    if Holds(field, value) {
      NoLeadingZeroExactly(value, |field|);
    }
  }

  lemma FieldWidthOf(value: uint64, len: Option<byte>)
    requires ReadMemory.FieldWidth(value, len).Some?
    ensures ReadMemory.FieldWidth(value, len).value <= 8
  {
    Width64(value);
  }

  /** Header and fields, put together and taken apart again. */
  lemma Framed(a: nat, s: nat, address: seq<byte>, size: seq<byte>, frame: seq<byte>)
    requires a == |address| <= 8 && s == |size| <= 8
    ensures frame == [0x23, s * 0x10 + a] + address + size
       <==> && |frame| >= 2 && frame[0] == 0x23 && frame[1] % 0x10 == a && frame[1] / 0x10 == s
            && |frame| == 2 + a + s && frame[2..2 + a] == address && frame[2 + a..] == size
  {
    if |frame| == 2 + a + s {
      assert frame == [frame[0], frame[1]] + frame[2..2 + a] + frame[2 + a..];
    }
  }

  lemma ConvertedFields(address: uint64, size: uint64, addressLen: Option<byte>, sizeLen: Option<byte>, a: nat, s: nat)
    requires ReadMemory.FieldWidth(address, addressLen) == Some(a) && ReadMemory.FieldWidth(size, sizeLen) == Some(s)
    ensures a <= 8 && s <= 8
    ensures ReadMemory.Convert(address, size, addressLen, sizeLen)
         == Success(ReadMemory.MemoryArguments(ReadMemory.Format(a, s), BigEndian(address, a), BigEndian(size, s)))
  {
    ReadMemory.ConvertedTo(address, size, addressLen, sizeLen, a, s);
    NarrowedSuffix(address, 8, a);
    NarrowedSuffix(size, 8, s);
  }

  lemma SimplifiedRequest(call: Call, arguments: ReadMemory.MemoryArguments)
    requires call.ReadMemorySimplified?
    requires ReadMemory.Convert(call.address, call.size, call.addressLen, call.sizeLen) == Success(arguments)
    ensures RequestOf(call) == Success([0x23, arguments.format] + arguments.address + arguments.size)
  {
    assert RequestOf(call) == Success(ReadMemory.Formulate(arguments));
  }

  lemma UnconvertedRequest(call: Call)
    requires call.ReadMemorySimplified?
    requires || ReadMemory.FieldWidth(call.address, call.addressLen).None?
             || ReadMemory.FieldWidth(call.size, call.sizeLen).None?
    ensures RequestOf(call).Failure?
  {
  }

  lemma MemoryFrameExactly(address: uint64, size: uint64, addressLen: Option<byte>, sizeLen: Option<byte>,
                           frame: seq<byte>)
    ensures RequestOf(ReadMemorySimplified(address, size, addressLen, sizeLen)) == Success(frame)
       <==> AsksForMemory(address, size, addressLen, sizeLen, frame)
  {
    var a, s := ReadMemory.FieldWidth(address, addressLen), ReadMemory.FieldWidth(size, sizeLen);
    var call := ReadMemorySimplified(address, size, addressLen, sizeLen);
    if a.Some? && s.Some? {
      ConvertedFields(address, size, addressLen, sizeLen, a.value, s.value);
      SimplifiedRequest(call, ReadMemory.Convert(address, size, addressLen, sizeLen).value);
      Framed(a.value, s.value, BigEndian(address, a.value), BigEndian(size, s.value), frame);
    } else {
      UnconvertedRequest(call);
    }
    if |frame| >= 2 && |frame| == 2 + frame[1] % 0x10 + frame[1] / 0x10 {
      FieldExactly(address, addressLen, frame[2..2 + frame[1] % 0x10]);
      FieldExactly(size, sizeLen, frame[2 + frame[1] % 0x10..]);
    }
  }

  // ----- every call

  lemma CodeFrame(f: byte, dtc: uint32, n: byte)
    ensures [0x19, f] + BigEndian(dtc, 3) + [n]
         == [0x19, f, dtc / 0x1_0000 % 0x100, dtc / 0x100 % 0x100, dtc % 0x100, n]
  {
    ReadDtc.ThreeBytes(dtc);
  }

  lemma GroupFrame(group: uint32)
    ensures [0x14] + BigEndian(group, 3)
         == [0x14, group / 0x1_0000 % 0x100, group / 0x100 % 0x100, group % 0x100]
  {
    ReadDtc.ThreeBytes(group);
  }

  /** For every call and every frame: the request of the call is the frame that asks for what it is about. */
  lemma RequestExactly(call: Call, frame: seq<byte>)
    ensures RequestOf(call) == Success(frame) <==> Asks(call, frame)
  {
    match call
    case ReadDids(dids) => DidBytes(dids, frame);
    case ReadTuple(specs) =>
      DidBytes(ReadData.Dids(specs), frame);
      assert ReadData.Dids(specs) == seq(|specs|, i requires 0 <= i < |specs| => specs[i].did);
    case ReadMemorySimplified(address, size, addressLen, sizeLen) =>
      MemoryFrameExactly(address, size, addressLen, sizeLen, frame);
    case DtcSnapshot(dtc, n) => CodeFrame(0x04, dtc, n);
    case DtcExtendedData(dtc, n) => CodeFrame(0x06, dtc, n);
    case ClearDtcs(group) => GroupFrame(group);
    case WriteDid(did, data) =>
      assert [0x2E] + [did / 0x100, did % 0x100] + data == [0x2E, did / 0x100, did % 0x100] + data;
    case _ =>
  }

  /** A length of fewer than eight bytes was asked for, and they cannot hold the value. */
  predicate TooLong(value: nat, len: Option<byte>) { len.Some? && len.value < 8 && Pow256(len.value) <= value }

  /** A call has no request exactly if it reads memory and a length that was asked for is too small. */
  lemma NoRequestExactly(call: Call, e: UdsError)
    ensures RequestOf(call) == Failure(e)
       <==> && e == InvalidArgument && call.ReadMemorySimplified?
            && (TooLong(call.address, call.addressLen) || TooLong(call.size, call.sizeLen))
  {
    if call.ReadMemorySimplified? {
      Fits(call.address, call.addressLen);
      Fits(call.size, call.sizeLen);
    }
  }

  lemma Fits(value: uint64, len: Option<byte>)
    ensures ReadMemory.FieldWidth(value, len).None? <==> TooLong(value, len)
  {
    Width64(value);
    if len.Some? {
      MinWidthIsLeast(value, len.value);
    }
  }

  /** On every link and whatever comes of it: each frame that a call sends asks for what the call is about. */
  lemma SentFramesAsk(call: Call, link: Link, i: nat)
    requires i < |Perform(call, Wire(link, [])).wire.log| && IsSend(Perform(call, Wire(link, [])).wire.log[i])
    ensures Asks(call, Perform(call, Wire(link, [])).wire.log[i].frame)
  {
    OnlyTheRequestIsSent(call, link, i);
    RequestExactly(call, Perform(call, Wire(link, [])).wire.log[i].frame);
  }

  /** In particular, what a read of identifiers sends decodes to just those identifiers. */
  lemma SentDidsDecode(dids: seq<uint16>, link: Link, i: nat)
    requires var log := Perform(ReadDids(dids), Wire(link, [])).wire.log; i < |log| && IsSend(log[i])
    ensures var frame := Perform(ReadDids(dids), Wire(link, [])).wire.log[i].frame;
            frame != [] && frame[0] == 0x22 && ReadData.DecodeDids(frame[1..]) == Some(dids)
  {
    OnlyTheRequestIsSent(ReadDids(dids), link, i);
    ReadData.RequestRoundTrip(dids);
  }
}
