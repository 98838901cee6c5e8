/** The calls of the client's interface: compose a request, run the exchange, parse the response. */
module Calls {
  import opened Bytes
  import opened Options
  import opened UdsTypes
  import opened Exchange
  import opened Services
  import ReadData
  import ReadMemory
  import ReadDtc
  import OtherServices

  datatype Call =
    | ReadDids(dids: seq<uint16>)
    | ReadTuple(specs: seq<ReadData.DidSpec>)
    | ReadMemoryRaw(arguments: ReadMemory.MemoryArguments)
    | ReadMemorySimplified(address: uint64, size: uint64, addressLen: Option<byte>, sizeLen: Option<byte>)
    | CountDtcs(mask: byte)
    | ListDtcs(mask: byte)
    | MostRecentConfirmedDtc
    | DtcSnapshot(dtcMask: uint32, recordNumber: byte)
    | DtcExtendedData(dtcMask: uint32, recordNumber: byte)
    | Reset(resetType: ResetType)
    | Session(session: byte)
    | ClearDtcs(group: uint32)
    | WriteDid(did: uint16, data: seq<byte>)

  function Sid(call: Call): byte {
    match call
    case ReadDids(_) => ReadData.READ_DATA_BY_IDENTIFIER_SID
    case ReadTuple(_) => ReadData.READ_DATA_BY_IDENTIFIER_SID
    case ReadMemoryRaw(_) => ReadMemory.READ_MEMORY_BY_ADDRESS_SID
    case ReadMemorySimplified(_, _, _, _) => ReadMemory.READ_MEMORY_BY_ADDRESS_SID
    case Reset(_) => OtherServices.ECU_RESET_SID
    case Session(_) => OtherServices.DIAGNOSTIC_SESSION_CONTROL_SID
    case ClearDtcs(_) => OtherServices.CLEAR_DIAGNOSTIC_INFORMATION_SID
    case WriteDid(_, _) => OtherServices.WRITE_DATA_BY_IDENTIFIER_SID
    case _ => ReadDtc.READ_DTC_INFORMATION_SID
  }

  /** The specs a read of plain identifiers comes down to when it is a single one. */
  function Single(did: uint16): seq<ReadData.DidSpec> { [ReadData.DidSpec(did, UINT32_MAX)] }

  function RequestOf(call: Call): Result<seq<byte>> {
    match call
    case ReadDids(dids) => Success(ReadData.ComposeRequest(dids))
    case ReadTuple(specs) => Success(ReadData.ComposeRequest(ReadData.Dids(specs)))
    case ReadMemoryRaw(arguments) => Success(ReadMemory.Formulate(arguments))
    case ReadMemorySimplified(address, size, addressLen, sizeLen) =>
      var arguments :- ReadMemory.Convert(address, size, addressLen, sizeLen);
      Success(ReadMemory.Formulate(arguments))
    case CountDtcs(mask) =>
      Success(ReadDtc.ComposeByStatusMask(ReadDtc.SubFunction.ReportNumberOfDTCbyStatusMask, mask))
    case ListDtcs(mask) => Success(ReadDtc.ComposeByStatusMask(ReadDtc.SubFunction.ReportDTCByStatusMask, mask))
    case MostRecentConfirmedDtc => Success(ReadDtc.ComposeShort(ReadDtc.SubFunction.ReportMostRecentConfirmedDTC))
    case DtcSnapshot(dtcMask, n) =>
      Success(ReadDtc.ComposeByDtcNumber(ReadDtc.ReportDTCSnapshotRecordByDTCNumber, dtcMask, n))
    case DtcExtendedData(dtcMask, n) =>
      Success(ReadDtc.ComposeByDtcNumber(ReadDtc.ReportDTCExtDataRecordByDTCNumber, dtcMask, n))
    case Reset(t) => Success(OtherServices.ComposeEcuReset(t))
    case Session(session) => Success(OtherServices.ComposeSessionControl(session))
    case ClearDtcs(group) => Success(OtherServices.ComposeClear(group))
    case WriteDid(did, data) => Success(OtherServices.ComposeWrite(did, data))
  }

  function Structured(specs: seq<ReadData.DidSpec>, raw: seq<byte>): Result<UdsResponse> {
    var records :- ReadData.ParseTuple(specs, raw);
    Success(ReadDataByIdentifier(Parsed(records)))
  }

  function Information(r: Result<DtcInformation>): Result<UdsResponse> {
    var information :- r;
    Success(ReadDTCInformation(Parsed(information)))
  }

  function RawInformation(raw: seq<byte>): Result<UdsResponse> {
    var payload :- ReadDtc.ParseRaw(raw);
    Success(ReadDTCInformation(Raw(payload)))
  }

  function ParseFor(call: Call, raw: seq<byte>): Await<UdsResponse> {
    match call
    case ReadDids(dids) =>
      Awaited(if |dids| == 1 then Structured(Single(dids[0]), raw) else ReadData.ParseRaw(raw))
    case ReadTuple(specs) => Awaited(Structured(specs, raw))
    case ReadMemoryRaw(_) => ReadMemory.ParseResponse(raw)
    case ReadMemorySimplified(_, _, _, _) => ReadMemory.ParseResponse(raw)
    case CountDtcs(_) => Awaited(Information(ReadDtc.ParseCount(raw)))
    case ListDtcs(_) => Awaited(Information(ReadDtc.ParseReport(raw)))
    case MostRecentConfirmedDtc => Awaited(Information(ReadDtc.ParseReport(raw)))
    case DtcSnapshot(_, _) => Awaited(RawInformation(raw))
    case DtcExtendedData(_, _) => Awaited(RawInformation(raw))
    case Reset(_) => Awaited(OtherServices.ParseEcuReset(raw))
    case Session(_) => Awaited(OtherServices.ParseSessionControl(raw))
    case ClearDtcs(_) => Awaited(OtherServices.ParseClear(raw))
    case WriteDid(_, _) => Awaited(OtherServices.ParseWrite(raw))
  }

  function Parser(call: Call): seq<byte> -> Await<UdsResponse> { raw => ParseFor(call, raw) }

  /** A whole call on a wire. */
  function Perform(call: Call, wire: Wire): Run<UdsResponse> {
    match RequestOf(call)
    case Failure(e) => Run(Failed(e), wire)
    case Success(request) => Serve(request, Parser(call), wire)
  }
}
