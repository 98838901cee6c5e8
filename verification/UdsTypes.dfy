/** Errors, responses and result types shared by every service. */
module UdsTypes {
  import opened Bytes
  import opened Options
  import opened UdsDefinitions

  datatype UdsCommunicationError =
    | FailedToFindCanDevice
    | SocketCanIOError
    | StdIOError
    | GeneralError
    | NotImplementedError
    | SocketCreationError

  datatype NrcData = NrcData(rejectedSid: byte, code: NegativeResponseCode)

  datatype UdsError =
    | SidMismatch(expected: byte, received: byte, rawMessage: seq<byte>)
    | DidMismatch(expectedDid: uint16, receivedDid: uint16, rawMessage: seq<byte>)
    | InvalidLength(rawMessage: seq<byte>)
    | NRC(nrc: NrcData)
    | UnknownNRC(rejectedSid: byte, unknownNrc: byte)
    | ResponseEmpty
    | InvalidArgument
    | ResponseIncorrect(rawMessage: seq<byte>)
    | RequestEmpty
    | CommunicationError(error: UdsCommunicationError)

  datatype Result<+T> = Success(value: T) | Failure(error: UdsError)
  {
    predicate IsFailure() { Failure? }

    function PropagateFailure<U>(): Result<U>
      requires Failure?
    {
      Failure(error)
    }

    function Extract(): T
      requires Success?
    {
      value
    }
  }

  /**
   * What awaiting an asynchronous call comes to. `Blocked` is a call that never completes,
   * `Panicked` one that aborts on an out-of-range index.
   */
  datatype Await<+T> = Ready(value: T) | Failed(error: UdsError) | Blocked | Panicked
  {
    predicate IsFailure() { !Ready? }

    function PropagateFailure<U>(): Await<U>
      requires !Ready?
    {
      match this
      case Failed(e) => Failed(e)
      case Blocked => Blocked
      case Panicked => Panicked
    }

    function Extract(): T
      requires Ready?
    {
      value
    }
  }

  function Awaited<T>(r: Result<T>): Await<T> {
    match r
    case Success(v) => Ready(v)
    case Failure(e) => Failed(e)
  }

  /** The byte under a cursor, if the frame has not run out. */
  function Next(frame: seq<byte>, pos: nat): Option<byte> {
    if pos < |frame| then Some(frame[pos]) else None
  }

  function OkOr<T>(o: Option<T>, e: UdsError): Result<T> {
    match o
    case Some(v) => Success(v)
    case None => Failure(e)
  }

  /** `r` with `before` in front of what it found. */
  function Prepend<T>(before: seq<T>, r: Result<seq<T>>): Result<seq<T>> {
    match r
    case Success(found) => Success(before + found)
    case Failure(e) => Failure(e)
  }

  lemma PrependNothing<T>(r: Result<seq<T>>)
    ensures Prepend([], r) == r
  {
    if r.Success? {
      assert [] + r.value == r.value;
    }
  }

  lemma PrependTwice<T>(before: seq<T>, found: T, r: Result<seq<T>>)
    ensures Prepend(before + [found], r) == Prepend(before, Prepend([found], r))
  {
    if r.Success? {
      assert (before + [found]) + r.value == before + ([found] + r.value);
    }
  }

  datatype DataFormat<+T> = Parsed(parsed: T) | Raw(raw: seq<byte>)

  datatype DataRecord = DataRecord(dataIdentifier: uint16, data: seq<byte>)

  datatype DtcFormat = SAE_J2012_DA_0 | ISO_14229_1 | SAE_J1939_73 | ISO_11992_4 | SAE_J2012_DA_4

  datatype DtcCount = DtcCount(availabilityMask: byte, format: DtcFormat, count: uint16)

  datatype DtcAndStatusRecord = DtcAndStatusRecord(dtc: uint32, statusOfDtc: byte)

  datatype DtcReport = DtcReport(availabilityMask: byte, records: seq<DtcAndStatusRecord>)

  datatype DtcInformation =
    | ReportNumberOfDTCbyStatusMask(count: DtcCount)
    | ReportDTCByStatusMask(report: DtcReport)
    | ReportNumberOfDTCBySeverityMaskRecord(count: DtcCount)
    | ReportSupportedDTC(report: DtcReport)
    | ReportFirstTestFailedDTC(report: DtcReport)
    | ReportFirstConfirmedDTC(report: DtcReport)
    | ReportMostRecentTestFailedDTC(report: DtcReport)
    | ReportMostRecentConfirmedDTC(report: DtcReport)
    | ReportMirrorMemoryDTCByStatusMask(report: DtcReport)
    | ReportNumberOfMirrorMemoryDTCByStatusMask(count: DtcCount)
    | ReportNumberOfEmissionsOBDDTCByStatusMask(count: DtcCount)
    | ReportEmissionsOBDDTCByStatusMask(report: DtcReport)
    | ReportDTCWithPermanentStatus(report: DtcReport)

  datatype ResetType =
    | HardReset
    | KeyOffOnReset
    | SoftReset
    | EnableRapidPowerShutDown
    | DisableRapidPowerShutDown

  datatype UdsResponse =
    | EcuReset(resetType: ResetType, powerDownTime: Option<byte>)
    | ReadDataByIdentifier(records: DataFormat<seq<DataRecord>>)
    | ReadMemoryByAddress(memory: seq<byte>)
    | ReadDTCInformation(information: DataFormat<DtcInformation>)
    | ClearDiagnosticInformation
    | WriteDataByIdentifier(dataIdentifier: uint16)
    | DiagnosticSessionControl(session: byte, p2: uint16, p2Star: uint16)
}
