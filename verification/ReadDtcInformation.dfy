/** The ReadDTCInformation service, 0x19 (section 11.3 of ISO 14229-1:2013). */
module ReadDtc {
  import opened Bytes
  import opened Options
  import opened UdsDefinitions
  import opened UdsTypes

  const READ_DTC_INFORMATION_SID: byte := 0x19
  const RESPONSE_SID: byte := READ_DTC_INFORMATION_SID + SEND_RECEIVE_SID_OFFSET

  datatype SubFunction =
    | ReportNumberOfDTCbyStatusMask
    | ReportDTCByStatusMask
    | ReportDTCSnapshotIdentification
    | ReportDTCSnapshotRecordByDTCNumber
    | ReportDTCStoredDataByRecordNumber
    | ReportDTCExtDataRecordByDTCNumber
    | ReportNumberOfDTCBySeverityMaskRecord
    | ReportDTCBySeverityMaskRecord
    | ReportSeverityInformationOfDTC
    | ReportSupportedDTC
    | ReportFirstTestFailedDTC
    | ReportFirstConfirmedDTC
    | ReportMostRecentTestFailedDTC
    | ReportMostRecentConfirmedDTC
    | ReportMirrorMemoryDTCByStatusMask
    | ReportMirrorMemoryDTCExtDataRecordByDTCNumber
    | ReportNumberOfMirrorMemoryDTCByStatusMask
    | ReportNumberOfEmissionsOBDDTCByStatusMask
    | ReportEmissionsOBDDTCByStatusMask
    | ReportDTCFaultDetectionCounter
    | ReportDTCWithPermanentStatus
    | ReportDTCExtDataRecordByRecordNumber
    | ReportUserDefMemoryDTCByStatusMask
    | ReportUserDefMemoryDTCSnapshotRecordByDTCNumber
    | ReportUserDefMemoryDTCExtDataRecordByDTCNumber
    | ReportWWHOBDDTCByMaskRecord
    | ReportWWHOBDDTCWithPermanentStatus

  function SubFunctionByte(f: SubFunction): byte {
    match f
    case ReportNumberOfDTCbyStatusMask => 0x01
    case ReportDTCByStatusMask => 0x02
    case ReportDTCSnapshotIdentification => 0x03
    case ReportDTCSnapshotRecordByDTCNumber => 0x04
    case ReportDTCStoredDataByRecordNumber => 0x05
    case ReportDTCExtDataRecordByDTCNumber => 0x06
    case ReportNumberOfDTCBySeverityMaskRecord => 0x07
    case ReportDTCBySeverityMaskRecord => 0x08
    case ReportSeverityInformationOfDTC => 0x09
    case ReportSupportedDTC => 0x0A
    case ReportFirstTestFailedDTC => 0x0B
    case ReportFirstConfirmedDTC => 0x0C
    case ReportMostRecentTestFailedDTC => 0x0D
    case ReportMostRecentConfirmedDTC => 0x0E
    case ReportMirrorMemoryDTCByStatusMask => 0x0F
    case ReportMirrorMemoryDTCExtDataRecordByDTCNumber => 0x10
    case ReportNumberOfMirrorMemoryDTCByStatusMask => 0x11
    case ReportNumberOfEmissionsOBDDTCByStatusMask => 0x12
    case ReportEmissionsOBDDTCByStatusMask => 0x13
    case ReportDTCFaultDetectionCounter => 0x14
    case ReportDTCWithPermanentStatus => 0x15
    case ReportDTCExtDataRecordByRecordNumber => 0x16
    case ReportUserDefMemoryDTCByStatusMask => 0x17
    case ReportUserDefMemoryDTCSnapshotRecordByDTCNumber => 0x18
    case ReportUserDefMemoryDTCExtDataRecordByDTCNumber => 0x19
    case ReportWWHOBDDTCByMaskRecord => 0x42
    case ReportWWHOBDDTCWithPermanentStatus => 0x55
  }

  function SubFunctionFromByte(b: byte): Option<SubFunction> {
    match b
    case 0x01 => Some(SubFunction.ReportNumberOfDTCbyStatusMask)
    case 0x02 => Some(SubFunction.ReportDTCByStatusMask)
    case 0x03 => Some(SubFunction.ReportDTCSnapshotIdentification)
    case 0x04 => Some(SubFunction.ReportDTCSnapshotRecordByDTCNumber)
    case 0x05 => Some(SubFunction.ReportDTCStoredDataByRecordNumber)
    case 0x06 => Some(SubFunction.ReportDTCExtDataRecordByDTCNumber)
    case 0x07 => Some(SubFunction.ReportNumberOfDTCBySeverityMaskRecord)
    case 0x08 => Some(SubFunction.ReportDTCBySeverityMaskRecord)
    case 0x09 => Some(SubFunction.ReportSeverityInformationOfDTC)
    case 0x0A => Some(SubFunction.ReportSupportedDTC)
    case 0x0B => Some(SubFunction.ReportFirstTestFailedDTC)
    case 0x0C => Some(SubFunction.ReportFirstConfirmedDTC)
    case 0x0D => Some(SubFunction.ReportMostRecentTestFailedDTC)
    case 0x0E => Some(SubFunction.ReportMostRecentConfirmedDTC)
    case 0x0F => Some(SubFunction.ReportMirrorMemoryDTCByStatusMask)
    case 0x10 => Some(SubFunction.ReportMirrorMemoryDTCExtDataRecordByDTCNumber)
    case 0x11 => Some(SubFunction.ReportNumberOfMirrorMemoryDTCByStatusMask)
    case 0x12 => Some(SubFunction.ReportNumberOfEmissionsOBDDTCByStatusMask)
    case 0x13 => Some(SubFunction.ReportEmissionsOBDDTCByStatusMask)
    case 0x14 => Some(SubFunction.ReportDTCFaultDetectionCounter)
    case 0x15 => Some(SubFunction.ReportDTCWithPermanentStatus)
    case 0x16 => Some(SubFunction.ReportDTCExtDataRecordByRecordNumber)
    case 0x17 => Some(SubFunction.ReportUserDefMemoryDTCByStatusMask)
    case 0x18 => Some(SubFunction.ReportUserDefMemoryDTCSnapshotRecordByDTCNumber)
    case 0x19 => Some(SubFunction.ReportUserDefMemoryDTCExtDataRecordByDTCNumber)
    case 0x42 => Some(SubFunction.ReportWWHOBDDTCByMaskRecord)
    case 0x55 => Some(SubFunction.ReportWWHOBDDTCWithPermanentStatus)
    case _ => None
  }

  function FormatFromByte(b: byte): Option<DtcFormat> {
    match b
    case 0 => Some(SAE_J2012_DA_0)
    case 1 => Some(ISO_14229_1)
    case 2 => Some(SAE_J1939_73)
    case 3 => Some(ISO_11992_4)
    case 4 => Some(SAE_J2012_DA_4)
    case _ => None
  }

  // ----- requests

  function ComposeByStatusMask(f: SubFunction, mask: byte): seq<byte> {
    [READ_DTC_INFORMATION_SID, SubFunctionByte(f), mask]
  }

  /** Shared by the snapshot and the extended-data request; the top byte of `dtcMask` is dropped. */
  function ComposeByDtcNumber(f: SubFunction, dtcMask: uint32, recordNumber: byte): seq<byte> {
    [READ_DTC_INFORMATION_SID, SubFunctionByte(f)] + BigEndian(dtcMask, 3) + [recordNumber]
  }

  function ComposeShort(f: SubFunction): seq<byte> {
    [READ_DTC_INFORMATION_SID, SubFunctionByte(f)]
  }

  // ----- the list of trouble codes

  function Dtc(high: byte, middle: byte, low: byte): uint32 { high * 0x1_0000 + middle * 0x100 + low }

  lemma ThreeBytes(v: nat)
    ensures BigEndian(v, 3) == [v / 0x100 / 0x100 % 0x100, v / 0x100 % 0x100, v % 0x100]
  {
    assert BigEndian(v, 3) == BigEndian(v / 0x100, 2) + [v % 0x100];
    assert BigEndian(v / 0x100, 2) == BigEndian(v / 0x100 / 0x100, 1) + [v / 0x100 % 0x100];
    assert BigEndian(v / 0x100 / 0x100, 1) == BigEndian(v / 0x100 / 0x100 / 0x100, 0) + [v / 0x100 / 0x100 % 0x100];
  }

  /** Three bytes of a longer value reassemble to its low 24 bits. */
  lemma Low24Bits(v: uint32)
    ensures var bs := BigEndian(v, 3); Dtc(bs[0], bs[1], bs[2]) == v % 0x100_0000
  {
    ThreeBytes(v);
    var upper := v / 0x100;
    var uppermost := upper / 0x100;
    SplitOff(v, upper, uppermost, uppermost / 0x100, uppermost % 0x100, upper % 0x100, v % 0x100);
  }

  lemma SplitOff(v: nat, upper: nat, uppermost: nat, top: nat, high: byte, middle: byte, low: byte)
    requires v == upper * 0x100 + low && upper == uppermost * 0x100 + middle && uppermost == top * 0x100 + high
    ensures v % 0x100_0000 == Dtc(high, middle, low)
  {
    assert v == top * 0x100_0000 + Dtc(high, middle, low);
  }

  /** The four-byte records from `pos` on. */
  function ParseDtcRecords(raw: seq<byte>, pos: nat): Result<seq<DtcAndStatusRecord>>
    requires pos <= |raw|
    decreases |raw| - pos
  {
    if pos == |raw| then Success([])
    else if pos + 4 > |raw| then Failure(InvalidLength(raw))
    else
      var rest :- ParseDtcRecords(raw, pos + 4);
      Success([DtcAndStatusRecord(Dtc(raw[pos], raw[pos + 1], raw[pos + 2]), raw[pos + 3])] + rest)
  }

  /** The response that a sub-function wraps a trouble code report in, if it is one that has it. */
  function WrapReport(f: SubFunction, report: DtcReport): Option<DtcInformation> {
    match f
    case ReportDTCByStatusMask => Some(DtcInformation.ReportDTCByStatusMask(report))
    case ReportSupportedDTC => Some(DtcInformation.ReportSupportedDTC(report))
    case ReportFirstTestFailedDTC => Some(DtcInformation.ReportFirstTestFailedDTC(report))
    case ReportFirstConfirmedDTC => Some(DtcInformation.ReportFirstConfirmedDTC(report))
    case ReportMostRecentTestFailedDTC => Some(DtcInformation.ReportMostRecentTestFailedDTC(report))
    case ReportMostRecentConfirmedDTC => Some(DtcInformation.ReportMostRecentConfirmedDTC(report))
    case ReportMirrorMemoryDTCByStatusMask => Some(DtcInformation.ReportMirrorMemoryDTCByStatusMask(report))
    case ReportEmissionsOBDDTCByStatusMask => Some(DtcInformation.ReportEmissionsOBDDTCByStatusMask(report))
    case ReportDTCWithPermanentStatus => Some(DtcInformation.ReportDTCWithPermanentStatus(report))
    case _ => None
  }

  function WrapCount(f: SubFunction, count: DtcCount): Option<DtcInformation> {
    match f
    case ReportNumberOfDTCbyStatusMask => Some(DtcInformation.ReportNumberOfDTCbyStatusMask(count))
    case ReportNumberOfDTCBySeverityMaskRecord => Some(DtcInformation.ReportNumberOfDTCBySeverityMaskRecord(count))
    case ReportNumberOfMirrorMemoryDTCByStatusMask =>
      Some(DtcInformation.ReportNumberOfMirrorMemoryDTCByStatusMask(count))
    case ReportNumberOfEmissionsOBDDTCByStatusMask =>
      Some(DtcInformation.ReportNumberOfEmissionsOBDDTCByStatusMask(count))
    case _ => None
  }

  function ParseReport(raw: seq<byte>): Result<DtcInformation> {
    if raw == [] then Failure(ResponseEmpty)
    else if raw[0] != RESPONSE_SID then Failure(SidMismatch(RESPONSE_SID, raw[0], raw))
    else if |raw| < 3 then Failure(InvalidLength(raw))
    else
      var records :- ParseDtcRecords(raw, 3);
      var f :- OkOr(SubFunctionFromByte(raw[1]), ResponseIncorrect(raw));
      OkOr(WrapReport(f, DtcReport(raw[2], records)), InvalidArgument)
  }

  method ParseReportDtcs(raw: seq<byte>) returns (r: Result<DtcInformation>)
    ensures r == ParseReport(raw)
  {
    var pos := 0;
    var sid :- OkOr(Next(raw, pos), ResponseEmpty);
    pos := pos + 1;
    if sid != RESPONSE_SID {
      return Failure(SidMismatch(RESPONSE_SID, sid, raw));
    }
    var reportType :- OkOr(Next(raw, pos), InvalidLength(raw));
    pos := pos + 1;
    var dtcStatusAvailabilityMask :- OkOr(Next(raw, pos), InvalidLength(raw));
    pos := pos + 1;

    var records: seq<DtcAndStatusRecord> := [];
    PrependNothing(ParseDtcRecords(raw, pos));
    while pos < |raw|
      invariant 3 <= pos <= |raw|
      invariant ParseDtcRecords(raw, 3) == Prepend(records, ParseDtcRecords(raw, pos))
    {
      ghost var start := pos;
      var highByte := raw[pos];
      pos := pos + 1;
      var middleByte :- OkOr(Next(raw, pos), InvalidLength(raw));
      pos := pos + 1;
      var lowByte :- OkOr(Next(raw, pos), InvalidLength(raw));
      pos := pos + 1;
      var statusOfDtc :- OkOr(Next(raw, pos), InvalidLength(raw));
      pos := pos + 1;
      var record := DtcAndStatusRecord(Dtc(highByte, middleByte, lowByte), statusOfDtc);
      PrependTwice(records, record, ParseDtcRecords(raw, pos));
      records := records + [record];
    }
    assert records + [] == records;

    var f :- OkOr(SubFunctionFromByte(reportType), ResponseIncorrect(raw));
    return OkOr(WrapReport(f, DtcReport(dtcStatusAvailabilityMask, records)), InvalidArgument);
  }

  // ----- the number of trouble codes

  function ParseCount(raw: seq<byte>): Result<DtcInformation> {
    if raw == [] then Failure(ResponseEmpty)
    else if raw[0] != RESPONSE_SID then Failure(SidMismatch(RESPONSE_SID, raw[0], raw))
    else if |raw| < 2 then Failure(InvalidLength(raw))
    else
      var f :- OkOr(SubFunctionFromByte(raw[1]), ResponseIncorrect(raw));
      if |raw| < 4 then Failure(InvalidLength(raw))
      else
        var format :- OkOr(FormatFromByte(raw[3]), ResponseIncorrect(raw));
        if |raw| < 6 then Failure(InvalidLength(raw))
        else OkOr(WrapCount(f, DtcCount(raw[2], format, Word(raw[4], raw[5]))), InvalidArgument)
  }

  method ParseReportNumberOfDtcByStatusMaskResponse(raw: seq<byte>) returns (r: Result<DtcInformation>)
    ensures r == ParseCount(raw)
  {
    var pos := 0;
    var sid :- OkOr(Next(raw, pos), ResponseEmpty);
    pos := pos + 1;
    if sid != RESPONSE_SID {
      return Failure(SidMismatch(RESPONSE_SID, sid, raw));
    }
    var reportByte :- OkOr(Next(raw, pos), InvalidLength(raw));
    pos := pos + 1;
    var f :- OkOr(SubFunctionFromByte(reportByte), ResponseIncorrect(raw));
    var dtcStatusAvailabilityMask :- OkOr(Next(raw, pos), InvalidLength(raw));
    pos := pos + 1;
    var formatByte :- OkOr(Next(raw, pos), InvalidLength(raw));
    pos := pos + 1;
    var format :- OkOr(FormatFromByte(formatByte), ResponseIncorrect(raw));
    var msb :- OkOr(Next(raw, pos), InvalidLength(raw));
    pos := pos + 1;
    var lsb :- OkOr(Next(raw, pos), InvalidLength(raw));
    pos := pos + 1;
    return OkOr(WrapCount(f, DtcCount(dtcStatusAvailabilityMask, format, Word(msb, lsb))), InvalidArgument);
  }

  /** The snapshot and extended-data responses are handed on unparsed. */
  function ParseRaw(raw: seq<byte>): Result<seq<byte>> {
    if raw == [] then Failure(ResponseEmpty)
    else if raw[0] != RESPONSE_SID then Failure(SidMismatch(RESPONSE_SID, raw[0], raw))
    else Success(raw[1..])
  }
}
