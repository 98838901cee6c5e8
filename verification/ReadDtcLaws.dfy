/** The trouble code parsers and the encodings they invert. */
module ReadDtcLaws {
  import opened Bytes
  import opened Options
  import opened UdsTypes
  import opened ReadDtc

  // ----- encodings

  /** The report type byte of the response. */
  function ReportType(information: DtcInformation): byte {
    match information
    case ReportNumberOfDTCbyStatusMask(_) => 0x01
    case ReportDTCByStatusMask(_) => 0x02
    case ReportNumberOfDTCBySeverityMaskRecord(_) => 0x07
    case ReportSupportedDTC(_) => 0x0A
    case ReportFirstTestFailedDTC(_) => 0x0B
    case ReportFirstConfirmedDTC(_) => 0x0C
    case ReportMostRecentTestFailedDTC(_) => 0x0D
    case ReportMostRecentConfirmedDTC(_) => 0x0E
    case ReportMirrorMemoryDTCByStatusMask(_) => 0x0F
    case ReportNumberOfMirrorMemoryDTCByStatusMask(_) => 0x11
    case ReportNumberOfEmissionsOBDDTCByStatusMask(_) => 0x12
    case ReportEmissionsOBDDTCByStatusMask(_) => 0x13
    case ReportDTCWithPermanentStatus(_) => 0x15
  }

  /** The nine report types of a trouble code list. */
  predicate IsReportType(b: byte) { b == 0x02 || 0x0A <= b <= 0x0F || b == 0x13 || b == 0x15 }

  /** The four report types of a trouble code count. */
  predicate IsCountType(b: byte) { b == 0x01 || b == 0x07 || b == 0x11 || b == 0x12 }

  predicate IsSubFunction(b: byte) { 0x01 <= b <= 0x19 || b == 0x42 || b == 0x55 }

  function EncodeDtcRecords(records: seq<DtcAndStatusRecord>): seq<byte> {
    if records == [] then []
    else BigEndian(records[0].dtc, 3) + [records[0].statusOfDtc] + EncodeDtcRecords(records[1..])
  }

  function EncodeReport(information: DtcInformation): seq<byte>
    requires IsReportType(ReportType(information))
  {
    [RESPONSE_SID, ReportType(information), information.report.availabilityMask]
    + EncodeDtcRecords(information.report.records)
  }

  function FormatByte(format: DtcFormat): byte {
    match format
    case SAE_J2012_DA_0 => 0
    case ISO_14229_1 => 1
    case SAE_J1939_73 => 2
    case ISO_11992_4 => 3
    case SAE_J2012_DA_4 => 4
  }

  function EncodeCount(information: DtcInformation): seq<byte>
    requires IsCountType(ReportType(information))
  {
    var c := information.count;
    [RESPONSE_SID, ReportType(information), c.availabilityMask, FormatByte(c.format),
     HighByte(c.count), LowByte(c.count)]
  }

  /** Trouble codes have 24 bits. */
  ghost predicate Are24Bit(records: seq<DtcAndStatusRecord>) {
    forall i :: 0 <= i < |records| ==> records[i].dtc < 0x100_0000
  }

  /** Three bytes are those of a 24-bit code just when they reassemble to it. */
  lemma DtcExactly(high: byte, middle: byte, low: byte, dtc: uint32)
    ensures Dtc(high, middle, low) == dtc <==> dtc < 0x100_0000 && BigEndian(dtc, 3) == [high, middle, low]
  {
    ThreeBytes(dtc);
    Reassembled(high, middle, low, dtc);
  }

  lemma Reassembled(high: byte, middle: byte, low: byte, dtc: nat)
    ensures Dtc(high, middle, low) == dtc
       <==> dtc < 0x100_0000
            && dtc / 0x100 / 0x100 % 0x100 == high && dtc / 0x100 % 0x100 == middle && dtc % 0x100 == low
  {
    var upper, top := dtc / 0x100, dtc / 0x100 / 0x100;
    assert dtc == upper * 0x100 + dtc % 0x100;
    assert upper == top * 0x100 + upper % 0x100;
    if Dtc(high, middle, low) == dtc {
      assert upper == high * 0x100 + middle;
    }
  }

  /** The bytes from `pos` on are those of `record`. */
  predicate RecordAt(record: DtcAndStatusRecord, raw: seq<byte>, pos: nat) {
    && pos + 4 <= |raw|
    && record == DtcAndStatusRecord(Dtc(raw[pos], raw[pos + 1], raw[pos + 2]), raw[pos + 3])
  }

  lemma RecordAtExactly(record: DtcAndStatusRecord, raw: seq<byte>, pos: nat)
    requires pos + 4 <= |raw|
    ensures RecordAt(record, raw, pos)
       <==> record.dtc < 0x100_0000 && BigEndian(record.dtc, 3) + [record.statusOfDtc] == raw[pos..pos + 4]
  {
    DtcExactly(raw[pos], raw[pos + 1], raw[pos + 2], record.dtc);
    var field, status := raw[pos..pos + 3], raw[pos + 3];
    assert field == [raw[pos], raw[pos + 1], raw[pos + 2]];
    assert raw[pos..pos + 4] == field + [status];
    SplitAt(BigEndian(record.dtc, 3), [record.statusOfDtc], field, [status]);
  }

  /** Records parse from exactly their encoding, to its last byte. */
  lemma {:induction false} RecordsExactly(raw: seq<byte>, pos: nat, records: seq<DtcAndStatusRecord>)
    requires pos <= |raw|
    ensures ParseDtcRecords(raw, pos) == Success(records)
       <==> Are24Bit(records) && EncodeDtcRecords(records) == raw[pos..]
    decreases |raw| - pos
  {
    if pos + 4 <= |raw| && records != [] {
      RecordAtExactly(records[0], raw, pos);
      RecordsExactly(raw, pos + 4, records[1..]);
      assert records == [records[0]] + records[1..];
      assert raw[pos..] == raw[pos..pos + 4] + raw[pos + 4..];
      SplitAt(BigEndian(records[0].dtc, 3) + [records[0].statusOfDtc], EncodeDtcRecords(records[1..]),
                raw[pos..pos + 4], raw[pos + 4..]);
      assert Are24Bit(records) <==> records[0].dtc < 0x100_0000 && Are24Bit(records[1..]);
    }
  }

  lemma SplitAt(a: seq<byte>, b: seq<byte>, c: seq<byte>, d: seq<byte>)
    requires |a| == |c|
    ensures a + b == c + d <==> a == c && b == d
  {
    assert (a + b)[..|a|] == a && (c + d)[..|c|] == c && (a + b)[|a|..] == b && (c + d)[|c|..] == d;
  }

  lemma {:induction false} RecordsFailExactly(raw: seq<byte>, pos: nat)
    requires pos <= |raw|
    ensures var r := ParseDtcRecords(raw, pos);
            if (|raw| - pos) % 4 == 0 then r.Success? && 4 * |r.value| == |raw| - pos
            else r == Failure(InvalidLength(raw))
    decreases |raw| - pos
  {
    if pos + 4 <= |raw| {
      RecordsFailExactly(raw, pos + 4);
      assert (|raw| - pos) % 4 == (|raw| - (pos + 4)) % 4;
    }
  }

  // ----- sub-functions

  lemma WrapExactly(b: byte, report: DtcReport, count: DtcCount)
    ensures SubFunctionFromByte(b).Some? <==> IsSubFunction(b)
    ensures SubFunctionFromByte(b).Some? ==>
            var listed := WrapReport(SubFunctionFromByte(b).value, report);
            var counted := WrapCount(SubFunctionFromByte(b).value, count);
            && (listed.Some? <==> IsReportType(b))
            && (listed.Some? ==> ReportType(listed.value) == b && listed.value.report == report)
            && (counted.Some? <==> IsCountType(b))
            && (counted.Some? ==> ReportType(counted.value) == b && counted.value.count == count)
  {
  }

  /** A response is determined by its report type and its report. */
  lemma SameReport(a: DtcInformation, b: DtcInformation)
    requires ReportType(a) == ReportType(b)
    requires IsReportType(ReportType(a)) ==> a.report == b.report
    requires IsCountType(ReportType(a)) ==> a.count == b.count
    ensures a == b
  {
  }

  /** The sub-functions 0x01 to 0x09 by their literal numbers. */
  lemma FirstNumbers()
    ensures SubFunctionFromByte(0x01) == Some(SubFunction.ReportNumberOfDTCbyStatusMask)
    ensures SubFunctionFromByte(0x02) == Some(SubFunction.ReportDTCByStatusMask)
    ensures SubFunctionFromByte(0x03) == Some(SubFunction.ReportDTCSnapshotIdentification)
    ensures SubFunctionFromByte(0x04) == Some(SubFunction.ReportDTCSnapshotRecordByDTCNumber)
    ensures SubFunctionFromByte(0x05) == Some(SubFunction.ReportDTCStoredDataByRecordNumber)
    ensures SubFunctionFromByte(0x06) == Some(SubFunction.ReportDTCExtDataRecordByDTCNumber)
    ensures SubFunctionFromByte(0x07) == Some(SubFunction.ReportNumberOfDTCBySeverityMaskRecord)
    ensures SubFunctionFromByte(0x08) == Some(SubFunction.ReportDTCBySeverityMaskRecord)
    ensures SubFunctionFromByte(0x09) == Some(SubFunction.ReportSeverityInformationOfDTC)
  {
  }

  /** The sub-functions 0x0A to 0x12. */
  lemma MiddleNumbers()
    ensures SubFunctionFromByte(0x0A) == Some(SubFunction.ReportSupportedDTC)
    ensures SubFunctionFromByte(0x0B) == Some(SubFunction.ReportFirstTestFailedDTC)
    ensures SubFunctionFromByte(0x0C) == Some(SubFunction.ReportFirstConfirmedDTC)
    ensures SubFunctionFromByte(0x0D) == Some(SubFunction.ReportMostRecentTestFailedDTC)
    ensures SubFunctionFromByte(0x0E) == Some(SubFunction.ReportMostRecentConfirmedDTC)
    ensures SubFunctionFromByte(0x0F) == Some(SubFunction.ReportMirrorMemoryDTCByStatusMask)
    ensures SubFunctionFromByte(0x10) == Some(SubFunction.ReportMirrorMemoryDTCExtDataRecordByDTCNumber)
    ensures SubFunctionFromByte(0x11) == Some(SubFunction.ReportNumberOfMirrorMemoryDTCByStatusMask)
    ensures SubFunctionFromByte(0x12) == Some(SubFunction.ReportNumberOfEmissionsOBDDTCByStatusMask)
  {
  }

  /** The sub-functions from 0x13 on. */
  lemma LastNumbers()
    ensures SubFunctionFromByte(0x13) == Some(SubFunction.ReportEmissionsOBDDTCByStatusMask)
    ensures SubFunctionFromByte(0x14) == Some(SubFunction.ReportDTCFaultDetectionCounter)
    ensures SubFunctionFromByte(0x15) == Some(SubFunction.ReportDTCWithPermanentStatus)
    ensures SubFunctionFromByte(0x16) == Some(SubFunction.ReportDTCExtDataRecordByRecordNumber)
    ensures SubFunctionFromByte(0x17) == Some(SubFunction.ReportUserDefMemoryDTCByStatusMask)
    ensures SubFunctionFromByte(0x18) == Some(SubFunction.ReportUserDefMemoryDTCSnapshotRecordByDTCNumber)
    ensures SubFunctionFromByte(0x19) == Some(SubFunction.ReportUserDefMemoryDTCExtDataRecordByDTCNumber)
    ensures SubFunctionFromByte(0x42) == Some(SubFunction.ReportWWHOBDDTCByMaskRecord)
    ensures SubFunctionFromByte(0x55) == Some(SubFunction.ReportWWHOBDDTCWithPermanentStatus)
  {
  }

  // ----- the list of trouble codes

  /** Which frames the list parser accepts, and how many records it then finds. */
  lemma ReportAcceptsExactly(raw: seq<byte>)
    ensures ParseReport(raw).Success?
       <==> |raw| >= 3 && raw[0] == RESPONSE_SID && IsReportType(raw[1]) && (|raw| - 3) % 4 == 0
    ensures ParseReport(raw).Success? ==>
            var information := ParseReport(raw).value;
            && ReportType(information) == raw[1] && IsReportType(raw[1])
            && information.report.availabilityMask == raw[2]
            && 4 * |information.report.records| == |raw| - 3
  {
    if |raw| >= 3 && raw[0] == RESPONSE_SID {
      RecordsFailExactly(raw, 3);
      if ParseDtcRecords(raw, 3).Success? {
        WrapExactly(raw[1], DtcReport(raw[2], ParseDtcRecords(raw, 3).value), DtcCount(0, ISO_14229_1, 0));
      }
    }
  }

  /** What the list parser makes of an accepted frame, in terms of its bytes. */
  lemma ReportParts(raw: seq<byte>, information: DtcInformation)
    requires ParseReport(raw).Success? && IsReportType(ReportType(information))
    ensures ParseReport(raw) == Success(information)
       <==> && ReportType(information) == raw[1] && information.report.availabilityMask == raw[2]
            && ParseDtcRecords(raw, 3) == Success(information.report.records)
  {
    var records := ParseDtcRecords(raw, 3).value;
    WrapExactly(raw[1], DtcReport(raw[2], records), DtcCount(0, ISO_14229_1, 0));
    if ReportType(information) == raw[1] && information.report == DtcReport(raw[2], records) {
      SameReport(ParseReport(raw).value, information);
    }
  }

  lemma EncodeReportParts(raw: seq<byte>, information: DtcInformation)
    requires IsReportType(ReportType(information))
    ensures EncodeReport(information) == raw
       <==> && |raw| >= 3 && raw[0] == RESPONSE_SID && raw[1] == ReportType(information)
            && raw[2] == information.report.availabilityMask
            && raw[3..] == EncodeDtcRecords(information.report.records)
  {
  }

  /** The list parser inverts the encoding, and the encoding the parser: byte for byte, record for record. */
  lemma ReportBijection(raw: seq<byte>, information: DtcInformation)
    ensures ParseReport(raw) == Success(information)
       <==> && IsReportType(ReportType(information))
            && Are24Bit(information.report.records)
            && EncodeReport(information) == raw
  {
    ReportAcceptsExactly(raw);
    if IsReportType(ReportType(information)) {
      EncodeReportParts(raw, information);
      if |raw| >= 3 && raw[0] == RESPONSE_SID && IsReportType(raw[1]) {
        RecordsExactly(raw, 3, information.report.records);
        RecordsFailExactly(raw, 3);
        if ParseReport(raw).Success? {
          ReportParts(raw, information);
        }
      }
    }
  }

  /** The order in which the list parser finds fault with a frame of at least three bytes. */
  lemma ReportErrorPrecedence(raw: seq<byte>)
    requires |raw| >= 3 && raw[0] == RESPONSE_SID
    ensures ParseReport(raw) == Failure(InvalidLength(raw)) <==> (|raw| - 3) % 4 != 0
    ensures ParseReport(raw) == Failure(ResponseIncorrect(raw)) <==> (|raw| - 3) % 4 == 0 && !IsSubFunction(raw[1])
    ensures ParseReport(raw) == Failure(InvalidArgument)
       <==> (|raw| - 3) % 4 == 0 && IsSubFunction(raw[1]) && !IsReportType(raw[1])
  {
    RecordsFailExactly(raw, 3);
    if ParseDtcRecords(raw, 3).Success? {
      WrapExactly(raw[1], DtcReport(raw[2], ParseDtcRecords(raw, 3).value), DtcCount(0, ISO_14229_1, 0));
    }
  }

  /** Which error the list parser reports, for every frame. */
  lemma ReportRejectedExactly(raw: seq<byte>, e: UdsError)
    ensures ParseReport(raw) == Failure(e)
       <==> if raw == [] then e == ResponseEmpty
            else if raw[0] != 0x59 then e == SidMismatch(0x59, raw[0], raw)
            else if |raw| < 3 || (|raw| - 3) % 4 != 0 then e == InvalidLength(raw)
            else if !IsSubFunction(raw[1]) then e == ResponseIncorrect(raw)
            else !IsReportType(raw[1]) && e == InvalidArgument
  {
    if |raw| >= 3 && raw[0] == 0x59 {
      ReportErrorPrecedence(raw);
      ReportAcceptsExactly(raw);
    }
  }

  // ----- the number of trouble codes

  /** The count parser accepts exactly the frames that start with the encoding of a count. */
  lemma CountExactly(raw: seq<byte>, information: DtcInformation)
    ensures ParseCount(raw) == Success(information)
       <==> IsCountType(ReportType(information)) && EncodeCount(information) <= raw
  {
    if |raw| >= 6 && raw[0] == RESPONSE_SID && FormatFromByte(raw[3]).Some? {
      var count := DtcCount(raw[2], FormatFromByte(raw[3]).value, Word(raw[4], raw[5]));
      WrapExactly(raw[1], DtcReport(0, []), count);
      assert raw[..6] == [raw[0], raw[1], raw[2], raw[3], raw[4], raw[5]];
      if IsCountType(ReportType(information)) && ReportType(information) == raw[1] && information.count == count {
        SameReport(ParseCount(raw).value, information);
      }
    }
  }

  /** Which frames the count parser accepts; bytes behind the sixth do not matter. */
  lemma CountAcceptsExactly(raw: seq<byte>)
    ensures ParseCount(raw).Success?
       <==> |raw| >= 6 && raw[0] == RESPONSE_SID && IsCountType(raw[1]) && raw[3] <= 4
    ensures ParseCount(raw).Success? ==> ReportType(ParseCount(raw).value) == raw[1] && IsCountType(raw[1])
  {
    if |raw| >= 6 && raw[0] == RESPONSE_SID && FormatFromByte(raw[3]).Some? {
      var count := DtcCount(raw[2], FormatFromByte(raw[3]).value, Word(raw[4], raw[5]));
      WrapExactly(raw[1], DtcReport(0, []), count);
    }
  }

  /** Which error the count parser reports, for every frame, in the order in which it reads the bytes. */
  lemma CountRejectedExactly(raw: seq<byte>, e: UdsError)
    ensures ParseCount(raw) == Failure(e)
       <==> if raw == [] then e == ResponseEmpty
            else if raw[0] != 0x59 then e == SidMismatch(0x59, raw[0], raw)
            else if |raw| == 1 then e == InvalidLength(raw)
            else if !IsSubFunction(raw[1]) then e == ResponseIncorrect(raw)
            else if |raw| < 4 then e == InvalidLength(raw)
            else if raw[3] > 4 then e == ResponseIncorrect(raw)
            else if |raw| < 6 then e == InvalidLength(raw)
            else !IsCountType(raw[1]) && e == InvalidArgument
  {
    if |raw| >= 2 {
      var high, low := if |raw| >= 6 then raw[4] else 0, if |raw| >= 6 then raw[5] else 0;
      var format := if |raw| >= 4 && FormatFromByte(raw[3]).Some? then FormatFromByte(raw[3]).value else ISO_14229_1;
      WrapExactly(raw[1], DtcReport(0, []), DtcCount(if |raw| >= 3 then raw[2] else 0, format, Word(high, low)));
    }
  }

  /** No frame is both a list and a count. */
  lemma ListsAreNotCounts(raw: seq<byte>)
    ensures !(ParseReport(raw).Success? && ParseCount(raw).Success?)
  {
    ReportAcceptsExactly(raw);
    if ParseCount(raw).Success? {
      CountExactly(raw, ParseCount(raw).value);
    }
  }

  // ----- requests

  /** The requests give back the sub-function, the status mask, the low 24 bits of the code and the record number. */
  lemma RequestsDecode(f: SubFunction, mask: byte, dtcMask: uint32, recordNumber: byte)
    ensures SubFunctionFromByte(SubFunctionByte(f)) == Some(f)
    ensures ComposeByStatusMask(f, mask)[1..] == [SubFunctionByte(f), mask]
    ensures ComposeShort(f)[1..] == [SubFunctionByte(f)]
    ensures var frame := ComposeByDtcNumber(f, dtcMask, recordNumber);
            && |frame| == 6 && frame[1] == SubFunctionByte(f) && frame[5] == recordNumber
            && Dtc(frame[2], frame[3], frame[4]) == dtcMask % 0x100_0000
  {
    Low24Bits(dtcMask);
  }
}
