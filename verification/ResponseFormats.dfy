/**
 * What each call makes of a frame, byte by byte as ISO 14229-1:2013 lays it out, without recourse to the
 * functions that parse it.
 */
module ResponseFormats {
  import opened Bytes
  import opened Options
  import opened UdsTypes
  import opened Exchange
  import opened ExchangeTheorems
  import opened Calls
  import opened CallLaws
  import RequestFormats
  import ReadData
  import ReadDataLaws
  import ReadDtc
  import ReadDtcLaws
  import OtherServices

  /** The first byte of a positive response. */
  function PositiveSid(call: Call): byte {
    match call
    case ReadDids(_) => 0x62
    case ReadTuple(_) => 0x62
    case ReadMemoryRaw(_) => 0x63
    case ReadMemorySimplified(_, _, _, _) => 0x63
    case Reset(_) => 0x51
    case Session(_) => 0x50
    case ClearDtcs(_) => 0x54
    case WriteDid(_, _) => 0x6E
    case _ => 0x59
  }

  // ----- records of identifiers

  /** From `pos` on lie the records for the specs from `i` on: identifier, data, and so on. */
  predicate RecordsLie(specs: seq<ReadData.DidSpec>, i: nat, raw: seq<byte>, pos: nat, records: seq<DataRecord>)
    requires i <= |specs| == |records|
    decreases |specs| - i
  {
    i == |specs| ||
    (var next := pos + 2 + |records[i].data|;
     && next <= |raw|
     && raw[pos] == specs[i].did / 0x100 && raw[pos + 1] == specs[i].did % 0x100
     && records[i] == DataRecord(specs[i].did, raw[pos + 2..next])
     && (if specs[i].len == 0xFFFF_FFFF then next == |raw| else |records[i].data| == specs[i].len)
     && RecordsLie(specs, i + 1, raw, next, records))
  }

  // ----- trouble codes

  /** The records behind the third byte, four bytes each. */
  predicate CodesLie(raw: seq<byte>, records: seq<DtcAndStatusRecord>) {
    && |raw| == 3 + 4 * |records|
    && forall i :: 0 <= i < |records| ==>
         && records[i].dtc / 0x1_0000 == raw[3 + 4 * i] && records[i].dtc / 0x100 % 0x100 == raw[4 + 4 * i]
         && records[i].dtc % 0x100 == raw[5 + 4 * i] && records[i].statusOfDtc == raw[6 + 4 * i]
  }

  predicate IsList(raw: seq<byte>, information: DtcInformation) {
    && |raw| >= 3 && ReadDtcLaws.ReportType(information) == raw[1] && ReadDtcLaws.IsReportType(raw[1])
    && information.report.availabilityMask == raw[2] && CodesLie(raw, information.report.records)
  }

  predicate IsCount(raw: seq<byte>, information: DtcInformation) {
    && |raw| >= 6 && ReadDtcLaws.ReportType(information) == raw[1] && ReadDtcLaws.IsCountType(raw[1])
    && information.count.availabilityMask == raw[2] && ReadDtcLaws.FormatByte(information.count.format) == raw[3]
    && information.count.count / 0x100 == raw[4] && information.count.count % 0x100 == raw[5]
  }

  // ----- every call

  /** The frame, a positive response to the call, means the response. */
  predicate Means(call: Call, raw: seq<byte>, response: UdsResponse) {
    && raw != [] && raw[0] == PositiveSid(call)
    && match call
       case ReadDids(dids) =>
         if |dids| == 1 then
           && |raw| >= 3 && raw[1] == dids[0] / 0x100 && raw[2] == dids[0] % 0x100
           && response == ReadDataByIdentifier(Parsed([DataRecord(dids[0], raw[3..])]))
         else response == ReadDataByIdentifier(Raw(raw[1..]))
       case ReadTuple(specs) =>
         && response.ReadDataByIdentifier? && response.records.Parsed? && |response.records.parsed| == |specs|
         && RecordsLie(specs, 0, raw, 1, response.records.parsed)
       case ReadMemoryRaw(_) => response == ReadMemoryByAddress(raw[1..])
       case ReadMemorySimplified(_, _, _, _) => response == ReadMemoryByAddress(raw[1..])
       case CountDtcs(_) =>
         response.ReadDTCInformation? && response.information.Parsed? && IsCount(raw, response.information.parsed)
       case ListDtcs(_) =>
         response.ReadDTCInformation? && response.information.Parsed? && IsList(raw, response.information.parsed)
       case MostRecentConfirmedDtc =>
         response.ReadDTCInformation? && response.information.Parsed? && IsList(raw, response.information.parsed)
       case DtcSnapshot(_, _) => response == ReadDTCInformation(Raw(raw[1..]))
       case DtcExtendedData(_, _) => response == ReadDTCInformation(Raw(raw[1..]))
       case Reset(_) =>
         && response.EcuReset? && |raw| >= 2 && RequestFormats.ResetNumber(response.resetType) == raw[1]
         && (if raw[1] == 0x04 then |raw| >= 3 && response.powerDownTime == Some(raw[2])
             else response.powerDownTime == None)
       case Session(_) =>
         && |raw| >= 6 && response.DiagnosticSessionControl? && response.session == raw[1]
         && response.p2 / 0x100 == raw[2] && response.p2 % 0x100 == raw[3]
         && response.p2Star / 0x100 == raw[4] && response.p2Star % 0x100 == raw[5]
       case ClearDtcs(_) => response == UdsResponse.ClearDiagnosticInformation
       case WriteDid(_, _) =>
         && |raw| >= 3 && response.WriteDataByIdentifier?
         && response.dataIdentifier / 0x100 == raw[1] && response.dataIdentifier % 0x100 == raw[2]
  }

  // ----- and how it fails

  predicate WrongDid(expected: uint16, high: byte, low: byte, raw: seq<byte>, e: UdsError) {
    && e.DidMismatch? && e.expectedDid == expected && e.rawMessage == raw
    && e.receivedDid / 0x100 == high && e.receivedDid % 0x100 == low
  }

  /** The first of the records from spec `i` on that is missing, cut off or of another identifier. */
  predicate RecordFails(specs: seq<ReadData.DidSpec>, i: nat, raw: seq<byte>, pos: nat, e: UdsError)
    requires i <= |specs|
    decreases |specs| - i
  {
    && i < |specs|
    && if pos + 2 > |raw| then e == InvalidLength(raw)
       else if raw[pos] != specs[i].did / 0x100 || raw[pos + 1] != specs[i].did % 0x100 then
         WrongDid(specs[i].did, raw[pos], raw[pos + 1], raw, e)
       else
         var next := if specs[i].len == 0xFFFF_FFFF then |raw| else pos + 2 + specs[i].len;
         if next > |raw| then e == InvalidLength(raw) else RecordFails(specs, i + 1, raw, next, e)
  }

  /** The frame makes the call fail with the error. */
  predicate Rejects(call: Call, raw: seq<byte>, e: UdsError) {
    if raw == [] then
      match call
      case ReadMemoryRaw(_) => false
      case ReadMemorySimplified(_, _, _, _) => false
      case ReadTuple(_) => e == InvalidLength([])
      case ReadDids(dids) => e == if |dids| == 1 then InvalidLength([]) else ResponseEmpty
      case _ => e == ResponseEmpty
    else if raw[0] != PositiveSid(call) then e == SidMismatch(PositiveSid(call), raw[0], raw)
    else
      match call
      case ReadDids(dids) =>
        && |dids| == 1
        && if |raw| < 3 then e == InvalidLength(raw)
           else (raw[1] != dids[0] / 0x100 || raw[2] != dids[0] % 0x100) && WrongDid(dids[0], raw[1], raw[2], raw, e)
      case ReadTuple(specs) => RecordFails(specs, 0, raw, 1, e)
      case CountDtcs(_) =>
        if |raw| == 1 then e == InvalidLength(raw)
        else if !ReadDtcLaws.IsSubFunction(raw[1]) then e == ResponseIncorrect(raw)
        else if |raw| < 4 then e == InvalidLength(raw)
        else if raw[3] > 4 then e == ResponseIncorrect(raw)
        else if |raw| < 6 then e == InvalidLength(raw)
        else !ReadDtcLaws.IsCountType(raw[1]) && e == InvalidArgument
      case ListDtcs(_) => RejectsList(raw, e)
      case MostRecentConfirmedDtc => RejectsList(raw, e)
      case Reset(_) =>
        if |raw| == 1 || (raw[1] == 0x04 && |raw| == 2) then e == InvalidLength(raw)
        else !(0x01 <= raw[1] <= 0x05) && e == ResponseIncorrect(raw)
      case Session(_) => |raw| < 6 && e == InvalidLength(raw)
      case WriteDid(_, _) => |raw| < 3 && e == InvalidLength(raw)
      case _ => false
  }

  predicate RejectsList(raw: seq<byte>, e: UdsError) {
    if |raw| < 3 || (|raw| - 3) % 4 != 0 then e == InvalidLength(raw)
    else if !ReadDtcLaws.IsSubFunction(raw[1]) then e == ResponseIncorrect(raw)
    else !ReadDtcLaws.IsReportType(raw[1]) && e == InvalidArgument
  }

  // ----- records of identifiers

  lemma {:induction false} RecordsLieExactly(specs: seq<ReadData.DidSpec>, i: nat, raw: seq<byte>, pos: nat,
                                             records: seq<DataRecord>)
    requires i <= |specs| == |records| && pos <= |raw|
    ensures ReadData.ParseRecords(specs, i, raw, pos) == Success(records[i..])
       <==> RecordsLie(specs, i, raw, pos, records)
    decreases |specs| - i
  {
    if i < |specs| {
      var next := pos + 2 + |records[i].data|;
      if next <= |raw| {
        RecordsLieExactly(specs, i + 1, raw, next, records);
      }
      FirstRecord(specs, i, raw, pos, records[i], records[i + 1..]);
      assert records[i..] == [records[i]] + records[i + 1..];
      DidExactly(raw, pos, specs[i].did);
    } else {
      assert records[i..] == [];
    }
  }

  /** The first of the records, and the others from its end on. */
  lemma FirstRecord(specs: seq<ReadData.DidSpec>, i: nat, raw: seq<byte>, pos: nat,
                    record: DataRecord, others: seq<DataRecord>)
    requires i < |specs| && pos <= |raw|
    ensures var next := pos + 2 + |record.data|;
            ReadData.ParseRecords(specs, i, raw, pos) == Success([record] + others)
            <==> && ReadDataLaws.Fits(specs[i], raw, pos) && next == ReadDataLaws.End(specs[i], raw, pos)
                 && record == DataRecord(specs[i].did, raw[pos + 2..next])
                 && ReadData.ParseRecords(specs, i + 1, raw, next) == Success(others)
  {
    if ReadDataLaws.Fits(specs[i], raw, pos) {
      var end := ReadDataLaws.End(specs[i], raw, pos);
      var rest := ReadData.ParseRecords(specs, i + 1, raw, end);
      var found := DataRecord(specs[i].did, raw[pos + 2..end]);
      assert |found.data| == end - pos - 2;
      if rest.Success? {
        assert ([found] + rest.value)[1..] == rest.value && ([record] + others)[1..] == others;
        assert ([found] + rest.value)[0] == found && ([record] + others)[0] == record;
      }
    }
  }

  lemma DidExactly(raw: seq<byte>, pos: nat, did: uint16)
    requires pos <= |raw|
    ensures pos + 2 <= |raw| ==>
              (Word(raw[pos], raw[pos + 1]) == did <==> raw[pos] == did / 0x100 && raw[pos + 1] == did % 0x100)
  {
  }

  // ----- trouble codes

  lemma {:induction false} CodesLieFrom(raw: seq<byte>, i: nat, records: seq<DtcAndStatusRecord>)
    requires i <= |records| && 3 + 4 * i <= |raw|
    ensures ReadDtc.ParseDtcRecords(raw, 3 + 4 * i) == Success(records[i..])
       <==> && |raw| == 3 + 4 * |records|
            && forall j :: i <= j < |records| ==>
                 && records[j].dtc / 0x1_0000 == raw[3 + 4 * j] && records[j].dtc / 0x100 % 0x100 == raw[4 + 4 * j]
                 && records[j].dtc % 0x100 == raw[5 + 4 * j] && records[j].statusOfDtc == raw[6 + 4 * j]
    decreases |records| - i
  {
    var pos := 3 + 4 * i;
    ReadDtcLaws.RecordsFailExactly(raw, pos);
    if i == |records| {
      assert records[i..] == [];
    } else if pos + 4 <= |raw| {
      CodesLieFrom(raw, i + 1, records);
      CodeExactly(raw[pos], raw[pos + 1], raw[pos + 2], records[i].dtc);
      FirstCode(raw, pos, records[i], records[i + 1..]);
      assert records[i..] == [records[i]] + records[i + 1..];
    }
  }

  lemma CodeExactly(high: byte, middle: byte, low: byte, dtc: uint32)
    ensures ReadDtc.Dtc(high, middle, low) == dtc
       <==> dtc / 0x1_0000 == high && dtc / 0x100 % 0x100 == middle && dtc % 0x100 == low
  {
    ReadDtcLaws.Reassembled(high, middle, low, dtc);
  }

  lemma FirstCode(raw: seq<byte>, pos: nat, record: DtcAndStatusRecord, others: seq<DtcAndStatusRecord>)
    requires pos + 4 <= |raw|
    ensures ReadDtc.ParseDtcRecords(raw, pos) == Success([record] + others)
       <==> && record == DtcAndStatusRecord(ReadDtc.Dtc(raw[pos], raw[pos + 1], raw[pos + 2]), raw[pos + 3])
            && ReadDtc.ParseDtcRecords(raw, pos + 4) == Success(others)
  {
    var rest := ReadDtc.ParseDtcRecords(raw, pos + 4);
    var found := DtcAndStatusRecord(ReadDtc.Dtc(raw[pos], raw[pos + 1], raw[pos + 2]), raw[pos + 3]);
    if rest.Success? {
      assert ([found] + rest.value)[1..] == rest.value && ([record] + others)[1..] == others;
      assert ([found] + rest.value)[0] == found && ([record] + others)[0] == record;
    }
  }

  lemma ListExactly(raw: seq<byte>, information: DtcInformation)
    ensures ReadDtc.ParseReport(raw) == Success(information)
       <==> raw != [] && raw[0] == 0x59 && IsList(raw, information)
  {
    ReadDtcLaws.ReportAcceptsExactly(raw);
    if |raw| >= 3 && raw[0] == 0x59 && ReadDtcLaws.IsReportType(ReadDtcLaws.ReportType(information)) {
      var records := information.report.records;
      CodesLieFrom(raw, 0, records);
      assert records[0..] == records;
      ReadDtcLaws.RecordsFailExactly(raw, 3);
      if ReadDtc.ParseReport(raw).Success? {
        ReadDtcLaws.ReportParts(raw, information);
      }
    }
  }

  lemma NumberExactly(raw: seq<byte>, information: DtcInformation)
    ensures ReadDtc.ParseCount(raw) == Success(information)
       <==> raw != [] && raw[0] == 0x59 && IsCount(raw, information)
  {
    ReadDtcLaws.CountExactly(raw, information);
  }

  // ----- every call

  lemma {:induction false} RecordFailsExactly(specs: seq<ReadData.DidSpec>, i: nat, raw: seq<byte>, pos: nat,
                                              e: UdsError)
    requires i <= |specs| && pos <= |raw|
    ensures ReadData.ParseRecords(specs, i, raw, pos) == Failure(e) <==> RecordFails(specs, i, raw, pos, e)
    decreases |specs| - i
  {
    if i < |specs| && pos + 2 <= |raw| {
      DidExactly(raw, pos, specs[i].did);
      var next := if specs[i].len == 0xFFFF_FFFF then |raw| else pos + 2 + specs[i].len;
      if next <= |raw| {
        RecordFailsExactly(specs, i + 1, raw, next, e);
      }
      if e.DidMismatch? {
        DidExactly(raw, pos, e.receivedDid);
      }
    }
  }

  lemma SingleExactly(did: uint16, raw: seq<byte>, response: UdsResponse, e: UdsError)
    requires raw != [] && raw[0] == 0x62
    ensures Structured(Single(did), raw) == Success(response)
       <==> && |raw| >= 3 && raw[1] == did / 0x100 && raw[2] == did % 0x100
            && response == ReadDataByIdentifier(Parsed([DataRecord(did, raw[3..])]))
    ensures Structured(Single(did), raw) == Failure(e)
       <==> if |raw| < 3 then e == InvalidLength(raw)
            else (raw[1] != did / 0x100 || raw[2] != did % 0x100) && WrongDid(did, raw[1], raw[2], raw, e)
  {
    RecordFailsExactly(Single(did), 0, raw, 1, e);
    if |raw| >= 3 {
      DidExactly(raw, 1, did);
      assert ReadData.ParseRecords(Single(did), 1, raw, |raw|) == Success([]);
      assert [DataRecord(did, raw[3..])] + [] == [DataRecord(did, raw[3..])];
      assert raw[3..|raw|] == raw[3..];
    }
  }

  lemma TupleExactly(specs: seq<ReadData.DidSpec>, raw: seq<byte>, response: UdsResponse)
    requires raw != [] && raw[0] == 0x62
    ensures Structured(specs, raw) == Success(response)
       <==> && response.ReadDataByIdentifier? && response.records.Parsed? && |response.records.parsed| == |specs|
            && RecordsLie(specs, 0, raw, 1, response.records.parsed)
  {
    if ReadData.ParseTuple(specs, raw).Success? {
      ReadDataLaws.ParsesExactly(specs, raw, ReadData.ParseTuple(specs, raw).value);
    }
    if response.ReadDataByIdentifier? && response.records.Parsed? && |response.records.parsed| == |specs| {
      RecordsLieExactly(specs, 0, raw, 1, response.records.parsed);
      assert response.records.parsed[0..] == response.records.parsed;
    }
  }

  predicate IsRead(call: Call) {
    call.ReadDids? || call.ReadTuple? || call.ReadMemoryRaw? || call.ReadMemorySimplified?
  }

  predicate IsFixed(call: Call) { call.Reset? || call.Session? || call.ClearDtcs? || call.WriteDid? }

  lemma ReadResponseExactly(call: Call, raw: seq<byte>, response: UdsResponse)
    requires IsRead(call) && raw != [] && raw[0] == PositiveSid(call)
    ensures ParseFor(call, raw) == Ready(response) <==> Means(call, raw, response)
  {
    match call
    case ReadDids(dids) =>
      if |dids| == 1 {
        SingleExactly(dids[0], raw, response, ResponseEmpty);
      }
    case ReadTuple(specs) => TupleExactly(specs, raw, response);
    case _ =>
  }

  lemma FixedResponseExactly(call: Call, raw: seq<byte>, response: UdsResponse)
    requires IsFixed(call) && raw != [] && raw[0] == PositiveSid(call)
    ensures ParseFor(call, raw) == Ready(response) <==> Means(call, raw, response)
  {
  }

  lemma CodesResponseExactly(call: Call, raw: seq<byte>, response: UdsResponse)
    requires !IsRead(call) && !IsFixed(call) && raw != [] && raw[0] == 0x59
    ensures ParseFor(call, raw) == Ready(response) <==> Means(call, raw, response)
  {
    if response.ReadDTCInformation? && response.information.Parsed? {
      NumberExactly(raw, response.information.parsed);
      ListExactly(raw, response.information.parsed);
    }
  }

  /** For every call and every frame: what the call returns for the frame is what the frame means. */
  lemma ResponseExactly(call: Call, raw: seq<byte>, response: UdsResponse)
    ensures ParseFor(call, raw) == Ready(response) <==> Means(call, raw, response)
  {
    ParsersCheckSid(call);
    assert ParseFor(call, raw) == Parser(call)(raw);
    if raw != [] && raw[0] == PositiveSid(call) {
      if IsRead(call) {
        ReadResponseExactly(call, raw, response);
      } else if IsFixed(call) {
        FixedResponseExactly(call, raw, response);
      } else {
        CodesResponseExactly(call, raw, response);
      }
    }
  }

  lemma ReadRejectionExactly(call: Call, raw: seq<byte>, e: UdsError)
    requires IsRead(call)
    ensures ParseFor(call, raw) == Failed(e) <==> Rejects(call, raw, e)
  {
    match call
    case ReadDids(dids) =>
      if |dids| == 1 && raw != [] && raw[0] == 0x62 {
        SingleExactly(dids[0], raw, UdsResponse.ClearDiagnosticInformation, e);
      }
    case ReadTuple(specs) =>
      if raw != [] {
        RecordFailsExactly(specs, 0, raw, 1, e);
      }
    case _ =>
  }

  lemma FixedRejectionExactly(call: Call, raw: seq<byte>, e: UdsError)
    requires IsFixed(call)
    ensures ParseFor(call, raw) == Failed(e) <==> Rejects(call, raw, e)
  {
    OtherServices.RejectedExactly(raw, e);
  }

  /** For every call and every frame: how the call fails on the frame. */
  lemma RejectionExactly(call: Call, raw: seq<byte>, e: UdsError)
    ensures ParseFor(call, raw) == Failed(e) <==> Rejects(call, raw, e)
  {
    if IsRead(call) {
      ReadRejectionExactly(call, raw, e);
    } else if IsFixed(call) {
      FixedRejectionExactly(call, raw, e);
    } else {
      ReadDtcLaws.CountRejectedExactly(raw, e);
      ReadDtcLaws.ReportRejectedExactly(raw, e);
    }
  }

  /** On every link: a call returns a response exactly if it can be sent and the frame it comes to means that. */
  lemma CallReturnsExactly(call: Call, link: Link, response: UdsResponse)
    ensures var exchange := Expected(Sid(call), RETRY_START, link).0;
            Perform(call, Wire(link, [])).outcome == Ready(response)
            <==> RequestOf(call).Success? && exchange.Ready? && Means(call, exchange.value, response)
  {
    CallExactly(call, link);
    var exchange := Expected(Sid(call), RETRY_START, link).0;
    if exchange.Ready? {
      ResponseExactly(call, exchange.value, response);
    }
  }

  /** On every link: a call fails for want of a request, as its exchange does, or as the frame it comes to says. */
  lemma CallFailsExactly(call: Call, link: Link, e: UdsError)
    ensures var exchange := Expected(Sid(call), RETRY_START, link).0;
            Perform(call, Wire(link, [])).outcome == Failed(e)
            <==> if RequestOf(call).Failure? then e == InvalidArgument
                 else exchange == Failed(e) || (exchange.Ready? && Rejects(call, exchange.value, e))
  {
    CallExactly(call, link);
    if RequestOf(call).Failure? {
      RequestFormats.NoRequestExactly(call, RequestOf(call).error);
    }
    var exchange := Expected(Sid(call), RETRY_START, link).0;
    if exchange.Ready? {
      RejectionExactly(call, exchange.value, e);
    }
  }
}
