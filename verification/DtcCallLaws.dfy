/** What the trouble code calls return, and when it is not what they asked for. */
module DtcCallLaws {
  import opened Bytes
  import opened UdsDefinitions
  import opened UdsTypes
  import opened Exchange
  import opened ExchangeTheorems
  import opened Calls
  import opened CallLaws
  import ReadDtc
  import ReadDtcLaws

  /** The calls whose response is parsed as trouble code information, and the report type each asks for. */
  predicate AsksForReport(call: Call) { call.CountDtcs? || call.ListDtcs? || call.MostRecentConfirmedDtc? }

  function AskedType(call: Call): byte
    requires AsksForReport(call)
  {
    match call
    case CountDtcs(_) => 0x01
    case ListDtcs(_) => 0x02
    case MostRecentConfirmedDtc => 0x0E
  }

  /** The frames such a call accepts. */
  predicate AcceptsReport(call: Call, raw: seq<byte>)
    requires AsksForReport(call)
  {
    if call.CountDtcs? then
      |raw| >= 6 && raw[0] == ReadDtc.RESPONSE_SID && ReadDtcLaws.IsCountType(raw[1]) && raw[3] <= 4
    else
      |raw| >= 3 && raw[0] == ReadDtc.RESPONSE_SID && ReadDtcLaws.IsReportType(raw[1]) && (|raw| - 3) % 4 == 0
  }

  lemma AskedTypeIsSent(call: Call)
    requires AsksForReport(call)
    ensures RequestOf(call).Success? && |RequestOf(call).value| >= 2 && RequestOf(call).value[1] == AskedType(call)
  {
  }

  lemma ReportIsParsed(call: Call, raw: seq<byte>)
    requires AsksForReport(call)
    ensures ParseFor(call, raw).Ready? <==> AcceptsReport(call, raw)
    ensures ParseFor(call, raw).Ready? ==>
            var response := ParseFor(call, raw).value;
            && response.ReadDTCInformation? && response.information.Parsed?
            && ReadDtcLaws.ReportType(response.information.parsed) == raw[1]
  {
    if call.CountDtcs? {
      ReadDtcLaws.CountAcceptsExactly(raw);
    } else {
      ReadDtcLaws.ReportAcceptsExactly(raw);
    }
  }

  /**
   * The report type returned is the one of the frame that the link determines, so it is the one asked
   * for exactly when that frame has it; and a call returns another type exactly on the links whose
   * frame is accepted with another type.
   */
  lemma ReportTypeExactly(call: Call, link: Link, t: byte)
    requires AsksForReport(call)
    ensures var run := Perform(call, Wire(link, [])); var expected := Expected(Sid(call), RETRY_START, link).0;
            (&& run.outcome.Ready? && run.outcome.value.ReadDTCInformation? && run.outcome.value.information.Parsed?
             && ReadDtcLaws.ReportType(run.outcome.value.information.parsed) == t)
            <==> expected.Ready? && AcceptsReport(call, expected.value) && expected.value[1] == t
    ensures RequestOf(call).Success? && |RequestOf(call).value| >= 2 && RequestOf(call).value[1] == AskedType(call)
  {
    AskedTypeIsSent(call);
    CallExactly(call, link);
    var expected := Expected(Sid(call), RETRY_START, link).0;
    if expected.Ready? {
      ReportIsParsed(call, expected.value);
    }
  }

  /** Every trouble code call returns every type its parser accepts, whichever it asked for. */
  lemma AnyAcceptedTypeIsReturned(call: Call, raw: seq<byte>, more: seq<Arrival>)
    requires AsksForReport(call) && AcceptsReport(call, raw)
    ensures var run := Perform(call, Wire(Link([Frame(raw)] + more, []), []));
            && run.outcome.Ready? && run.outcome.value.ReadDTCInformation? && run.outcome.value.information.Parsed?
            && ReadDtcLaws.ReportType(run.outcome.value.information.parsed) == raw[1]
            && run.outcome == ParseFor(call, raw)
  {
    var link := Link([Frame(raw)] + more, []);
    CallExactly(call, link);
    ClassifyExactly(raw, 0, PositiveResponse, 0);
    assert Expected(Sid(call), RETRY_START, link).0 == Ready(raw) by {
      assert !IsBusy(raw, Sid(call)) && !IsPending(raw, Sid(call));
    }
    ReportTypeExactly(call, link, raw[1]);
  }

  /** A list asked for by status mask comes back as the most recent code. */
  lemma WrongListIsReturned(mask: byte)
    ensures Perform(ListDtcs(mask), Wire(Link([Frame([0x59, 0x0E, 0xFF])], []), [])).outcome
         == Ready(ReadDTCInformation(Parsed(ReportMostRecentConfirmedDTC(DtcReport(0xFF, [])))))
  {
    AnyAcceptedTypeIsReturned(ListDtcs(mask), [0x59, 0x0E, 0xFF], []);
  }

  /** The most recent code comes back as a list by status mask. */
  lemma WrongRecentIsReturned()
    ensures Perform(MostRecentConfirmedDtc, Wire(Link([Frame([0x59, 0x02, 0xFF])], []), [])).outcome
         == Ready(ReadDTCInformation(Parsed(ReportDTCByStatusMask(DtcReport(0xFF, [])))))
  {
    AnyAcceptedTypeIsReturned(MostRecentConfirmedDtc, [0x59, 0x02, 0xFF], []);
  }

  /** A count by status mask comes back as a count by severity. */
  lemma WrongCountIsReturned(mask: byte)
    ensures Perform(CountDtcs(mask), Wire(Link([Frame([0x59, 0x07, 0xFF, 0x01, 0x00, 0x02])], []), [])).outcome
         == Ready(ReadDTCInformation(Parsed(ReportNumberOfDTCBySeverityMaskRecord(DtcCount(0xFF, ISO_14229_1, 2)))))
  {
    AnyAcceptedTypeIsReturned(CountDtcs(mask), [0x59, 0x07, 0xFF, 0x01, 0x00, 0x02], []);
  }

  /** A trouble code list is the frame decoded, of whichever of the nine report types that frame has. */
  lemma DtcListIsTheFrame(call: Call, link: Link)
    requires call.ListDtcs? || call.MostRecentConfirmedDtc?
    ensures var run := Perform(call, Wire(link, []));
            run.outcome.Ready? ==>
              && run.wire.log != [] && Last(run.wire.log).Received? && |Last(run.wire.log).frame| >= 3
              && Expected(Sid(call), RETRY_START, link).0 == Ready(Last(run.wire.log).frame)
              && run.outcome.value.ReadDTCInformation? && run.outcome.value.information.Parsed?
              && var information := run.outcome.value.information.parsed;
              && ReadDtcLaws.IsReportType(ReadDtcLaws.ReportType(information))
              && ReadDtcLaws.EncodeReport(information) == Last(run.wire.log).frame
              && (ReadDtcLaws.ReportType(information) == AskedType(call)
                  <==> Last(run.wire.log).frame[1] == AskedType(call))
              && (information.ReportDTCByStatusMask? <==> Last(run.wire.log).frame[1] == 0x02)
  {
    var run := Perform(call, Wire(link, []));
    OnlyPositiveResponsesSucceed(call, link);
    if run.outcome.Ready? {
      SuccessfulFrame(call, link);
      ReadDtcLaws.ReportBijection(Last(run.wire.log).frame, run.outcome.value.information.parsed);
    }
  }

  /** A trouble code count is what the frame starts with, of whichever of the four count types that frame has. */
  lemma DtcCountIsTheFrame(mask: byte, link: Link)
    ensures var run := Perform(CountDtcs(mask), Wire(link, []));
            run.outcome.Ready? ==>
              && run.wire.log != [] && Last(run.wire.log).Received? && |Last(run.wire.log).frame| >= 6
              && Expected(Sid(CountDtcs(mask)), RETRY_START, link).0 == Ready(Last(run.wire.log).frame)
              && run.outcome.value.ReadDTCInformation? && run.outcome.value.information.Parsed?
              && var information := run.outcome.value.information.parsed;
              && ReadDtcLaws.IsCountType(ReadDtcLaws.ReportType(information))
              && ReadDtcLaws.EncodeCount(information) <= Last(run.wire.log).frame
              && (ReadDtcLaws.ReportType(information) == 0x01 <==> Last(run.wire.log).frame[1] == 0x01)
  {
    var run := Perform(CountDtcs(mask), Wire(link, []));
    OnlyPositiveResponsesSucceed(CountDtcs(mask), link);
    if run.outcome.Ready? {
      SuccessfulFrame(CountDtcs(mask), link);
      ReadDtcLaws.CountExactly(Last(run.wire.log).frame, run.outcome.value.information.parsed);
    }
  }
}
