/** What a caller can rely on, end to end, whatever the link does. */
module CallLaws {
  import opened Bytes
  import opened Options
  import opened UdsDefinitions
  import opened UdsTypes
  import opened Exchange
  import opened ExchangeLaws
  import opened ExchangeTheorems
  import opened TraceLaws
  import opened Verdicts
  import opened Services
  import opened Calls
  import ReadData
  import ReadDataLaws
  import ReadMemory
  import ReadDtc
  import ReadDtcLaws

  function Last(log: seq<Action>): Action
    requires log != []
  {
    log[|log| - 1]
  }

  lemma RequestsStartWithSid(call: Call)
    requires RequestOf(call).Success?
    ensures RequestOf(call).value != [] && RequestOf(call).value[0] == Sid(call)
  {
  }

  /** Every parser checks the service of the response before anything else. */
  lemma ParsersCheckSid(call: Call)
    ensures ChecksSid(Parser(call), Sid(call))
  {
    assert !ParseFor(call, []).Ready? && !IsMismatch(ParseFor(call, []));
    forall raw: seq<byte> | raw != []
      ensures if raw[0] == Sid(call) + SEND_RECEIVE_SID_OFFSET then !IsMismatch(ParseFor(call, raw))
              else ParseFor(call, raw) == Failed(SidMismatch(Sid(call) + SEND_RECEIVE_SID_OFFSET, raw[0], raw))
    {
      if raw[0] == Sid(call) + SEND_RECEIVE_SID_OFFSET {
        OwnFramesAreNoMismatch(call, raw);
      }
    }
  }

  lemma OwnFramesAreNoMismatch(call: Call, raw: seq<byte>)
    requires raw != [] && raw[0] == Sid(call) + SEND_RECEIVE_SID_OFFSET
    ensures !IsMismatch(ParseFor(call, raw))
  {
    match call
    case ReadDids(dids) =>
      if |dids| == 1 {
        TupleErrors(Single(dids[0]), raw);
      }
    case ReadTuple(specs) => TupleErrors(specs, raw);
    case ListDtcs(_) => ListErrors(raw);
    case MostRecentConfirmedDtc => ListErrors(raw);
    case _ =>
  }

  lemma TupleErrors(specs: seq<ReadData.DidSpec>, raw: seq<byte>)
    requires raw != [] && raw[0] == ReadData.RESPONSE_SID
    ensures ReadData.ParseTuple(specs, raw).Failure? ==> !ReadData.ParseTuple(specs, raw).error.SidMismatch?
  {
    if ReadData.ParseTuple(specs, raw).Failure? {
      ReadDataLaws.FailsExactly(specs, raw, ReadData.ParseTuple(specs, raw).error);
    }
  }

  lemma ListErrors(raw: seq<byte>)
    requires raw != [] && raw[0] == ReadDtc.RESPONSE_SID
    ensures ReadDtc.ParseReport(raw).Failure? ==> !ReadDtc.ParseReport(raw).error.SidMismatch?
  {
    if |raw| >= 3 {
      ReadDtcLaws.RecordsFailExactly(raw, 3);
    }
  }

  /** Only the memory reads have a parser that panics, and only on the empty frame. */
  lemma ParsersThatPanic(call: Call)
    ensures Parser(call)([]).Panicked? <==> call.ReadMemoryRaw? || call.ReadMemorySimplified?
    ensures forall raw :: raw != [] ==> !Parser(call)(raw).Panicked?
  {
    forall raw: seq<byte> | raw != []
      ensures !ParseFor(call, raw).Panicked?
    {
    }
  }

  /** What has been done on the wire before does not influence a call. */
  lemma CallPastIsKept(call: Call, wire: Wire)
    ensures Perform(call, wire) == Perform(call, Wire(wire.link, [])).Following(wire.log)
  {
    if RequestOf(call).Success? {
      ServicePastIsKept(RequestOf(call).value, Parser(call), wire);
    } else {
      assert wire.log + [] == wire.log;
    }
  }

  /**
   * For every call and everything the link may do: a response is returned only if the last frame
   * received is a positive response to the service asked for, and it is what that frame parses to.
   */
  lemma OnlyPositiveResponsesSucceed(call: Call, link: Link)
    ensures var run := Perform(call, Wire(link, [])); var log := run.wire.log;
            run.outcome.Ready? ==>
              && log != [] && Last(log).Received?
              && Last(log).frame != [] && Last(log).frame[0] == Sid(call) + SEND_RECEIVE_SID_OFFSET
              && run.outcome == ParseFor(call, Last(log).frame)
  {
    if Perform(call, Wire(link, [])).outcome.Ready? {
      RequestsStartWithSid(call);
      ParsersCheckSid(call);
      var raw := OnlyPositiveResponses(RequestOf(call).value, Parser(call), link);
    }
  }

  /** Everything a call sends is its request; a call without one sends nothing. */
  lemma OnlyTheRequestIsSent(call: Call, link: Link, i: nat)
    requires i < |Perform(call, Wire(link, [])).wire.log| && IsSend(Perform(call, Wire(link, [])).wire.log[i])
    ensures RequestOf(call) == Success(Perform(call, Wire(link, [])).wire.log[i].frame)
  {
    if RequestOf(call).Success? {
      EveryRunAccounts(RequestOf(call).value, RETRY_START, link);
    }
  }

  /** What a call makes of what its exchange comes to. */
  function Parsing(call: Call, exchange: Await<seq<byte>>): Await<UdsResponse> {
    if exchange.Ready? then ParseFor(call, exchange.value) else exchange.PropagateFailure()
  }

  /** The outcome of a call in terms of its link alone. */
  function Outcome(call: Call, link: Link): Await<UdsResponse> {
    match RequestOf(call)
    case Failure(e) => Failed(e)
    case Success(_) => Parsing(call, Expected(Sid(call), RETRY_START, link).0)
  }

  /** Every call on every link: the parsed frame of the closed form of the exchange, or its failure. */
  lemma CallExactly(call: Call, link: Link)
    ensures Perform(call, Wire(link, [])).outcome == Outcome(call, link)
  {
    if RequestOf(call).Success? {
      RequestsStartWithSid(call);
      ServeExactly(RequestOf(call).value, Parser(call), link);
    }
  }

  /** The frame a successful call parses is the one its log ends with and the one the link determines. */
  lemma SuccessfulFrame(call: Call, link: Link)
    requires Perform(call, Wire(link, [])).outcome.Ready?
    ensures var log := Perform(call, Wire(link, [])).wire.log;
            log != [] && Last(log).Received? && Expected(Sid(call), RETRY_START, link).0 == Ready(Last(log).frame)
  {
    RequestsStartWithSid(call);
    OutcomeExactly(RequestOf(call).value, RETRY_START, link);
    EveryOutcomeIsJustified(RequestOf(call).value, RETRY_START, link);
  }

  /**
   * For every call: a frame that starts with 0x7F, a second 0x78 included, surfaces as a mismatch of
   * services exactly on the links that bring it in time behind a matching 0x78, and always there.
   */
  lemma DelayedNegativeIsMismatch(call: Call, link: Link, delayed: seq<byte>)
    requires delayed != [] && delayed[0] == NEGATIVE_RESPONSE_SID
    ensures var run := Perform(call, Wire(link, []));
            run.outcome == Failed(SidMismatch(Sid(call) + SEND_RECEIVE_SID_OFFSET, NEGATIVE_RESPONSE_SID, delayed))
            <==> RequestOf(call).Success? && WaitsFor(Sid(call), RETRY_START, link, Frame(delayed))
    ensures var run := Perform(call, Wire(link, []));
            AfterPending(Sid(call), run.wire.log, Received(delayed)) ==>
            run.outcome == Failed(SidMismatch(Sid(call) + SEND_RECEIVE_SID_OFFSET, NEGATIVE_RESPONSE_SID, delayed))
  {
    if RequestOf(call).Success? {
      RequestsStartWithSid(call);
      ParsersCheckSid(call);
      DelayedNegative(RequestOf(call).value, Parser(call), link, delayed);
    }
  }

  /** Every negative response to any call, a second 0x78 included, is lost that way behind a first 0x78. */
  lemma NegativeBehindPendingIsLost(call: Call, code: NegativeResponseCode, more: seq<Arrival>)
    requires RequestOf(call).Success?
    ensures var pending := [NEGATIVE_RESPONSE_SID, Sid(call), NrcByte(RequestCorrectlyReceivedResponsePending)];
            var negative := [NEGATIVE_RESPONSE_SID, Sid(call), NrcByte(code)];
            Perform(call, Wire(PendingThen(pending, negative, more), [])).outcome
            == Failed(SidMismatch(Sid(call) + SEND_RECEIVE_SID_OFFSET, NEGATIVE_RESPONSE_SID, negative))
  {
    var pending := [NEGATIVE_RESPONSE_SID, Sid(call), NrcByte(RequestCorrectlyReceivedResponsePending)];
    var negative := [NEGATIVE_RESPONSE_SID, Sid(call), NrcByte(code)];
    PendingWaits(Sid(call), pending, negative, more);
    DelayedNegativeIsMismatch(call, PendingThen(pending, negative, more), negative);
  }

  /**
   * A call panics exactly when it reads memory, sends its request, and the link brings an empty frame
   * in time behind a matching 0x78; the log then shows it.
   */
  lemma PanicsExactly(call: Call, link: Link)
    ensures Perform(call, Wire(link, [])).outcome.Panicked?
       <==> && (call.ReadMemoryRaw? || call.ReadMemorySimplified?)
            && RequestOf(call).Success? && WaitsFor(Sid(call), RETRY_START, link, Frame([]))
    ensures var run := Perform(call, Wire(link, []));
            run.outcome.Panicked?
            <==> && (call.ReadMemoryRaw? || call.ReadMemorySimplified?)
                 && AfterPending(Sid(call), run.wire.log, Received([]))
  {
    if RequestOf(call).Success? {
      RequestsStartWithSid(call);
      ParsersThatPanic(call);
      ServicePanicsExactly(RequestOf(call).value, Parser(call), link);
    }
  }

  // ----- what the responses of the services mean

  /** A structured read returns the records that the last frame carries, in answer to the specs. */
  lemma TupleReadIsTheFrame(specs: seq<ReadData.DidSpec>, link: Link, records: seq<DataRecord>)
    requires Perform(ReadTuple(specs), Wire(link, [])).outcome == Ready(ReadDataByIdentifier(Parsed(records)))
    ensures var log := Perform(ReadTuple(specs), Wire(link, [])).wire.log;
            && log != [] && Last(log).Received?
            && ReadDataLaws.Answers(records, specs) && ReadDataLaws.Carries(Last(log).frame, specs, records)
  {
    OnlyPositiveResponsesSucceed(ReadTuple(specs), link);
    var raw := Last(Perform(ReadTuple(specs), Wire(link, [])).wire.log).frame;
    ReadDataLaws.ParsesExactly(specs, raw, records);
  }

  /** Every frame that a successful structured read sent asks, in order, for the identifiers of its records. */
  lemma TupleReadAnswersRequest(specs: seq<ReadData.DidSpec>, link: Link, records: seq<DataRecord>, i: nat)
    requires Perform(ReadTuple(specs), Wire(link, [])).outcome == Ready(ReadDataByIdentifier(Parsed(records)))
    requires var log := Perform(ReadTuple(specs), Wire(link, [])).wire.log; i < |log| && IsSend(log[i])
    ensures var frame := Perform(ReadTuple(specs), Wire(link, [])).wire.log[i].frame;
            frame != [] && ReadData.DecodeDids(frame[1..]) == Some(ReadDataLaws.Identifiers(records))
  {
    OnlyTheRequestIsSent(ReadTuple(specs), link, i);
    OnlyPositiveResponsesSucceed(ReadTuple(specs), link);
    var raw := Last(Perform(ReadTuple(specs), Wire(link, [])).wire.log).frame;
    ReadDataLaws.ResponseAnswersRequest(specs, raw, records);
  }

  /** Reading a single identifier returns one record with all the data of the last frame. */
  lemma SingleReadTakesAll(did: uint16, link: Link)
    ensures var run := Perform(ReadDids([did]), Wire(link, []));
            run.outcome.Ready? ==>
              && run.wire.log != [] && Last(run.wire.log).Received?
              && var raw := Last(run.wire.log).frame;
              && |raw| >= 3 && raw[..3] == [ReadData.RESPONSE_SID] + ReadData.EncodeDid(did)
              && run.outcome.value == ReadDataByIdentifier(Parsed([DataRecord(did, raw[3..])]))
  {
    var run := Perform(ReadDids([did]), Wire(link, []));
    OnlyPositiveResponsesSucceed(ReadDids([did]), link);
    if run.outcome.Ready? {
      ReadDataLaws.SingleWildcard(did, Last(run.wire.log).frame);
    }
  }

  /** Whatever comes of a memory read, every frame it sends asks for exactly the range it was called with. */
  lemma MemoryReadAsksForRange(address: uint64, size: uint64, addressLen: Option<byte>, sizeLen: Option<byte>,
                               link: Link, i: nat)
    requires var log := Perform(ReadMemorySimplified(address, size, addressLen, sizeLen), Wire(link, [])).wire.log;
             i < |log| && IsSend(log[i])
    ensures var log := Perform(ReadMemorySimplified(address, size, addressLen, sizeLen), Wire(link, [])).wire.log;
            ReadMemory.DecodeRequest(log[i].frame) == Some(ReadMemory.MemoryRange(address, size))
  {
    var call := ReadMemorySimplified(address, size, addressLen, sizeLen);
    OnlyTheRequestIsSent(call, link, i);
    RequestAsksForRange(address, size, addressLen, sizeLen, Perform(call, Wire(link, [])).wire.log[i].frame);
  }

  lemma RequestAsksForRange(address: uint64, size: uint64, addressLen: Option<byte>, sizeLen: Option<byte>,
                            frame: seq<byte>)
    requires RequestOf(ReadMemorySimplified(address, size, addressLen, sizeLen)) == Success(frame)
    ensures ReadMemory.DecodeRequest(frame) == Some(ReadMemory.MemoryRange(address, size))
  {
    var converted := ReadMemory.Convert(address, size, addressLen, sizeLen);
    assert converted.Success? && frame == ReadMemory.Formulate(converted.value);
    ReadMemory.MemoryRoundTrip(address, size, addressLen, sizeLen);
  }

  /** The reads that do not look into the response return all of the last frame but its first byte. */
  lemma PayloadIsReturned(call: Call, link: Link)
    requires call.ReadMemoryRaw? || call.ReadMemorySimplified? || call.DtcSnapshot? || call.DtcExtendedData?
          || (call.ReadDids? && |call.dids| != 1)
    ensures var run := Perform(call, Wire(link, []));
            run.outcome.Ready? ==>
              && run.wire.log != [] && Last(run.wire.log).Received? && Last(run.wire.log).frame != []
              && var payload := Last(run.wire.log).frame[1..];
              && match run.outcome.value
                 case ReadMemoryByAddress(memory) => memory == payload
                 case ReadDataByIdentifier(Raw(raw)) => raw == payload
                 case ReadDTCInformation(Raw(raw)) => raw == payload
                 case _ => false
  {
    OnlyPositiveResponsesSucceed(call, link);
  }

  /** An empty frame behind a 0x78 and any number of 0x21 below the bound makes every memory read panic. */
  lemma EmptyDelayedFramePanics(call: Call, replies: seq<seq<byte>>, pending: seq<byte>, more: seq<Arrival>)
    requires call.ReadMemoryRaw? || call.ReadMemorySimplified?
    requires RequestOf(call).Success? && IsPending(pending, Sid(call))
    requires |replies| < Remaining(RETRY_START)
    requires forall i :: 0 <= i < |replies| ==> IsBusy(replies[i], Sid(call))
    ensures Perform(call, Wire(Preceded(replies, PendingThen(pending, [], more)), [])).outcome == Panicked
  {
    RequestsStartWithSid(call);
    PendingThenParsed(RequestOf(call).value, Parser(call), replies, pending, [], more);
  }
}
