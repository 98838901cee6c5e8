/**
 * Any service: a request, the exchange, and a parser that checks the service of the response first.
 * The laws hold for every such parser, and for everything the link may do.
 */
module Services {
  import opened Bytes
  import opened UdsDefinitions
  import opened UdsTypes
  import opened Exchange
  import opened ExchangeLaws
  import opened ExchangeTheorems
  import opened TraceLaws
  import opened Verdicts

  function Serve<T>(request: seq<byte>, parse: seq<byte> -> Await<T>, wire: Wire): Run<T> {
    var exchange := SendAndReceive(request, RETRY_START, wire);
    if exchange.outcome.IsFailure() then Run(exchange.outcome.PropagateFailure(), exchange.wire)
    else Run(parse(exchange.outcome.value), exchange.wire)
  }

  predicate IsMismatch<T>(outcome: Await<T>) { outcome.Failed? && outcome.error.SidMismatch? }

  /** The parser rejects the frames of foreign services, and no others, as a mismatch with both identifiers. */
  ghost predicate ChecksSid<T>(parse: seq<byte> -> Await<T>, sid: byte)
    requires sid < 0x80
  {
    && !parse([]).Ready? && !IsMismatch(parse([]))
    && forall raw :: raw != [] ==>
         if raw[0] == sid + SEND_RECEIVE_SID_OFFSET then !IsMismatch(parse(raw))
         else parse(raw) == Failed(SidMismatch(sid + SEND_RECEIVE_SID_OFFSET, raw[0], raw))
  }

  /** The last thing done was to receive `raw`. */
  predicate EndsWith(log: seq<Action>, raw: seq<byte>) {
    log != [] && log[|log| - 1] == Received(raw)
  }

  /** What has been done on the wire before does not influence a call. */
  lemma ServicePastIsKept<T>(request: seq<byte>, parse: seq<byte> -> Await<T>, wire: Wire)
    ensures Serve(request, parse, wire) == Serve(request, parse, Wire(wire.link, [])).Following(wire.log)
  {
    PastIsKept(request, RETRY_START, wire);
  }

  /**
   * A response is returned only if the last frame received is a positive response to the service
   * asked for, and it is what the parser makes of that frame.
   */
  lemma OnlyPositiveResponses<T>(request: seq<byte>, parse: seq<byte> -> Await<T>, link: Link) returns (raw: seq<byte>)
    requires request != [] && request[0] < 0x80 && ChecksSid(parse, request[0])
    requires Serve(request, parse, Wire(link, [])).outcome.Ready?
    ensures EndsWith(Serve(request, parse, Wire(link, [])).wire.log, raw)
    ensures raw != [] && raw[0] == request[0] + SEND_RECEIVE_SID_OFFSET
    ensures parse(raw) == Serve(request, parse, Wire(link, [])).outcome
  {
    EveryOutcomeIsJustified(request, RETRY_START, link);
    raw := Fresh(request, RETRY_START, link).outcome.value;
  }

  /** The frame that arrives after a 0x78 is passed to the parser, whatever it is. */
  lemma DelayedIsParsed<T>(request: seq<byte>, parse: seq<byte> -> Await<T>, link: Link, delayed: seq<byte>)
    requires request != []
    requires AfterPending(request[0], Serve(request, parse, Wire(link, [])).wire.log, Received(delayed))
    ensures Serve(request, parse, Wire(link, [])).outcome == parse(delayed)
  {
    EveryOutcomeIsJustified(request, RETRY_START, link);
    var run := Fresh(request, RETRY_START, link);
    DelayedFrameIsReturned(request, run.outcome, run.wire.log, delayed);
  }

  /** The outcome of a service in terms of the link: what the parser makes of the frame the exchange comes to. */
  lemma ServeExactly<T>(request: seq<byte>, parse: seq<byte> -> Await<T>, link: Link)
    requires request != []
    ensures var expected := Expected(request[0], RETRY_START, link).0;
            Serve(request, parse, Wire(link, [])).outcome
            == if expected.Ready? then parse(expected.value) else expected.PropagateFailure()
  {
    OutcomeExactly(request, RETRY_START, link);
  }

  /**
   * A frame that starts with 0x7F surfaces as a mismatch of services exactly on the links on which it
   * arrives in time behind a matching 0x78; and that is what becomes of every such frame there.
   */
  lemma DelayedNegative<T>(request: seq<byte>, parse: seq<byte> -> Await<T>, link: Link, delayed: seq<byte>)
    requires request != [] && request[0] < 0x80 && request[0] != 0x3F && ChecksSid(parse, request[0])
    requires delayed != [] && delayed[0] == NEGATIVE_RESPONSE_SID
    ensures var run := Serve(request, parse, Wire(link, []));
            run.outcome == Failed(SidMismatch(request[0] + SEND_RECEIVE_SID_OFFSET, NEGATIVE_RESPONSE_SID, delayed))
            <==> WaitsFor(request[0], RETRY_START, link, Frame(delayed))
    ensures var run := Serve(request, parse, Wire(link, []));
            AfterPending(request[0], run.wire.log, Received(delayed)) ==>
            run.outcome == Failed(SidMismatch(request[0] + SEND_RECEIVE_SID_OFFSET, NEGATIVE_RESPONSE_SID, delayed))
  {
    var exchange := Fresh(request, RETRY_START, link).outcome;
    HandsOnUnclassifiedExactly(request, RETRY_START, link, delayed);
    if IsMismatch(exchange) {
      var error := exchange.error;
      MismatchExactly(request, RETRY_START, link, error.expected, error.received, error.rawMessage);
    }
    if AfterPending(request[0], Serve(request, parse, Wire(link, [])).wire.log, Received(delayed)) {
      DelayedIsParsed(request, parse, link, delayed);
    }
  }

  /**
   * A call whose parser panics on nothing but the empty frame panics exactly when it does panic on
   * that and the link brings an empty frame in time behind a matching 0x78; the log then shows it.
   */
  lemma ServicePanicsExactly<T>(request: seq<byte>, parse: seq<byte> -> Await<T>, link: Link)
    requires request != []
    requires forall raw :: raw != [] ==> !parse(raw).Panicked?
    ensures var run := Serve(request, parse, Wire(link, []));
            run.outcome.Panicked? <==> parse([]).Panicked? && WaitsFor(request[0], RETRY_START, link, Frame([]))
    ensures var run := Serve(request, parse, Wire(link, []));
            run.outcome.Panicked? <==> parse([]).Panicked? && AfterPending(request[0], run.wire.log, Received([]))
  {
    var run := Serve(request, parse, Wire(link, []));
    HandsOnUnclassifiedExactly(request, RETRY_START, link, []);
    EveryOutcomeIsJustified(request, RETRY_START, link);
    if AfterPending(request[0], run.wire.log, Received([])) {
      DelayedIsParsed(request, parse, link, []);
    }
  }

  /** A reply that says to wait, a frame that follows in time, and anything after that. */
  function PendingThen(pending: seq<byte>, delayed: seq<byte>, more: seq<Arrival>): Link {
    Link([Frame(pending), Frame(delayed)] + more, [])
  }

  lemma PendingWaits(sid: byte, pending: seq<byte>, delayed: seq<byte>, more: seq<Arrival>)
    requires IsPending(pending, sid)
    ensures WaitsFor(sid, RETRY_START, PendingThen(pending, delayed, more), Frame(delayed))
  {
    BusyIsNotPending(pending, sid);
  }

  /** Whatever comes in time after a 0x78 and, before that, any number of 0x21 below the bound, is parsed. */
  lemma PendingThenParsed<T>(request: seq<byte>, parse: seq<byte> -> Await<T>, replies: seq<seq<byte>>,
                             pending: seq<byte>, delayed: seq<byte>, more: seq<Arrival>)
    requires request != [] && IsPending(pending, request[0])
    requires |replies| < Remaining(RETRY_START)
    requires forall i :: 0 <= i < |replies| ==> IsBusy(replies[i], request[0])
    ensures var run := Serve(request, parse, Wire(Preceded(replies, PendingThen(pending, delayed, more)), []));
            run.outcome == parse(delayed) && run.wire.link.arrivals == more
  {
    var link := PendingThen(pending, delayed, more);
    assert !IsBusy(pending, request[0]);
    BusyRepliesAreInvisible(request, RETRY_START, replies, link);
    assert Round(request, link).outcome == Ready(pending);
    assert link.arrivals[1..] == [Frame(delayed)] + more;
    StopsAfterRound(request, RETRY_START, link);
  }
}
