/** What holds of every run of the exchange, whatever the link does. */
module ExchangeLaws {
  import opened Bytes
  import opened Options
  import opened UdsDefinitions
  import opened UdsTypes
  import opened Exchange

  /** The exchange on a link on which nothing has been done yet. */
  function Fresh(request: seq<byte>, start: int32, link: Link): Run<seq<byte>> {
    SendAndReceive(request, start, Wire(link, []))
  }

  // ----- the past does not matter

  lemma LinkAfter(payload: seq<byte>, wire: Wire, past: seq<Action>)
    ensures var late := wire.(log := past + wire.log);
            && Transmit(payload, late) == Transmit(payload, wire).Following(past)
            && Listen(late) == Listen(wire).Following(past)
            && ListenBriefly(late) == ListenBriefly(wire).Following(past)
  {
  }

  lemma {:induction false} AttemptAfter(request: seq<byte>, retry: int32, wire: Wire, past: seq<Action>)
    requires request != []
    ensures Attempt(request, retry, wire.(log := past + wire.log)) == Attempt(request, retry, wire).Following(past)
    decreases Remaining(retry), 1
  {
    var sent := Transmit(request, wire);
    LinkAfter(request, wire, past);
    if sent.outcome.Ready? {
      var reply := Listen(sent.wire);
      LinkAfter(request, sent.wire, past);
      if reply.outcome.Ready? {
        ReactAfter(request, retry, reply.outcome.value, reply.wire, past);
      }
    }
  }

  lemma {:induction false} ReactAfter(request: seq<byte>, retry: int32, raw: seq<byte>, wire: Wire, past: seq<Action>)
    requires request != []
    ensures React(request, retry, raw, wire.(log := past + wire.log))
         == React(request, retry, raw, wire).Following(past)
    decreases Remaining(retry), 0
  {
    LinkAfter(request, wire, past);
    if Decrement(retry) != 0 {
      AttemptAfter(request, Decrement(retry), wire, past);
    }
  }

  /** What has been done on the wire before does not influence the exchange and stays on record. */
  lemma PastIsKept(request: seq<byte>, start: int32, wire: Wire)
    ensures SendAndReceive(request, start, wire) == Fresh(request, start, wire.link).Following(wire.log)
  {
    if request == [] {
      assert wire.log + [] == wire.log;
    } else {
      AttemptAfter(request, start, Wire(wire.link, []), wire.log);
      assert wire.log + [] == wire.log;
    }
  }

  /** The wire after one send that succeeded and one reply. */
  function Round(request: seq<byte>, link: Link): Run<seq<byte>> {
    Listen(Transmit(request, Wire(link, [])).wire)
  }

  /** The link lets one send and one receive succeed. */
  predicate Replies(request: seq<byte>, link: Link) {
    Transmit(request, Wire(link, [])).outcome.Ready? && Round(request, link).outcome.Ready?
  }

  /** The link makes the client go round again. */
  predicate Repeats(request: seq<byte>, retry: int32, link: Link)
    requires request != []
  {
    && Replies(request, link)
    && IsBusy(Round(request, link).outcome.value, request[0])
    && Decrement(retry) != 0
  }

  /** A run that goes round again is that round and then a run of its own. */
  lemma GoesRoundAgain(request: seq<byte>, retry: int32, link: Link)
    requires request != [] && Repeats(request, retry, link)
    ensures var round := Round(request, link);
            && round.wire.log == [Sent(request), Received(round.outcome.value)]
            && Fresh(request, retry, link)
            == Fresh(request, Decrement(retry), round.wire.link).Following(round.wire.log)
  {
    var round := Round(request, link);
    var raw := round.outcome.value;
    ClassifyExactly(raw, request[0], BusyRepeatRequest, 0);
    assert Fresh(request, retry, link) == React(request, retry, raw, round.wire);
    assert React(request, retry, raw, round.wire) == Attempt(request, Decrement(retry), round.wire);
    PastIsKept(request, Decrement(retry), round.wire);
  }

  /** The outcome that a reply other than a matching 0x21 or 0x78 decides at once. */
  function Final(sid: byte, raw: seq<byte>): Await<seq<byte>> {
    match Classify(raw)
    case Success(_) => Ready(raw)
    case Failure(NRC(nrc)) =>
      if nrc.rejectedSid == sid then Failed(NRC(nrc)) else Failed(SidMismatch(sid, nrc.rejectedSid, raw))
    case Failure(e) => Failed(e)
  }

  /** The wait after a 0x78: the delayed frame is passed on as it is. */
  function Delayed(sid: byte, wire: Wire): Run<seq<byte>> {
    var delayed := ListenBriefly(wire);
    Run(match delayed.outcome
        case Ready(Some(frame)) => Ready(frame)
        case Ready(None) => Failed(NRC(NrcData(sid, RequestCorrectlyReceivedResponsePending)))
        case other => other.PropagateFailure(),
        delayed.wire)
  }

  /** What a run comes to when its first round is its last. */
  function LastRound(request: seq<byte>, link: Link): Run<seq<byte>>
    requires request != []
  {
    var sid, sent, round := request[0], Transmit(request, Wire(link, [])), Round(request, link);
    if !sent.outcome.Ready? then Run(sent.outcome.PropagateFailure(), sent.wire)
    else if !round.outcome.Ready? then round
    else if IsBusy(round.outcome.value, sid) then Run(Failed(NRC(NrcData(sid, BusyRepeatRequest))), round.wire)
    else if IsPending(round.outcome.value, sid) then Delayed(sid, round.wire)
    else Run(Final(sid, round.outcome.value), round.wire)
  }

  lemma StopsAfterRound(request: seq<byte>, start: int32, link: Link)
    requires request != [] && !Repeats(request, start, link)
    ensures Fresh(request, start, link) == LastRound(request, link)
  {
    if Replies(request, link) {
      var round := Round(request, link);
      ClassifyExactly(round.outcome.value, request[0], BusyRepeatRequest, 0);
      ClassifyExactly(round.outcome.value, request[0], RequestCorrectlyReceivedResponsePending, 0);
      assert Fresh(request, start, link) == React(request, start, round.outcome.value, round.wire);
    }
  }

  // ----- the shape of every run

  predicate IsSend(action: Action) { action.Sent? || action.SendFailed? }

  predicate IsReceive(action: Action) { !IsSend(action) }

  /**
   * Rounds of a send and a busy reply, then either a failed send or one more round. Only a 0x78
   * reply lets one more receive follow, whose frame is not looked at.
   */
  predicate Protocol(request: seq<byte>, log: seq<Action>)
    requires request != []
  {
    if |log| < 2 then |log| == 1 && log[0].SendFailed? && log[0].frame == request
    else
      && log[0] == Sent(request)
      && IsReceive(log[1])
      && if log[1].Received? && IsBusy(log[1].frame, request[0]) then
           |log| == 2 || Protocol(request, log[2..])
         else if log[1].Received? && IsPending(log[1].frame, request[0]) then
           |log| == 3 && (log[2].Received? || log[2].ReceiveFailed? || log[2].TimedOut?)
         else
           |log| == 2 && !log[1].TimedOut?
  }

  lemma {:induction false} EveryRunFollowsProtocol(request: seq<byte>, start: int32, link: Link)
    requires request != []
    ensures Protocol(request, Fresh(request, start, link).wire.log)
    decreases Remaining(start)
  {
    if Repeats(request, start, link) {
      GoesRoundAgain(request, start, link);
      var round := Round(request, link);
      var rest := Fresh(request, Decrement(start), round.wire.link);
      EveryRunFollowsProtocol(request, Decrement(start), round.wire.link);
      assert (round.wire.log + rest.wire.log)[2..] == rest.wire.log;
    } else {
      StopsAfterRound(request, start, link);
    }
  }
}
