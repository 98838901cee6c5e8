/**
 * The request/response exchange as a function of what the link does: every run over every
 * sequence of arrivals and send failures, with the trace of what the client did.
 */
module Exchange {
  import opened Bytes
  import opened Options
  import opened UdsDefinitions
  import opened UdsTypes

  /** What the link brings in. `Silence` is a gap longer than the wait after a 0x78. */
  datatype Arrival = Frame(frame: seq<byte>) | Fault(error: UdsCommunicationError) | Silence

  /**
   * Everything that will still arrive, and the outcome of the coming sends. Once `arrivals` has
   * run out the link is silent for ever; once `sendFaults` has run out every send succeeds.
   */
  datatype Link = Link(arrivals: seq<Arrival>, sendFaults: seq<Option<UdsCommunicationError>>)

  datatype Action =
    | Sent(frame: seq<byte>)
    | SendFailed(frame: seq<byte>, error: UdsCommunicationError)
    | Received(frame: seq<byte>)
    | ReceiveFailed(error: UdsCommunicationError)
    | TimedOut
    | StillWaiting

  /** A link together with everything the client has done on it. */
  datatype Wire = Wire(link: Link, log: seq<Action>)
  {
    function Heard(arrivals: seq<Arrival>, action: Action): Wire {
      Wire(link.(arrivals := arrivals), log + [action])
    }
  }

  /** What a call comes to, and the wire it leaves behind. */
  datatype Run<+T> = Run(outcome: Await<T>, wire: Wire)
  {
    /** The same run, on a wire on which `past` had been done before. */
    function Following(past: seq<Action>): Run<T> {
      this.(wire := wire.(log := past + wire.log))
    }

    lemma FollowingBoth(first: seq<Action>, second: seq<Action>)
      ensures Following(second).Following(first) == Following(first + second)
    {
    }
  }

  // ----- the link

  function Transmit(payload: seq<byte>, wire: Wire): Run<()> {
    var faults := wire.link.sendFaults;
    var link := wire.link.(sendFaults := if faults == [] then [] else faults[1..]);
    if faults != [] && faults[0].Some? then
      Run(Failed(CommunicationError(faults[0].value)),
          Wire(link, wire.log + [SendFailed(payload, faults[0].value)]))
    else Run(Ready(()), Wire(link, wire.log + [Sent(payload)]))
  }

  /** A receive without a timeout sits through any silence. */
  function AfterSilence(arrivals: seq<Arrival>): (heard: seq<Arrival>)
    ensures heard != [] ==> !heard[0].Silence?
  {
    if arrivals != [] && arrivals[0].Silence? then AfterSilence(arrivals[1..]) else arrivals
  }

  function Listen(wire: Wire): Run<seq<byte>> {
    var heard := AfterSilence(wire.link.arrivals);
    if heard == [] then Run(Blocked, wire.Heard([], StillWaiting))
    else
      match heard[0]
      case Frame(f) => Run(Ready(f), wire.Heard(heard[1..], Received(f)))
      case Fault(e) => Run(Failed(CommunicationError(e)), wire.Heard(heard[1..], ReceiveFailed(e)))
  }

  /** A receive that gives up on silence; the inner `None` is the timeout. */
  function ListenBriefly(wire: Wire): Run<Option<seq<byte>>> {
    var arrivals := wire.link.arrivals;
    if arrivals == [] then Run(Ready(None), wire.Heard([], TimedOut))
    else
      match arrivals[0]
      case Frame(f) => Run(Ready(Some(f)), wire.Heard(arrivals[1..], Received(f)))
      case Fault(e) => Run(Failed(CommunicationError(e)), wire.Heard(arrivals[1..], ReceiveFailed(e)))
      case Silence => Run(Ready(None), wire.Heard(arrivals[1..], TimedOut))
  }

  // ----- classification of a frame

  function Classify(raw: seq<byte>): Result<()> {
    if raw == [] then Failure(ResponseEmpty)
    else if raw[0] != NEGATIVE_RESPONSE_SID then Success(())
    else if |raw| < 3 then Failure(ResponseEmpty)
    else
      match NrcFromByte(raw[2])
      case Some(code) => Failure(NRC(NrcData(raw[1], code)))
      case None => Failure(UnknownNRC(raw[1], raw[2]))
  }

  method ParseForError(raw: seq<byte>) returns (r: Result<()>)
    ensures r == Classify(raw)
  {
    var pos := 0;
    var sid :- OkOr(Next(raw, pos), ResponseEmpty);
    pos := pos + 1;
    if sid != NEGATIVE_RESPONSE_SID {
      return Success(());
    }
    var rejectedSid :- OkOr(Next(raw, pos), ResponseEmpty);
    pos := pos + 1;
    var codeByte :- OkOr(Next(raw, pos), ResponseEmpty);
    var code :- OkOr(NrcFromByte(codeByte), UnknownNRC(rejectedSid, codeByte));
    return Failure(NRC(NrcData(rejectedSid, code)));
  }

  /** `raw` is a negative response: 0x7F, the rejected service, the code; more may follow. */
  predicate IsNegative(raw: seq<byte>, sid: byte, code: NegativeResponseCode) {
    |raw| >= 3 && raw[0] == NEGATIVE_RESPONSE_SID && raw[1] == sid && raw[2] == NrcByte(code)
  }

  predicate IsBusy(raw: seq<byte>, sid: byte) { IsNegative(raw, sid, BusyRepeatRequest) }

  predicate IsPending(raw: seq<byte>, sid: byte) {
    IsNegative(raw, sid, RequestCorrectlyReceivedResponsePending)
  }

  /** Which frames get which verdict, for all frames and all codes. */
  lemma ClassifyExactly(raw: seq<byte>, sid: byte, code: NegativeResponseCode, unknown: byte)
    ensures Classify(raw).Success? <==> raw != [] && raw[0] != NEGATIVE_RESPONSE_SID
    ensures Classify(raw) == Failure(ResponseEmpty)
       <==> raw == [] || (raw[0] == NEGATIVE_RESPONSE_SID && |raw| < 3)
    ensures Classify(raw) == Failure(NRC(NrcData(sid, code))) <==> IsNegative(raw, sid, code)
    ensures Classify(raw) == Failure(UnknownNRC(sid, unknown))
       <==> && |raw| >= 3 && raw[..3] == [NEGATIVE_RESPONSE_SID, sid, unknown]
            && forall c :: NrcByte(c) != unknown
  {
    if |raw| >= 3 {
      NrcFromByteExactly(raw[2], code);
      forall c ensures NrcFromByte(raw[2]) == Some(c) <==> NrcByte(c) == raw[2] {
        NrcFromByteExactly(raw[2], c);
      }
    }
  }

  // ----- the retry counter, in wrapping 32-bit arithmetic

  const RETRY_START: int32 := 0

  function Decrement(retry: int32): int32 {
    if retry == -0x8000_0000 then 0x7FFF_FFFF else retry - 1
  }

  /** How many decrements it takes to bring the counter to zero; at least one. */
  function Remaining(retry: int32): (n: nat)
    ensures 1 <= n <= 0x1_0000_0000
  {
    if retry > 0 then retry else retry + 0x1_0000_0000
  }

  // ----- the exchange

  /** One send, the wait for its reply, and all that follows from the reply. */
  function Attempt(request: seq<byte>, retry: int32, wire: Wire): Run<seq<byte>>
    requires request != []
    decreases Remaining(retry), 1
  {
    var sent := Transmit(request, wire);
    if sent.outcome.IsFailure() then Run(sent.outcome.PropagateFailure(), sent.wire)
    else
      var reply := Listen(sent.wire);
      if reply.outcome.IsFailure() then reply
      else React(request, retry, reply.outcome.value, reply.wire)
  }

  /** What is done about a reply that was asked for by a send. */
  function React(request: seq<byte>, retry: int32, raw: seq<byte>, wire: Wire): Run<seq<byte>>
    requires request != []
    decreases Remaining(retry), 0
  {
    match Classify(raw)
    case Success(_) => Run(Ready(raw), wire)
    case Failure(NRC(nrc)) =>
      if nrc.rejectedSid != request[0] then
        Run(Failed(SidMismatch(request[0], nrc.rejectedSid, raw)), wire)
      else if nrc.code == BusyRepeatRequest then
        var retry' := Decrement(retry);
        if retry' == 0 then Run(Failed(NRC(nrc)), wire) else Attempt(request, retry', wire)
      else if nrc.code == RequestCorrectlyReceivedResponsePending then
        var delayed := ListenBriefly(wire);
        if delayed.outcome.IsFailure() then Run(delayed.outcome.PropagateFailure(), delayed.wire)
        else if delayed.outcome.value.None? then Run(Failed(NRC(nrc)), delayed.wire)
        else Run(Ready(delayed.outcome.value.value), delayed.wire)
      else Run(Failed(NRC(nrc)), wire)
    case Failure(e) => Run(Failed(e), wire)
  }

  /** The exchange with the retry counter starting at `start`; the client starts it at zero. */
  function SendAndReceive(request: seq<byte>, start: int32, wire: Wire): Run<seq<byte>> {
    if request == [] then Run(Failed(RequestEmpty), wire) else Attempt(request, start, wire)
  }
}
