/** For each outcome of the exchange, on exactly which links it comes about. */
module Verdicts {
  import opened Bytes
  import opened Options
  import opened UdsDefinitions
  import opened UdsTypes
  import opened Exchange
  import opened ExchangeLaws
  import opened ExchangeTheorems

  /** Every send is accepted until something other than a matching 0x21 arrives, before the counter runs out. */
  predicate GetsThrough(sid: byte, start: int32, link: Link) {
    var busy := BusyReplies(sid, link.arrivals);
    busy < Remaining(start) && FirstFault(link.sendFaults, busy + 1) == None
  }

  /** The reply that then decides, or says to wait, is `raw`. */
  predicate Decides(sid: byte, start: int32, link: Link, raw: seq<byte>) {
    var rest := AfterBusy(sid, link.arrivals);
    GetsThrough(sid, start, link) && rest != [] && rest[0] == Frame(raw)
  }

  /** The reply says to wait, and `next` is what arrives behind it. */
  predicate WaitsFor(sid: byte, start: int32, link: Link, next: Arrival) {
    var rest := AfterBusy(sid, link.arrivals);
    && GetsThrough(sid, start, link)
    && |rest| >= 2 && rest[0].Frame? && IsPending(rest[0].frame, sid) && rest[1] == next
  }

  /** The reply says to wait, and nothing arrives in time. */
  predicate TimesOut(sid: byte, start: int32, link: Link) {
    var rest := AfterBusy(sid, link.arrivals);
    || WaitsFor(sid, start, link, Silence)
    || (GetsThrough(sid, start, link) && |rest| == 1 && rest[0].Frame? && IsPending(rest[0].frame, sid))
  }

  /** The frames the exchange hands on: a positive reply, and whatever follows a 0x78 in time. */
  lemma SucceedsExactly(request: seq<byte>, start: int32, link: Link, raw: seq<byte>)
    requires request != []
    ensures Fresh(request, start, link).outcome == Ready(raw)
       <==> || (Decides(request[0], start, link, raw) && raw != [] && raw[0] != NEGATIVE_RESPONSE_SID)
            || WaitsFor(request[0], start, link, Frame(raw))
  {
    OutcomeExactly(request, start, link);
  }

  /** The unclassified frames that the exchange hands on. */
  lemma HandsOnUnclassifiedExactly(request: seq<byte>, start: int32, link: Link, raw: seq<byte>)
    requires request != [] && (raw == [] || raw[0] == NEGATIVE_RESPONSE_SID)
    ensures Fresh(request, start, link).outcome == Ready(raw) <==> WaitsFor(request[0], start, link, Frame(raw))
  {
    SucceedsExactly(request, start, link, raw);
  }

  /** A negative response with a known code is returned only for the service asked for. */
  lemma NegativeResponseExactly(request: seq<byte>, start: int32, link: Link,
                                rejected: byte, code: NegativeResponseCode)
    requires request != []
    ensures Fresh(request, start, link).outcome == Failed(NRC(NrcData(rejected, code)))
       <==> && rejected == request[0]
            && if code == BusyRepeatRequest then
                 && BusyReplies(rejected, link.arrivals) >= Remaining(start)
                 && FirstFault(link.sendFaults, Remaining(start)) == None
               else if code == RequestCorrectlyReceivedResponsePending then
                 TimesOut(rejected, start, link)
               else
                 && GetsThrough(rejected, start, link)
                 && var rest := AfterBusy(rejected, link.arrivals);
                 && rest != [] && rest[0].Frame? && IsNegative(rest[0].frame, rejected, code)
  {
    var sid, rest := request[0], AfterBusy(request[0], link.arrivals);
    if rejected == sid && code == BusyRepeatRequest {
      GivesUpExactly(request, start, link);
    } else {
      NegativeVerdictExactly(request, start, link, rejected, code);
      VerdictNegativeExactly(sid, rest, rejected, code);
    }
  }

  lemma NegativeVerdictExactly(request: seq<byte>, start: int32, link: Link, rejected: byte, code: NegativeResponseCode)
    requires request != [] && !(rejected == request[0] && code == BusyRepeatRequest)
    ensures Fresh(request, start, link).outcome == Failed(NRC(NrcData(rejected, code)))
       <==> && GetsThrough(request[0], start, link)
            && Verdict(request[0], AfterBusy(request[0], link.arrivals)) == Failed(NRC(NrcData(rejected, code)))
  {
    OutcomeExactly(request, start, link);
  }

  lemma VerdictNegativeExactly(sid: byte, rest: seq<Arrival>, rejected: byte, code: NegativeResponseCode)
    requires rest != [] ==> !rest[0].Silence?
    ensures Verdict(sid, rest) == Failed(NRC(NrcData(rejected, code)))
       <==> && rejected == sid && rest != [] && rest[0].Frame? && IsNegative(rest[0].frame, sid, code)
            && (code == RequestCorrectlyReceivedResponsePending ==> |rest| == 1 || rest[1].Silence?)
  {
    if rest != [] && rest[0].Frame? {
      FinalNegativeExactly(sid, rest[0].frame, rejected, code);
    }
  }

  lemma FinalNegativeExactly(sid: byte, raw: seq<byte>, rejected: byte, code: NegativeResponseCode)
    ensures Final(sid, raw) == Failed(NRC(NrcData(rejected, code))) <==> rejected == sid && IsNegative(raw, sid, code)
    ensures IsPending(raw, sid) && IsNegative(raw, sid, code) ==> code == RequestCorrectlyReceivedResponsePending
    ensures !Final(sid, raw).Blocked? && (Final(sid, raw).Failed? ==> !Final(sid, raw).error.CommunicationError?)
  {
    ClassifyExactly(raw, rejected, code, 0);
    if IsNegative(raw, sid, code) && IsPending(raw, sid) {
      NrcFromByteExactly(raw[2], code);
      NrcFromByteExactly(raw[2], RequestCorrectlyReceivedResponsePending);
    }
  }

  /** A known code for a foreign service is a mismatch of services. */
  lemma MismatchExactly(request: seq<byte>, start: int32, link: Link, expected: byte, received: byte, raw: seq<byte>)
    requires request != []
    ensures Fresh(request, start, link).outcome == Failed(SidMismatch(expected, received, raw))
       <==> && expected == request[0] != received
            && Decides(expected, start, link, raw)
            && exists code :: IsNegative(raw, received, code)
  {
    OutcomeExactly(request, start, link);
    match Classify(raw)
    case Failure(NRC(nrc)) =>
      ClassifyExactly(raw, nrc.rejectedSid, nrc.code, 0);
    case _ =>
  }

  /** An unknown code is returned for whatever service the frame says was rejected. */
  lemma UnknownCodeExactly(request: seq<byte>, start: int32, link: Link, rejected: byte, unknown: byte)
    requires request != []
    ensures Fresh(request, start, link).outcome == Failed(UnknownNRC(rejected, unknown))
       <==> && GetsThrough(request[0], start, link)
            && var rest := AfterBusy(request[0], link.arrivals);
            && rest != [] && rest[0].Frame? && |rest[0].frame| >= 3
            && rest[0].frame[..3] == [NEGATIVE_RESPONSE_SID, rejected, unknown]
            && forall code :: NrcByte(code) != unknown
  {
    OutcomeExactly(request, start, link);
    var rest := AfterBusy(request[0], link.arrivals);
    if rest != [] && rest[0].Frame? {
      ClassifyExactly(rest[0].frame, rejected, PositiveResponse, unknown);
    }
  }

  lemma EmptyResponseExactly(request: seq<byte>, start: int32, link: Link)
    requires request != []
    ensures Fresh(request, start, link).outcome == Failed(ResponseEmpty)
       <==> && GetsThrough(request[0], start, link)
            && var rest := AfterBusy(request[0], link.arrivals);
            && rest != [] && rest[0].Frame?
            && (rest[0].frame == [] || (rest[0].frame[0] == NEGATIVE_RESPONSE_SID && |rest[0].frame| < 3))
  {
    OutcomeExactly(request, start, link);
    var rest := AfterBusy(request[0], link.arrivals);
    if rest != [] && rest[0].Frame? {
      ClassifyExactly(rest[0].frame, 0, PositiveResponse, 0);
    }
  }

  /** An error of the lower layer: the first send that fails, or a receive that was waited for. */
  lemma CommunicationErrorExactly(request: seq<byte>, start: int32, link: Link, e: UdsCommunicationError)
    requires request != []
    ensures var sid := request[0]; var rest := AfterBusy(sid, link.arrivals);
            var fault := FirstFault(link.sendFaults, Min(BusyReplies(sid, link.arrivals) + 1, Remaining(start)));
            Fresh(request, start, link).outcome == Failed(CommunicationError(e))
            <==> || (fault.Some? && link.sendFaults[fault.value] == Some(e))
                 || (GetsThrough(sid, start, link) && rest != [] && rest[0] == Fault(e))
                 || WaitsFor(sid, start, link, Fault(e))
  {
    OutcomeExactly(request, start, link);
  }

  /** The exchange never completes when nothing but silence and matching 0x21 replies below the bound arrives. */
  lemma BlocksExactly(request: seq<byte>, start: int32, link: Link)
    requires request != []
    ensures Fresh(request, start, link).outcome == Blocked
       <==> GetsThrough(request[0], start, link) && AfterBusy(request[0], link.arrivals) == []
  {
    OutcomeExactly(request, start, link);
  }

  /** An unknown code that rejects any service at all ends the exchange of any request. */
  lemma UnknownCodeOfAnyService(request: seq<byte>, start: int32, rejected: byte, more: seq<Arrival>)
    requires request != []
    ensures Fresh(request, start, Link([Frame([0x7F, rejected, 0xFF])] + more, [])).outcome
         == Failed(UnknownNRC(rejected, 0xFF))
  {
    var raw := [0x7F, rejected, 0xFF];
    UnknownCodeExactly(request, start, Link([Frame(raw)] + more, []), rejected, 0xFF);
    assert raw[..3] == raw;
    assert !IsBusy(raw, request[0]);
  }

  /** A negative response with any code but 0x21 and 0x78 ends the exchange with the code that has the number. */
  lemma CodeIsReported(request: seq<byte>, start: int32, number: byte, code: NegativeResponseCode, more: seq<Arrival>)
    requires request != [] && NrcFromByte(number) == Some(code) && number != 0x21 && number != 0x78
    ensures Fresh(request, start, Link([Frame([0x7F, request[0], number])] + more, [])).outcome
         == Failed(NRC(NrcData(request[0], code)))
  {
    var raw := [0x7F, request[0], number];
    NrcFromByteExactly(number, code);
    assert !IsBusy(raw, request[0]) && IsNegative(raw, request[0], code);
    NegativeResponseExactly(request, start, Link([Frame(raw)] + more, []), request[0], code);
  }

  // ----- what an exchange leaves on the link

  lemma {:induction false} BehindAllReplies(sid: byte, arrivals: seq<Arrival>)
    ensures AfterSilence(AfterReplies(sid, arrivals, BusyReplies(sid, arrivals))) == AfterBusy(sid, arrivals)
  {
    if arrivals != [] {
      if arrivals[0].Silence? {
        BehindAllReplies(sid, arrivals[1..]);
      } else if arrivals[0].Frame? && IsBusy(arrivals[0].frame, sid) {
        BehindAllReplies(sid, arrivals[1..]);
      }
    }
  }

  /** The arrivals left once the first of `rest` has been heard and, if it is a 0x78, waited behind. */
  function LeftOf(sid: byte, rest: seq<Arrival>): seq<Arrival> {
    if rest == [] then []
    else if rest[0].Frame? && IsPending(rest[0].frame, sid) then (if |rest| == 1 then [] else rest[2..])
    else rest[1..]
  }

  /** The link that an exchange leaves for the next one. */
  function Leaves(sid: byte, start: int32, link: Link): Link {
    var arrivals, faults := link.arrivals, link.sendFaults;
    var busy := BusyReplies(sid, arrivals);
    var sends := Min(busy + 1, Remaining(start));
    match FirstFault(faults, sends)
    case Some(i) => Link(AfterReplies(sid, arrivals, i), faults[i + 1..])
    case None =>
      Link(if busy >= Remaining(start) then AfterReplies(sid, arrivals, sends)
           else LeftOf(sid, AfterBusy(sid, arrivals)),
           faults[Min(sends, |faults|)..])
  }

  /** What one more round leaves, if the round is the last one. */
  function LeftByLast(sid: byte, link: Link): Link {
    var faults := link.sendFaults;
    if faults != [] && faults[0].Some? then Link(link.arrivals, faults[1..])
    else Link(LeftOf(sid, AfterSilence(link.arrivals)), faults[Min(1, |faults|)..])
  }

  /** For every exchange on every link: what it leaves behind, in closed form. */
  lemma LeavesExactly(request: seq<byte>, start: int32, link: Link)
    requires request != []
    ensures Fresh(request, start, link).wire.link == Leaves(request[0], start, link)
  {
    var sid, k := request[0], Turns(request[0], start, link);
    RunExactly(request, start, link);
    LastRoundLeaves(request, AfterRounds(sid, link, k));
    match FirstFault(link.sendFaults, Min(BusyReplies(sid, link.arrivals) + 1, Remaining(start)))
    case Some(i) => FaultLeaves(sid, start, link, i);
    case None => NoFaultLeaves(sid, start, link);
  }

  lemma FaultLeaves(sid: byte, start: int32, link: Link, i: nat)
    requires FirstFault(link.sendFaults, Min(BusyReplies(sid, link.arrivals) + 1, Remaining(start))) == Some(i)
    ensures LeftByLast(sid, AfterRounds(sid, link, Turns(sid, start, link))) == Leaves(sid, start, link)
  {
    assert Turns(sid, start, link) == i;
    assert link.sendFaults[i..][1..] == link.sendFaults[i + 1..];
  }

  lemma NoFaultLeaves(sid: byte, start: int32, link: Link)
    requires FirstFault(link.sendFaults, Min(BusyReplies(sid, link.arrivals) + 1, Remaining(start))) == None
    ensures LeftByLast(sid, AfterRounds(sid, link, Turns(sid, start, link))) == Leaves(sid, start, link)
  {
    var k := Turns(sid, start, link);
    TurnsWithoutFault(sid, start, link);
    QuietLast(sid, link, k);
    QuietLeaves(sid, start, link);
    LeftBehindReplies(sid, link.arrivals, k);
  }

  lemma QuietLeaves(sid: byte, start: int32, link: Link)
    requires FirstFault(link.sendFaults, Min(BusyReplies(sid, link.arrivals) + 1, Remaining(start))) == None
    ensures var busy := BusyReplies(sid, link.arrivals); var sends := Min(busy + 1, Remaining(start));
            Leaves(sid, start, link)
            == Link(if busy >= Remaining(start) then AfterReplies(sid, link.arrivals, sends)
                    else LeftOf(sid, AfterBusy(sid, link.arrivals)),
                    link.sendFaults[Min(sends, |link.sendFaults|)..])
  {
  }

  lemma QuietLast(sid: byte, link: Link, k: nat)
    requires k <= BusyReplies(sid, link.arrivals) && FirstFault(link.sendFaults, k + 1) == None
    ensures LeftByLast(sid, AfterRounds(sid, link, k))
         == Link(LeftOf(sid, AfterSilence(AfterReplies(sid, link.arrivals, k))),
                 link.sendFaults[Min(k + 1, |link.sendFaults|)..])
  {
    OneMoreSend(link.sendFaults, k);
  }

  lemma LeftBehindReplies(sid: byte, arrivals: seq<Arrival>, k: nat)
    requires k <= BusyReplies(sid, arrivals)
    ensures LeftOf(sid, AfterSilence(AfterReplies(sid, arrivals, k)))
         == if k == BusyReplies(sid, arrivals) then LeftOf(sid, AfterBusy(sid, arrivals))
            else AfterReplies(sid, arrivals, k + 1)
  {
    if k == BusyReplies(sid, arrivals) {
      BehindAllReplies(sid, arrivals);
    } else {
      BehindOneReply(sid, arrivals, k);
      BusyIsNotPending(AfterSilence(AfterReplies(sid, arrivals, k))[0].frame, sid);
    }
  }

  lemma TurnsWithoutFault(sid: byte, start: int32, link: Link)
    requires FirstFault(link.sendFaults, Min(BusyReplies(sid, link.arrivals) + 1, Remaining(start))) == None
    ensures Turns(sid, start, link) + 1 == Min(BusyReplies(sid, link.arrivals) + 1, Remaining(start))
  {
  }

  lemma OneMoreSend(faults: seq<Option<UdsCommunicationError>>, k: nat)
    requires FirstFault(faults, k + 1) == None
    ensures var left := faults[Min(k, |faults|)..];
            && (left != [] ==> left[0].None?)
            && left[Min(1, |left|)..] == faults[Min(k + 1, |faults|)..]
  {
  }

  lemma BusyIsNotPending(raw: seq<byte>, sid: byte)
    ensures !(IsBusy(raw, sid) && IsPending(raw, sid))
  {
  }

  /** Behind `k` of the replies, the next one is the first thing heard. */
  lemma {:induction false} BehindOneReply(sid: byte, arrivals: seq<Arrival>, k: nat)
    requires k < BusyReplies(sid, arrivals)
    ensures var heard := AfterSilence(AfterReplies(sid, arrivals, k));
            && heard != [] && heard[0].Frame? && IsBusy(heard[0].frame, sid)
            && AfterReplies(sid, arrivals, k + 1) == heard[1..]
  {
    if arrivals[0].Silence? {
      BehindOneReply(sid, arrivals[1..], k);
    } else if k > 0 {
      BehindOneReply(sid, arrivals[1..], k - 1);
    }
  }

  lemma LastRoundLeaves(request: seq<byte>, link: Link)
    requires request != []
    ensures LastRound(request, link).wire.link == LeftByLast(request[0], link)
  {
    var rest := AfterSilence(link.arrivals);
    if rest != [] && rest[0].Frame? {
      BusyIsNotPending(rest[0].frame, request[0]);
    }
  }
}
