/** Calls made one after another on one socket: what each leaves for the next, on any link. */
module Conversations {
  import opened Bytes
  import opened UdsDefinitions
  import opened UdsTypes
  import opened Exchange
  import opened ExchangeTheorems
  import opened TraceLaws
  import opened Verdicts
  import opened Calls
  import opened CallLaws

  // ----- calls one after another, whatever a call is

  /** The wire after the first `k` calls. A call that never completes is one that its caller gives up. */
  function WireAfter<C, T>(perform: (C, Wire) -> Run<T>, calls: seq<C>, wire: Wire, k: nat): Wire
    requires k <= |calls|
  {
    if k == 0 then wire else perform(calls[k - 1], WireAfter(perform, calls, wire, k - 1)).wire
  }

  function OutcomeOf<C, T>(perform: (C, Wire) -> Run<T>, calls: seq<C>, wire: Wire, k: nat): Await<T>
    requires k < |calls|
  {
    perform(calls[k], WireAfter(perform, calls, wire, k)).outcome
  }

  function LeftByFirst<C>(left: (C, Link) -> Link, calls: seq<C>, link: Link, k: nat): Link
    requires k <= |calls|
  {
    if k == 0 then link else left(calls[k - 1], LeftByFirst(left, calls, link, k - 1))
  }

  /** What holds at first and is kept by every call holds after any number of them. */
  lemma {:induction false} KeptByCalls<C, T>(perform: (C, Wire) -> Run<T>, calls: seq<C>, wire: Wire,
                                             kept: (Wire, nat) -> bool, k: nat)
    requires k <= |calls| && kept(wire, 0)
    requires forall i: nat, wire: Wire :: i < |calls| && kept(wire, i) ==> kept(perform(calls[i], wire).wire, i + 1)
    ensures kept(WireAfter(perform, calls, wire, k), k)
  {
    if k > 0 {
      KeptByCalls(perform, calls, wire, kept, k - 1);
    }
  }

  lemma {:induction false} LinkOfConversation<C, T>(perform: (C, Wire) -> Run<T>, left: (C, Link) -> Link,
                                                    calls: seq<C>, wire: Wire, k: nat)
    requires k <= |calls|
    requires forall call, wire :: perform(call, wire).wire.link == left(call, wire.link)
    ensures WireAfter(perform, calls, wire, k).link == LeftByFirst(left, calls, wire.link, k)
  {
    if k > 0 {
      LinkOfConversation(perform, left, calls, wire, k - 1);
    }
  }

  // ----- the calls of the client on any link

  /** The link a call leaves, in closed form. */
  function LeftBy(call: Call, link: Link): Link {
    if RequestOf(call).Success? then Leaves(Sid(call), RETRY_START, link) else link
  }

  lemma OneCallExactly(call: Call, wire: Wire)
    ensures Perform(call, wire).outcome == Outcome(call, wire.link)
    ensures Perform(call, wire).wire.link == LeftBy(call, wire.link)
  {
    CallPastIsKept(call, wire);
    CallExactly(call, wire.link);
    if RequestOf(call).Success? {
      RequestsStartWithSid(call);
      LeavesExactly(RequestOf(call).value, RETRY_START, wire.link);
    }
  }

  /** Each call of a conversation comes to what the link decides, as the calls before it have left it. */
  lemma ConversationExactly(calls: seq<Call>, wire: Wire, k: nat)
    requires k < |calls|
    ensures OutcomeOf(Perform, calls, wire, k) == Outcome(calls[k], LeftByFirst(LeftBy, calls, wire.link, k))
    ensures WireAfter(Perform, calls, wire, k + 1).link == LeftByFirst(LeftBy, calls, wire.link, k + 1)
  {
    forall call, wire ensures Perform(call, wire).wire.link == LeftBy(call, wire.link) {
      OneCallExactly(call, wire);
    }
    LinkOfConversation(Perform, LeftBy, calls, wire, k);
    LinkOfConversation(Perform, LeftBy, calls, wire, k + 1);
    OneCallExactly(calls[k], WireAfter(Perform, calls, wire, k));
  }

  lemma CallConserves(call: Call, link: Link)
    ensures var after := Perform(call, Wire(link, [])).wire; Conserves(link.arrivals, after.link.arrivals, after.log)
  {
    if RequestOf(call).Success? {
      RequestsStartWithSid(call);
      EveryRunConserves(RequestOf(call).value, RETRY_START, link);
    }
  }

  lemma CallConservesOn(call: Call, arrivals: seq<Arrival>, wire: Wire)
    requires Conserves(arrivals, wire.link.arrivals, wire.log)
    ensures var after := Perform(call, wire).wire; Conserves(arrivals, after.link.arrivals, after.log)
  {
    var bare := Perform(call, Wire(wire.link, [])).wire;
    CallPastIsKept(call, wire);
    CallConserves(call, wire.link);
    ConservesOn(arrivals, wire.link.arrivals, bare.link.arrivals, wire.log, bare.log);
  }

  /** Over any number of calls, what arrives is handed out once, in order, and only silence is lost. */
  lemma ConversationConserves(calls: seq<Call>, link: Link, k: nat)
    requires k <= |calls|
    ensures var after := WireAfter(Perform, calls, Wire(link, []), k);
            Conserves(link.arrivals, after.link.arrivals, after.log)
  {
    var kept := (wire: Wire, i: nat) => Conserves(link.arrivals, wire.link.arrivals, wire.log);
    forall i: nat, wire: Wire | i < |calls| && kept(wire, i) ensures kept(Perform(calls[i], wire).wire, i + 1) {
      CallConservesOn(calls[i], link.arrivals, wire);
    }
    KeptByCalls(Perform, calls, Wire(link, []), kept, k);
  }

  lemma TimedOutExchange(sid: byte, link: Link)
    requires TimesOut(sid, RETRY_START, link)
    ensures Expected(sid, RETRY_START, link).0 == Failed(NRC(NrcData(sid, RequestCorrectlyReceivedResponsePending)))
    ensures var rest := AfterBusy(sid, link.arrivals);
            Leaves(sid, RETRY_START, link).arrivals == if |rest| == 1 then [] else rest[2..]
  {
  }

  /** On any link: a call that times out behind a 0x78 leaves what comes late to the next call, of any service. */
  lemma TimedOutCallLeavesItsResponse(first: Call, second: Call, link: Link)
    requires RequestOf(first).Success? && TimesOut(Sid(first), RETRY_START, link)
    ensures var rest, calls := AfterBusy(Sid(first), link.arrivals), [first, second];
            && LeftBy(first, link).arrivals == (if |rest| == 1 then [] else rest[2..])
            && OutcomeOf(Perform, calls, Wire(link, []), 0)
            == Failed(NRC(NrcData(Sid(first), RequestCorrectlyReceivedResponsePending)))
            && OutcomeOf(Perform, calls, Wire(link, []), 1) == Outcome(second, LeftBy(first, link))
  {
    var calls, wire := [first, second], Wire(link, []);
    ConversationExactly(calls, wire, 0);
    ConversationExactly(calls, wire, 1);
    assert LeftByFirst(LeftBy, calls, link, 1) == LeftBy(first, link);
    TimedOutExchange(Sid(first), link);
  }

  /** The frame decides the exchange, or comes in time behind a 0x78. */
  predicate Brings(sid: byte, link: Link, raw: seq<byte>) {
    Decides(sid, RETRY_START, link, raw) || WaitsFor(sid, RETRY_START, link, Frame(raw))
  }

  /**
   * In any conversation, over any services: a frame that is no negative response comes out of a call as a
   * mismatch of services exactly if it is of another service, and decides the call or follows a 0x78 in time.
   */
  lemma ForeignFrameExactly(calls: seq<Call>, link: Link, k: nat, raw: seq<byte>)
    requires k < |calls| && raw != [] && raw[0] != NEGATIVE_RESPONSE_SID
    ensures var sid := Sid(calls[k]);
            OutcomeOf(Perform, calls, Wire(link, []), k)
            == Failed(SidMismatch(sid + SEND_RECEIVE_SID_OFFSET, raw[0], raw))
            <==> && RequestOf(calls[k]).Success? && raw[0] != sid + SEND_RECEIVE_SID_OFFSET
                 && Brings(sid, LeftByFirst(LeftBy, calls, link, k), raw)
  {
    OutcomeInConversation(calls, link, k, LeftByFirst(LeftBy, calls, link, k));
    ForeignFrameOfCall(calls[k], LeftByFirst(LeftBy, calls, link, k), raw);
  }

  lemma OutcomeInConversation(calls: seq<Call>, link: Link, k: nat, left: Link)
    requires k < |calls| && left == LeftByFirst(LeftBy, calls, link, k)
    ensures OutcomeOf(Perform, calls, Wire(link, []), k) == Outcome(calls[k], left)
  {
    ConversationExactly(calls, Wire(link, []), k);
  }

  lemma ForeignFrameOfCall(call: Call, link: Link, raw: seq<byte>)
    requires raw != [] && raw[0] != NEGATIVE_RESPONSE_SID
    ensures Outcome(call, link) == Failed(SidMismatch(Sid(call) + SEND_RECEIVE_SID_OFFSET, raw[0], raw))
       <==> && RequestOf(call).Success? && raw[0] != Sid(call) + SEND_RECEIVE_SID_OFFSET
            && Brings(Sid(call), link, raw)
  {
    if RequestOf(call).Success? {
      BringsExactly(Sid(call), link, raw);
      ForeignFrameParsed(call, Expected(Sid(call), RETRY_START, link).0, raw);
    }
  }

  lemma BringsExactly(sid: byte, link: Link, raw: seq<byte>)
    requires raw != [] && raw[0] != NEGATIVE_RESPONSE_SID
    ensures Expected(sid, RETRY_START, link).0 == Ready(raw) <==> Brings(sid, link, raw)
    ensures var exchange := Expected(sid, RETRY_START, link).0;
            exchange.Failed? && exchange.error.SidMismatch? ==> exchange.error.expected == sid
  {
  }

  lemma ForeignFrameParsed(call: Call, exchange: Await<seq<byte>>, raw: seq<byte>)
    requires exchange.Failed? && exchange.error.SidMismatch? ==> exchange.error.expected == Sid(call)
    requires raw != []
    ensures Parsing(call, exchange) == Failed(SidMismatch(Sid(call) + SEND_RECEIVE_SID_OFFSET, raw[0], raw))
       <==> exchange == Ready(raw) && raw[0] != Sid(call) + SEND_RECEIVE_SID_OFFSET
  {
    ParsersCheckSid(call);
    if exchange.Ready? {
      assert ParseFor(call, exchange.value) == Parser(call)(exchange.value);
    }
  }

  /** A response that comes late, to a call of another service, ends the next call as a mismatch of services. */
  lemma LateForeignResponse(first: Call, second: Call, link: Link, late: seq<byte>)
    requires RequestOf(first).Success? && RequestOf(second).Success? && Sid(first) != Sid(second)
    requires TimesOut(Sid(first), RETRY_START, link) && late != [] && late[0] == Sid(first) + SEND_RECEIVE_SID_OFFSET
    requires Brings(Sid(second), LeftBy(first, link), late)
    ensures OutcomeOf(Perform, [first, second], Wire(link, []), 1)
         == Failed(SidMismatch(Sid(second) + SEND_RECEIVE_SID_OFFSET, Sid(first) + SEND_RECEIVE_SID_OFFSET, late))
  {
    TimedOutCallLeavesItsResponse(first, second, link);
    ForeignFrameOfCall(second, LeftBy(first, link), late);
  }
}
