/**
 * Whose reply ends a call, when calls to one service follow each other and a server may refuse a send
 * with 0x21, repeat a 0x78, reply late, or not at all.
 */
module LateResponses {
  import opened Bytes
  import opened UdsTypes
  import opened Exchange
  import opened ExchangeTheorems
  import opened Verdicts
  import opened Hearing
  import opened Replies
  import opened Calls
  import opened CallLaws
  import opened Conversations

  // ----- each send hears one event

  /** From `before` to `after` one exchange took place, each of whose sends heard the next event. */
  predicate Hears(sid: byte, before: Wire, after: Wire) {
    var events := Events(sid, before.link.arrivals);
    && after.link.sendFaults == []
    && Events(sid, after.link.arrivals) == AfterNext(events)
    && Sends(after.log) == Sends(before.log) + NextSends(events)
  }

  lemma {:induction false} SendsAdd(a: seq<Action>, b: seq<Action>)
    ensures Sends(a + b) == Sends(a) + Sends(b)
  {
    if a == [] {
      assert a + b == b;
    } else {
      assert (a + b)[1..] == a[1..] + b;
      SendsAdd(a[1..], b);
    }
  }

  lemma CallSends(call: Call, wire: Wire)
    requires RequestOf(call).Success?
    ensures Sends(Perform(call, wire).wire.log) == Sends(wire.log) + Expected(Sid(call), RETRY_START, wire.link).1
  {
    RequestsStartWithSid(call);
    CallPastIsKept(call, wire);
    OutcomeExactly(RequestOf(call).value, RETRY_START, wire.link);
    SendsAdd(wire.log, Perform(call, Wire(wire.link, [])).wire.log);
  }

  lemma QuietExchange(sid: byte, link: Link)
    requires link.sendFaults == []
    ensures var events := Events(sid, link.arrivals);
            && Expected(sid, RETRY_START, link) == (NextVerdict(sid, events), NextSends(events))
            && Leaves(sid, RETRY_START, link).sendFaults == []
            && Events(sid, Leaves(sid, RETRY_START, link).arrivals) == AfterNext(events)
  {
    ExchangeHearsEvents(sid, link.arrivals);
    assert link == Link(link.arrivals, []);
  }

  lemma CallHears(call: Call, wire: Wire)
    requires RequestOf(call).Success? && wire.link.sendFaults == []
    ensures Hears(Sid(call), wire, Perform(call, wire).wire)
  {
    OneCallExactly(call, wire);
    CallSends(call, wire);
    QuietExchange(Sid(call), wire.link);
  }

  lemma CallOutcome(call: Call, wire: Wire)
    requires RequestOf(call).Success? && wire.link.sendFaults == []
    ensures Perform(call, wire).outcome == Parsing(call, NextVerdict(Sid(call), Events(Sid(call), wire.link.arrivals)))
  {
    OneCallExactly(call, wire);
    QuietExchange(Sid(call), wire.link);
  }

  /** Calls to one service that can all be sent. */
  predicate AllTo(calls: seq<Call>, sid: byte) {
    forall i :: 0 <= i < |calls| ==> RequestOf(calls[i]).Success? && Sid(calls[i]) == sid
  }

  /** The wire on which the arrivals are to come, and on which every send is accepted. */
  function Quiet(arrivals: seq<Arrival>): Wire { Wire(Link(arrivals, []), []) }

  /** What a call comes to that ends with the event. */
  function EventOutcome(call: Call, event: Event): Await<UdsResponse> {
    Parsing(call, EventVerdict(Sid(call), event))
  }

  /** The wire on which the first `k` calls have been made follows the events. */
  predicate Reached(events: seq<Event>, sid: byte, wire: Wire, k: nat) {
    wire.link.sendFaults == [] && Follows(events, k, Events(sid, wire.link.arrivals), Sends(wire.log))
  }

  lemma ReachedNext(events: seq<Event>, sid: byte, before: Wire, after: Wire, k: nat)
    requires Reached(events, sid, before, k) && Hears(sid, before, after)
    ensures Reached(events, sid, after, k + 1)
  {
    FollowsOn(events, k, Events(sid, before.link.arrivals), Sends(before.log));
  }

  lemma StateOfConversation(calls: seq<Call>, sid: byte, arrivals: seq<Arrival>, k: nat)
    requires AllTo(calls, sid) && k <= |calls|
    ensures Reached(Events(sid, arrivals), sid, WireAfter(Perform, calls, Quiet(arrivals), k), k)
  {
    var kept := (wire: Wire, i: nat) => Reached(Events(sid, arrivals), sid, wire, i);
    forall i: nat, wire: Wire | i < |calls| && kept(wire, i) ensures kept(Perform(calls[i], wire).wire, i + 1) {
      CallHears(calls[i], wire);
      ReachedNext(Events(sid, arrivals), sid, wire, Perform(calls[i], wire).wire, i);
    }
    KeptByCalls(Perform, calls, Quiet(arrivals), kept, k);
  }

  lemma OutcomeAtEvent(events: seq<Event>, call: Call, wire: Wire, k: nat)
    requires RequestOf(call).Success? && Reached(events, Sid(call), wire, k)
    ensures Perform(call, wire).outcome == Parsing(call, VerdictOf(Sid(call), events, k))
  {
    CallOutcome(call, wire);
    VerdictOn(Sid(call), events, k, Events(Sid(call), wire.link.arrivals), Sends(wire.log));
  }

  /** Whatever arrives, the sends of a conversation hear one event each, in order, and each call ends with its last. */
  lemma ConversationHears(calls: seq<Call>, sid: byte, arrivals: seq<Arrival>, k: nat)
    requires AllTo(calls, sid) && k < |calls|
    ensures var events := Events(sid, arrivals);
            && Sends(WireAfter(Perform, calls, Quiet(arrivals), k).log) == SendsBefore(events, k)
            && Sends(WireAfter(Perform, calls, Quiet(arrivals), k + 1).log) == SendsBefore(events, k + 1)
            && OutcomeOf(Perform, calls, Quiet(arrivals), k) == Parsing(calls[k], VerdictOf(sid, events, k))
  {
    StateOfConversation(calls, sid, arrivals, k);
    StateOfConversation(calls, sid, arrivals, k + 1);
    OutcomeAtEvent(Events(sid, arrivals), calls[k], WireAfter(Perform, calls, Quiet(arrivals), k), k);
  }

  /** Send number `n` of the conversation is made by call `k`. */
  predicate SentBy(calls: seq<Call>, arrivals: seq<Arrival>, k: nat, n: int)
    requires k < |calls|
  {
    Sends(WireAfter(Perform, calls, Quiet(arrivals), k).log) <= n
      < Sends(WireAfter(Perform, calls, Quiet(arrivals), k + 1).log)
  }

  lemma CallHearsEvents(calls: seq<Call>, sid: byte, arrivals: seq<Arrival>, events: seq<Event>, k: nat)
    requires AllTo(calls, sid) && events == Events(sid, arrivals) && k < |calls|
    ensures OutcomeOf(Perform, calls, Quiet(arrivals), k) == Parsing(calls[k], VerdictOf(sid, events, k))
    ensures forall n :: SentBy(calls, arrivals, k, n) <==> SendsBefore(events, k) <= n < SendsBefore(events, k + 1)
  {
    ConversationHears(calls, sid, arrivals, k);
  }

  lemma CallEndsAt(calls: seq<Call>, sid: byte, arrivals: seq<Arrival>, events: seq<Event>, u: nat, first: nat, k: nat)
    requires AllTo(calls, sid) && events == Events(sid, arrivals) && k < |calls| && u < |events|
    requires SendsBefore(events, k) == first && SendsBefore(events, k + 1) == u + 1
    requires VerdictOf(sid, events, k) == EventVerdict(sid, events[u])
    ensures OutcomeOf(Perform, calls, Quiet(arrivals), k) == EventOutcome(calls[k], events[u])
    ensures forall n :: SentBy(calls, arrivals, k, n) <==> first <= n <= u
  {
    CallHearsEvents(calls, sid, arrivals, events, k);
  }

  /** Event `u` is what send `u` hears, and the call that it ends made that send and one for each 0x21 before it. */
  lemma EventEndsCall(calls: seq<Call>, sid: byte, arrivals: seq<Arrival>, events: seq<Event>, u: nat, k: nat)
    requires AllTo(calls, sid) && events == Events(sid, arrivals)
    requires u < |events| && EndsExchange(events, u) && k == Ended(events, u) && k < |calls|
    ensures OutcomeOf(Perform, calls, Quiet(arrivals), k) == EventOutcome(calls[k], events[u])
    ensures forall n :: SentBy(calls, arrivals, k, n) <==> u - Refusals(events, u) <= n <= u
  {
    EndsExactly(events, u);
    EndsWithVerdict(sid, events, u);
    CallEndsAt(calls, sid, arrivals, events, u, u - Refusals(events, u), k);
  }

  /** The calls behind the last event never complete. */
  lemma NoEventNoOutcome(calls: seq<Call>, sid: byte, arrivals: seq<Arrival>, k: nat)
    requires AllTo(calls, sid) && Ended(Events(sid, arrivals), |Events(sid, arrivals)|) <= k < |calls|
    ensures OutcomeOf(Perform, calls, Quiet(arrivals), k) == Blocked
  {
    ThenNothing(Events(sid, arrivals), k);
    ConversationHears(calls, sid, arrivals, k);
  }

  // ----- whose reply ends a call, when a server replies to every send in turn

  /**
   * The call that ends with event `k` of reply `g` made the send that this reply answers, if and only if
   * the events that came in excess of one for each send are no more than the 0x21 that the call has heard.
   */
  lemma OwnReplyExactly(calls: seq<Call>, sid: byte, replies: seq<seq<Arrival>>, g: nat, k: nat,
                        events: seq<Event>, u: nat)
    requires AllTo(calls, sid) && AllWhole(sid, replies) && g < |replies| && k < |Events(sid, replies[g])|
    requires events == EventsOfAll(sid, replies) && u == EventsBefore(sid, replies, g) + k
    requires u < |events| && EndsExchange(events, u) && Ended(events, u) < |calls|
    ensures var i := Ended(events, u);
            && OutcomeOf(Perform, calls, Quiet(Stream(replies)), i)
            == EventOutcome(calls[i], Events(sid, replies[g])[k])
            && (SentBy(calls, Stream(replies), i, g) <==> 0 <= Backlog(sid, replies, g) + k <= Refusals(events, u))
  {
    EventOfReply(sid, replies, g, k, events);
    EventEndsCall(calls, sid, Stream(replies), events, u, Ended(events, u));
  }

  /** Unless a reply is lost, the excess never becomes less. */
  lemma {:induction false} BacklogGrows(sid: byte, replies: seq<seq<Arrival>>, n: nat, m: nat)
    requires n <= m <= |replies| && forall g :: n <= g < m ==> Events(sid, replies[g]) != []
    ensures Backlog(sid, replies, n) <= Backlog(sid, replies, m)
    ensures Backlog(sid, replies, n) == Backlog(sid, replies, m)
       <==> forall g :: n <= g < m ==> |Events(sid, replies[g])| == 1
  {
    if n < m {
      BacklogGrows(sid, replies, n, m - 1);
      assert |EventsOfEach(sid, replies)[m - 1]| == |Events(sid, replies[m - 1])|;
    }
  }

  /**
   * With a server that refuses nothing and loses no reply, each call makes one send, and what ends it is the
   * reply to that send if and only if every reply before brought one event: none was late, no 0x78 repeated.
   */
  lemma InStepExactly(calls: seq<Call>, sid: byte, replies: seq<seq<Arrival>>, i: nat)
    requires AllTo(calls, sid) && AllWhole(sid, replies) && i < |calls| && i < |replies|
    requires forall g :: 0 <= g < |replies| ==> Events(sid, replies[g]) != []
    requires forall u :: 0 <= u < |EventsOfAll(sid, replies)| ==> !EventsOfAll(sid, replies)[u].Refused?
    ensures i < |EventsOfAll(sid, replies)|
    ensures OutcomeOf(Perform, calls, Quiet(Stream(replies)), i) == EventOutcome(calls[i], EventsOfAll(sid, replies)[i])
    ensures forall n :: SentBy(calls, Stream(replies), i, n) <==> n == i
    ensures EventsBefore(sid, replies, i) <= i < EventsBefore(sid, replies, i + 1)
       <==> forall g :: 0 <= g < i ==> |Events(sid, replies[g])| == 1
  {
    BacklogGrows(sid, replies, 0, i);
    BacklogGrows(sid, replies, 0, i + 1);
    BacklogGrows(sid, replies, 0, |replies|);
    assert EventsBefore(sid, replies, i + 1) == EventsBefore(sid, replies, i) + |Events(sid, replies[i])|;
    EventsOfStream(sid, replies);
    WithoutRefusals(EventsOfAll(sid, replies), i);
    EventEndsCall(calls, sid, Stream(replies), EventsOfAll(sid, replies), i, i);
  }

  lemma {:induction false} WithoutRefusals(events: seq<Event>, u: nat)
    requires u <= |events| && forall v :: 0 <= v < |events| ==> !events[v].Refused?
    ensures Refusals(events, u) == 0 && Ended(events, u) == u
  {
    if u > 0 {
      WithoutRefusals(events, u - 1);
    }
  }
}
