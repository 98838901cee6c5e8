/** What the sends to one service hear, one after another, whatever arrives. */
module Hearing {
  import opened Bytes
  import opened UdsDefinitions
  import opened UdsTypes
  import opened Exchange
  import opened ExchangeLaws
  import opened ExchangeTheorems
  import opened Verdicts

  /**
   * What a send hears: a matching 0x21, a gap (a fault, or the silence behind a 0x78), a frame that is
   * looked at, or a frame that is handed on behind a 0x78.
   */
  datatype Event = Refused | Missed(gap: Arrival) | Checked(frame: seq<byte>) | HandedOn(frame: seq<byte>)

  /** The event behind a 0x78. */
  function Behind(next: Arrival): Event {
    if next.Frame? then HandedOn(next.frame) else Missed(next)
  }

  function Events(sid: byte, arrivals: seq<Arrival>): seq<Event> {
    if arrivals == [] then []
    else
      match arrivals[0]
      case Silence => Events(sid, arrivals[1..])
      case Fault(_) => [Missed(arrivals[0])] + Events(sid, arrivals[1..])
      case Frame(raw) =>
        if IsBusy(raw, sid) then [Refused] + Events(sid, arrivals[1..])
        else if !IsPending(raw, sid) then [Checked(raw)] + Events(sid, arrivals[1..])
        else if |arrivals| == 1 then [Missed(Silence)]
        else [Behind(arrivals[1])] + Events(sid, arrivals[2..])
  }

  /** What an exchange comes to that ends with the event. */
  function EventVerdict(sid: byte, event: Event): Await<seq<byte>> {
    match event
    case Refused => Failed(NRC(NrcData(sid, BusyRepeatRequest)))
    case Missed(Fault(e)) => Failed(CommunicationError(e))
    case Missed(_) => Failed(NRC(NrcData(sid, RequestCorrectlyReceivedResponsePending)))
    case Checked(raw) => Final(sid, raw)
    case HandedOn(raw) => Ready(raw)
  }

  // ----- one exchange

  function LeadingRefusals(events: seq<Event>): (n: nat)
    ensures n <= |events|
  {
    if events == [] || !events[0].Refused? then 0 else 1 + LeadingRefusals(events[1..])
  }

  /** How many sends the next exchange makes; the last one may hear nothing. */
  function NextSends(events: seq<Event>): (n: nat)
    ensures n >= 1
  {
    Min(LeadingRefusals(events) + 1, Remaining(RETRY_START))
  }

  /** The events that the next exchange leaves. */
  function AfterNext(events: seq<Event>): seq<Event> {
    events[Min(NextSends(events), |events|)..]
  }

  function NextVerdict(sid: byte, events: seq<Event>): Await<seq<byte>> {
    if NextSends(events) <= |events| then EventVerdict(sid, events[NextSends(events) - 1]) else Blocked
  }

  lemma {:induction false} RefusalsAreBusy(sid: byte, arrivals: seq<Arrival>)
    ensures LeadingRefusals(Events(sid, arrivals)) == BusyReplies(sid, arrivals)
    ensures Events(sid, AfterBusy(sid, arrivals)) == Events(sid, arrivals)[BusyReplies(sid, arrivals)..]
  {
    if arrivals != [] && (arrivals[0].Silence? || (arrivals[0].Frame? && IsBusy(arrivals[0].frame, sid))) {
      RefusalsAreBusy(sid, arrivals[1..]);
    }
  }

  lemma {:induction false} BehindReplies(sid: byte, arrivals: seq<Arrival>, k: nat)
    requires k <= BusyReplies(sid, arrivals)
    ensures k <= |Events(sid, arrivals)|
    ensures Events(sid, AfterReplies(sid, arrivals, k)) == Events(sid, arrivals)[k..]
    ensures forall i :: 0 <= i < k ==> Events(sid, arrivals)[i] == Refused
  {
    if k > 0 {
      if arrivals[0].Silence? {
        BehindReplies(sid, arrivals[1..], k);
      } else {
        BehindReplies(sid, arrivals[1..], k - 1);
      }
    }
  }

  /** The first thing heard that is no 0x21 decides, and one event is used up. */
  lemma FirstDecides(sid: byte, rest: seq<Arrival>)
    requires rest != [] ==> !rest[0].Silence? && (rest[0].Frame? ==> !IsBusy(rest[0].frame, sid))
    ensures var events := Events(sid, rest);
            && Verdict(sid, rest) == (if events == [] then Blocked else EventVerdict(sid, events[0]))
            && Events(sid, LeftOf(sid, rest)) == (if events == [] then [] else events[1..])
  {
  }

  /** An exchange on a link that accepts every send: each of its sends hears the next event. */
  lemma ExchangeHearsEvents(sid: byte, arrivals: seq<Arrival>)
    ensures var events, link := Events(sid, arrivals), Link(arrivals, []);
            && Expected(sid, RETRY_START, link) == (NextVerdict(sid, events), NextSends(events))
            && Leaves(sid, RETRY_START, link).sendFaults == []
            && Events(sid, Leaves(sid, RETRY_START, link).arrivals) == AfterNext(events)
  {
    RefusalsAreBusy(sid, arrivals);
    if BusyReplies(sid, arrivals) < Remaining(RETRY_START) {
      FirstDecides(sid, AfterBusy(sid, arrivals));
    } else {
      BehindReplies(sid, arrivals, Remaining(RETRY_START));
    }
  }

  // ----- exchanges one after another

  function RefusalsFrom(events: seq<Event>, from: nat): (n: nat)
    requires from <= |events|
    ensures from + n <= |events|
    decreases |events| - from
  {
    if from == |events| || !events[from].Refused? then 0 else 1 + RefusalsFrom(events, from + 1)
  }

  /** How many sends the first `k` exchanges make. */
  function SendsBefore(events: seq<Event>, k: nat): (n: nat)
    ensures k > 0 ==> n > 0
  {
    if k == 0 then 0
    else
      var from := SendsBefore(events, k - 1);
      from + Min(RefusalsFrom(events, Min(from, |events|)) + 1, Remaining(RETRY_START))
  }

  lemma {:induction false} RefusalsOfSuffix(events: seq<Event>, from: nat)
    requires from <= |events|
    ensures LeadingRefusals(events[from..]) == RefusalsFrom(events, from)
    decreases |events| - from
  {
    if from < |events| {
      RefusalsOfSuffix(events, from + 1);
      assert events[from..][1..] == events[from + 1..];
    }
  }

  /** What the exchange behind the first `k` of them comes to: the event of its last send, if there is one. */
  function VerdictOf(sid: byte, events: seq<Event>, k: nat): Await<seq<byte>> {
    var last := SendsBefore(events, k + 1);
    if last <= |events| then EventVerdict(sid, events[last - 1]) else Blocked
  }

  lemma NextExchange(events: seq<Event>, k: nat)
    ensures var from := SendsBefore(events, k); var left := events[Min(from, |events|)..];
            && from + NextSends(left) == SendsBefore(events, k + 1)
            && AfterNext(left) == events[Min(SendsBefore(events, k + 1), |events|)..]
  {
    RefusalsOfSuffix(events, Min(SendsBefore(events, k), |events|));
  }

  /** `left` is what the first `k` exchanges leave of the events, with `sends` sends. */
  predicate Follows(events: seq<Event>, k: nat, left: seq<Event>, sends: nat) {
    sends == SendsBefore(events, k) && left == events[Min(sends, |events|)..]
  }

  lemma FollowsOn(events: seq<Event>, k: nat, left: seq<Event>, sends: nat)
    requires Follows(events, k, left, sends)
    ensures Follows(events, k + 1, AfterNext(left), sends + NextSends(left))
  {
    NextExchange(events, k);
  }

  lemma VerdictOn(sid: byte, events: seq<Event>, k: nat, left: seq<Event>, sends: nat)
    requires Follows(events, k, left, sends)
    ensures NextVerdict(sid, left) == VerdictOf(sid, events, k)
  {
    RefusalsOfSuffix(events, Min(sends, |events|));
  }

  /** How many 0x21 the exchange that hears the next event behind the first `u` has heard before. */
  function Refusals(events: seq<Event>, u: nat): (n: nat)
    requires u <= |events|
    ensures n <= u && n < Remaining(RETRY_START)
  {
    if u == 0 || !events[u - 1].Refused? || Refusals(events, u - 1) + 1 == Remaining(RETRY_START) then 0
    else Refusals(events, u - 1) + 1
  }

  /** An exchange ends with event `u`: with anything but a 0x21, and with a 0x21 when the counter runs out. */
  predicate EndsExchange(events: seq<Event>, u: nat)
    requires u < |events|
  {
    !events[u].Refused? || Refusals(events, u) + 1 == Remaining(RETRY_START)
  }

  /** How many exchanges end with the first `u` events. */
  function Ended(events: seq<Event>, u: nat): (n: nat)
    requires u <= |events|
    ensures n <= u
  {
    if u == 0 then 0 else Ended(events, u - 1) + if EndsExchange(events, u - 1) then 1 else 0
  }

  /** Up to event `u`, the exchange under way has heard nothing but 0x21. */
  lemma {:induction false} RefusalsAdd(events: seq<Event>, u: nat)
    requires u <= |events|
    ensures RefusalsFrom(events, u - Refusals(events, u)) == Refusals(events, u) + RefusalsFrom(events, u)
  {
    if Refusals(events, u) > 0 {
      RefusalsAdd(events, u - 1);
    }
  }

  /** The exchange under way behind the first `u` events began with the send that met its first 0x21. */
  lemma {:induction false} ExchangeUnderWay(events: seq<Event>, u: nat)
    requires u <= |events|
    ensures SendsBefore(events, Ended(events, u)) == u - Refusals(events, u)
  {
    if u > 0 {
      ExchangeUnderWay(events, u - 1);
      if EndsExchange(events, u - 1) {
        RefusalsAdd(events, u - 1);
      }
    }
  }

  /** Which exchange event `u` ends, and with which sends: the last of them, the others having met a 0x21. */
  lemma EndsExactly(events: seq<Event>, u: nat)
    requires u < |events| && EndsExchange(events, u)
    ensures SendsBefore(events, Ended(events, u)) == u - Refusals(events, u)
    ensures SendsBefore(events, Ended(events, u) + 1) == u + 1
  {
    ExchangeUnderWay(events, u);
    ExchangeUnderWay(events, u + 1);
  }

  lemma EndsWithVerdict(sid: byte, events: seq<Event>, u: nat)
    requires u < |events| && EndsExchange(events, u)
    ensures VerdictOf(sid, events, Ended(events, u)) == EventVerdict(sid, events[u])
  {
    EndsExactly(events, u);
  }

  /** Once the events have run out, the sends hear nothing. */
  lemma {:induction false} ThenNothing(events: seq<Event>, k: nat)
    requires k >= Ended(events, |events|)
    ensures SendsBefore(events, k + 1) > |events|
    decreases k
  {
    if k == Ended(events, |events|) {
      ExchangeUnderWay(events, |events|);
      RefusalsAdd(events, |events|);
    } else {
      ThenNothing(events, k - 1);
    }
  }
}
