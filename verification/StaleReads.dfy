/** Memory reads, whose responses say nothing of the range that was read: which read returns which data. */
module StaleReads {
  import opened Bytes
  import opened UdsDefinitions
  import opened UdsTypes
  import opened Exchange
  import opened Hearing
  import opened Replies
  import opened Calls
  import opened Conversations
  import opened LateResponses
  import ReadMemory

  const MEMORY_SID: byte := ReadMemory.READ_MEMORY_BY_ADDRESS_SID

  /** The event is a frame that is looked at or handed on. */
  predicate Carries(event: Event, raw: seq<byte>) { event == Checked(raw) || event == HandedOn(raw) }

  lemma MemoryEventExactly(call: Call, event: Event, data: seq<byte>)
    requires Sid(call) == MEMORY_SID
    ensures EventOutcome(call, event) == Ready(ReadMemoryByAddress(data))
       <==> Carries(event, [ReadMemory.RESPONSE_SID] + data)
  {
    if event.Checked? || event.HandedOn? {
      assert event.frame != [] ==> event.frame == [event.frame[0]] + event.frame[1..];
    }
  }

  /** No reply to the first `n` sends carries the frame. */
  predicate Unheard(sid: byte, replies: seq<seq<Arrival>>, n: int, raw: seq<byte>) {
    forall h, j :: 0 <= h < |replies| && h < n && 0 <= j < |Events(sid, replies[h])| ==>
      !Carries(Events(sid, replies[h])[j], raw)
  }

  /**
   * A memory read returns given data if and only if the event that ends it carries them and is of a reply
   * to one of its own sends, when no reply to a send of an earlier call carries the same data.
   */
  lemma OwnMemoryExactly(calls: seq<Call>, replies: seq<seq<Arrival>>, g: nat, k: nat,
                         events: seq<Event>, u: nat, data: seq<byte>)
    requires AllTo(calls, MEMORY_SID) && AllWhole(MEMORY_SID, replies)
    requires g < |replies| && k < |Events(MEMORY_SID, replies[g])|
    requires events == EventsOfAll(MEMORY_SID, replies) && u == EventsBefore(MEMORY_SID, replies, g) + k && g <= u
    requires u < |events| && EndsExchange(events, u) && Ended(events, u) < |calls|
    requires Unheard(MEMORY_SID, replies, u - Refusals(events, u), [ReadMemory.RESPONSE_SID] + data)
    ensures OutcomeOf(Perform, calls, Quiet(Stream(replies)), Ended(events, u)) == Returned(data)
       <==> && Carries(Events(MEMORY_SID, replies[g])[k], [ReadMemory.RESPONSE_SID] + data)
            && Backlog(MEMORY_SID, replies, g) + k <= Refusals(events, u)
  {
    OwnReplyExactly(calls, MEMORY_SID, replies, g, k, events, u);
    MemoryEventExactly(calls[Ended(events, u)], Events(MEMORY_SID, replies[g])[k], data);
  }

  // ----- links on which memory reads get in and out of step

  const PENDING: Arrival := Frame([0x7F, 0x23, 0x78])
  const BUSY: Arrival := Frame([0x7F, 0x23, 0x21])

  function Memory(data: seq<byte>): Arrival { Frame([0x63] + data) }

  function Returned(data: seq<byte>): Await<UdsResponse> { Ready(ReadMemoryByAddress(data)) }

  function Reads(arguments: seq<ReadMemory.MemoryArguments>): seq<Call> {
    seq(|arguments|, i requires 0 <= i < |arguments| => ReadMemoryRaw(arguments[i]))
  }

  lemma ReadsAreSent(arguments: seq<ReadMemory.MemoryArguments>)
    ensures AllTo(Reads(arguments), MEMORY_SID)
  {
  }

  // What the arrivals of these links bring, one by one.

  lemma MemoryBrings(data: seq<byte>, more: seq<Arrival>)
    ensures Events(MEMORY_SID, [Memory(data)] + more)
         == [Checked([ReadMemory.RESPONSE_SID] + data)] + Events(MEMORY_SID, more)
  {
    assert ([Memory(data)] + more)[1..] == more;
  }

  lemma BusyBrings(more: seq<Arrival>)
    ensures Events(MEMORY_SID, [BUSY] + more) == [Refused] + Events(MEMORY_SID, more)
  {
    assert ([BUSY] + more)[1..] == more;
  }

  /** The frame that a read looks at is returned, and the sends are those of its 0x21 and the last one. */
  lemma ReadReturns(arguments: seq<ReadMemory.MemoryArguments>, arrivals: seq<Arrival>, events: seq<Event>,
                    i: nat, u: nat, data: seq<byte>)
    requires events == Events(MEMORY_SID, arrivals) && i < |arguments|
    requires u < |events| && Ended(events, u) == i && events[u] == Checked([ReadMemory.RESPONSE_SID] + data)
    ensures OutcomeOf(Perform, Reads(arguments), Quiet(arrivals), i) == Returned(data)
    ensures forall n :: SentBy(Reads(arguments), arrivals, i, n) <==> u - Refusals(events, u) <= n <= u
  {
    ReadsAreSent(arguments);
    EventEndsCall(Reads(arguments), MEMORY_SID, arrivals, events, u, i);
    MemoryEventExactly(Reads(arguments)[i], events[u], data);
  }

  /** A memory read returns what was read for the one before it: nothing in the response tells them apart. */
  lemma StaleMemoryIsReturned(first: ReadMemory.MemoryArguments, second: ReadMemory.MemoryArguments, data: seq<byte>)
    ensures var calls, wire := Reads([first, second]), Quiet([PENDING, Silence, Memory(data)]);
            && OutcomeOf(Perform, calls, wire, 0)
            == Failed(NRC(NrcData(MEMORY_SID, RequestCorrectlyReceivedResponsePending)))
            && OutcomeOf(Perform, calls, wire, 1) == Returned(data)
  {
    var calls, arrivals := Reads([first, second]), [PENDING, Silence, Memory(data)];
    LateEvents(data, []);
    assert arrivals == [PENDING, Silence, Memory(data)] + [];
    var events := Events(MEMORY_SID, arrivals);
    WithoutRefusals(events, 1);
    ReadsAreSent([first, second]);
    EventEndsCall(calls, MEMORY_SID, arrivals, events, 0, 0);
    ReadReturns([first, second], arrivals, events, 1, 1, data);
  }

  lemma LateEvents(data: seq<byte>, more: seq<Arrival>)
    ensures Events(MEMORY_SID, [PENDING, Silence, Memory(data)] + more)
         == [Missed(Silence), Checked([ReadMemory.RESPONSE_SID] + data)] + Events(MEMORY_SID, more)
  {
    var behind := [Memory(data)] + more;
    assert [PENDING, Silence, Memory(data)] + more == [PENDING, Silence] + behind;
    PendingBrings(MEMORY_SID, PENDING.frame, Silence, behind);
    MemoryBrings(data, more);
  }

  /**
   * Nothing is late, but the server says twice that it needs time: the first read fails, and the second one
   * returns what the first one asked for.
   */
  lemma RepeatedPendingIsOutOfStep(arguments: seq<ReadMemory.MemoryArguments>, first: seq<byte>, second: seq<byte>)
    requires |arguments| == 2
    ensures var replies := [[PENDING, PENDING, Memory(first)], [Memory(second)]];
            var calls, arrivals := Reads(arguments), Stream(replies);
            && arrivals == [PENDING, PENDING, Memory(first), Memory(second)]
            && OutcomeOf(Perform, calls, Quiet(arrivals), 0)
            == Failed(SidMismatch(0x63, 0x7F, PENDING.frame))
            && OutcomeOf(Perform, calls, Quiet(arrivals), 1) == Returned(first)
            && SentBy(calls, arrivals, 0, 0) && !SentBy(calls, arrivals, 1, 0)
  {
    var replies := [[PENDING, PENDING, Memory(first)], [Memory(second)]];
    var calls, arrivals := Reads(arguments), [PENDING, PENDING, Memory(first), Memory(second)];
    FewReplies(replies[0], replies[1], [], []);
    RepeatedEvents(first, second);
    ReadsAreSent(arguments);
    var events := Events(MEMORY_SID, arrivals);
    WithoutRefusals(events, 1);
    EventEndsCall(calls, MEMORY_SID, arrivals, events, 0, 0);
    ReadReturns(arguments, arrivals, events, 1, 1, first);
  }

  lemma RepeatedEvents(first: seq<byte>, second: seq<byte>)
    ensures Events(MEMORY_SID, [PENDING, PENDING, Memory(first), Memory(second)])
         == [HandedOn(PENDING.frame), Checked([ReadMemory.RESPONSE_SID] + first),
             Checked([ReadMemory.RESPONSE_SID] + second)]
  {
    MemoryBrings(second, []);
    MemoryBrings(first, [Memory(second)]);
    PendingBrings(MEMORY_SID, PENDING.frame, PENDING, [Memory(first), Memory(second)]);
    assert [Memory(second)] + [] == [Memory(second)];
    assert [Memory(first)] + [Memory(second)] == [Memory(first), Memory(second)];
    assert [PENDING, PENDING] + [Memory(first), Memory(second)] == [PENDING, PENDING, Memory(first), Memory(second)];
  }

  /**
   * The first response is late and the second read returns it. The server refuses the send of the second
   * read, but the third read hears that; the send it then repeats is answered next, so it gets its own data.
   */
  lemma RefusalCatchesUp(arguments: seq<ReadMemory.MemoryArguments>, first: seq<byte>, third: seq<byte>)
    requires |arguments| == 3
    ensures var replies := [[PENDING, Silence, Memory(first)], [BUSY], [Memory(third)], [Memory(third)]];
            var calls, arrivals := Reads(arguments), Stream(replies);
            && arrivals == [PENDING, Silence, Memory(first), BUSY, Memory(third), Memory(third)]
            && OutcomeOf(Perform, calls, Quiet(arrivals), 1) == Returned(first) && !SentBy(calls, arrivals, 1, 0)
            && OutcomeOf(Perform, calls, Quiet(arrivals), 2) == Returned(third) && SentBy(calls, arrivals, 2, 2)
  {
    var replies := [[PENDING, Silence, Memory(first)], [BUSY], [Memory(third)], [Memory(third)]];
    var calls, arrivals := Reads(arguments), [PENDING, Silence, Memory(first), BUSY, Memory(third), Memory(third)];
    FewReplies(replies[0], replies[1], replies[2], replies[3]);
    LateThenRefused(first, third);
    ReadsAroundRefusal(arguments, arrivals, Events(MEMORY_SID, arrivals), first, third);
  }

  lemma ReadsAroundRefusal(arguments: seq<ReadMemory.MemoryArguments>, arrivals: seq<Arrival>, events: seq<Event>,
                           first: seq<byte>, third: seq<byte>)
    requires |arguments| == 3 && events == Events(MEMORY_SID, arrivals)
    requires |events| == 5 && forall u :: 0 <= u < 5 ==> (events[u].Refused? <==> u == 2)
    requires events[1] == Checked([ReadMemory.RESPONSE_SID] + first)
    requires events[3] == Checked([ReadMemory.RESPONSE_SID] + third)
    ensures var calls := Reads(arguments);
            && OutcomeOf(Perform, calls, Quiet(arrivals), 1) == Returned(first) && !SentBy(calls, arrivals, 1, 0)
            && OutcomeOf(Perform, calls, Quiet(arrivals), 2) == Returned(third) && SentBy(calls, arrivals, 2, 2)
  {
    OneRefusal(events);
    ReadReturns(arguments, arrivals, events, 1, 1, first);
    ReadReturns(arguments, arrivals, events, 2, 3, third);
  }

  lemma OneRefusal(events: seq<Event>)
    requires |events| == 5 && forall u :: 0 <= u < 5 ==> (events[u].Refused? <==> u == 2)
    ensures Refusals(events, 1) == 0 && Ended(events, 1) == 1 && Refusals(events, 3) == 1 && Ended(events, 3) == 2
  {
    assert Refusals(events, 1) == 0 && Ended(events, 1) == 1;
    assert Refusals(events, 2) == 0 && Ended(events, 2) == 2;
  }

  lemma LateThenRefused(first: seq<byte>, third: seq<byte>)
    ensures Events(MEMORY_SID, [PENDING, Silence, Memory(first), BUSY, Memory(third), Memory(third)])
         == [Missed(Silence), Checked([ReadMemory.RESPONSE_SID] + first), Refused,
             Checked([ReadMemory.RESPONSE_SID] + third), Checked([ReadMemory.RESPONSE_SID] + third)]
  {
    MemoryBrings(third, []);
    MemoryBrings(third, [Memory(third)]);
    BusyBrings([Memory(third), Memory(third)]);
    LateEvents(first, [BUSY, Memory(third), Memory(third)]);
    assert [Memory(third)] + [] == [Memory(third)];
    assert [Memory(third)] + [Memory(third)] == [Memory(third), Memory(third)];
    assert [BUSY] + [Memory(third), Memory(third)] == [BUSY, Memory(third), Memory(third)];
    assert [PENDING, Silence, Memory(first)] + [BUSY, Memory(third), Memory(third)]
        == [PENDING, Silence, Memory(first), BUSY, Memory(third), Memory(third)];
  }

  /** A lost reply makes up for a late one: the third read gets its own data. */
  lemma LostReplyCatchesUp(arguments: seq<ReadMemory.MemoryArguments>, first: seq<byte>, third: seq<byte>)
    requires |arguments| == 3
    ensures var replies := [[PENDING, Silence, Memory(first)], [], [Memory(third)]];
            var calls, arrivals := Reads(arguments), Stream(replies);
            && arrivals == [PENDING, Silence, Memory(first), Memory(third)]
            && OutcomeOf(Perform, calls, Quiet(arrivals), 1) == Returned(first) && !SentBy(calls, arrivals, 1, 0)
            && OutcomeOf(Perform, calls, Quiet(arrivals), 2) == Returned(third) && SentBy(calls, arrivals, 2, 2)
  {
    var replies := [[PENDING, Silence, Memory(first)], [], [Memory(third)]];
    var calls, arrivals := Reads(arguments), [PENDING, Silence, Memory(first), Memory(third)];
    FewReplies(replies[0], replies[1], replies[2], []);
    MemoryBrings(third, []);
    LateEvents(first, [Memory(third)]);
    assert [Memory(third)] + [] == [Memory(third)];
    assert [PENDING, Silence, Memory(first)] + [Memory(third)] == arrivals;
    var events := Events(MEMORY_SID, arrivals);
    WithoutRefusals(events, 1);
    WithoutRefusals(events, 2);
    ReadReturns(arguments, arrivals, events, 1, 1, first);
    ReadReturns(arguments, arrivals, events, 2, 2, third);
  }
}
