/** The laws of the exchange: its outcome, its retries, its trace and where its errors come from. */
module ExchangeTheorems {
  import opened Bytes
  import opened Options
  import opened UdsDefinitions
  import opened UdsTypes
  import opened Exchange
  import opened ExchangeLaws

  // ----- the outcome in closed form

  /** How many matching 0x21 replies arrive before anything else is heard. */
  function BusyReplies(sid: byte, arrivals: seq<Arrival>): nat {
    if arrivals == [] then 0
    else if arrivals[0].Silence? then BusyReplies(sid, arrivals[1..])
    else if arrivals[0].Frame? && IsBusy(arrivals[0].frame, sid) then 1 + BusyReplies(sid, arrivals[1..])
    else 0
  }

  /** What arrives from the first audible thing that is not a matching 0x21 reply. */
  function AfterBusy(sid: byte, arrivals: seq<Arrival>): (rest: seq<Arrival>)
    ensures rest != [] ==> !rest[0].Silence? && (rest[0].Frame? ==> !IsBusy(rest[0].frame, sid))
  {
    if arrivals != [] && (arrivals[0].Silence? || (arrivals[0].Frame? && IsBusy(arrivals[0].frame, sid)))
    then AfterBusy(sid, arrivals[1..])
    else arrivals
  }

  /** The verdict of the first arrival that counts, and after a 0x78 of the one behind it. */
  function Verdict(sid: byte, arrivals: seq<Arrival>): Await<seq<byte>> {
    if arrivals == [] then Blocked
    else
      match arrivals[0]
      case Silence => Blocked
      case Fault(e) => Failed(CommunicationError(e))
      case Frame(raw) =>
        if !IsPending(raw, sid) then Final(sid, raw)
        else if |arrivals| == 1 then Failed(NRC(NrcData(sid, RequestCorrectlyReceivedResponsePending)))
        else
          match arrivals[1]
          case Silence => Failed(NRC(NrcData(sid, RequestCorrectlyReceivedResponsePending)))
          case Fault(e) => Failed(CommunicationError(e))
          case Frame(delayed) => Ready(delayed)
  }

  /** The first of the coming `n` sends that fails. */
  function FirstFault(faults: seq<Option<UdsCommunicationError>>, n: nat): (i: Option<nat>)
    ensures match i
            case Some(i) => i < n && i < |faults| && faults[i].Some? && forall j :: 0 <= j < i ==> faults[j].None?
            case None => forall j :: 0 <= j < n && j < |faults| ==> faults[j].None?
  {
    if n == 0 || faults == [] then None
    else if faults[0].Some? then Some(0)
    else
      match FirstFault(faults[1..], n - 1)
      case None => None
      case Some(i) => Some(i + 1)
  }

  function Min(a: nat, b: nat): nat { if a < b then a else b }

  /** Sends tried, successful or not. */
  function Sends(log: seq<Action>): nat {
    if log == [] then 0 else (if IsSend(log[0]) then 1 else 0) + Sends(log[1..])
  }

  lemma {:induction false} SilenceIsSkipped(sid: byte, arrivals: seq<Arrival>)
    ensures var heard := AfterSilence(arrivals);
            && BusyReplies(sid, arrivals) == BusyReplies(sid, heard)
            && AfterBusy(sid, arrivals) == AfterBusy(sid, heard)
  {
    if arrivals != [] && arrivals[0].Silence? {
      SilenceIsSkipped(sid, arrivals[1..]);
    }
  }

  lemma LastRoundSendsOnce(request: seq<byte>, link: Link)
    requires request != []
    ensures Sends(LastRound(request, link).wire.log) == 1
  {
    var round, log := Round(request, link).wire, LastRound(request, link).wire.log;
    assert IsSend(log[0]);
    if Transmit(request, Wire(link, [])).outcome.Ready? {
      assert IsReceive(Round(request, link).wire.log[1]) && IsReceive(ListenBriefly(round).wire.log[2]);
      assert log == round.log || log == ListenBriefly(round).wire.log;
    }
    NoSends(log[1..]);
  }

  lemma {:induction false} NoSends(log: seq<Action>)
    requires forall i :: 0 <= i < |log| ==> !IsSend(log[i])
    ensures Sends(log) == 0
  {
    if log != [] {
      NoSends(log[1..]);
    }
  }

  /** The outcome and the number of sends in closed form. */
  function Expected(sid: byte, start: int32, link: Link): (Await<seq<byte>>, nat) {
    var busy := BusyReplies(sid, link.arrivals);
    var sends := Min(busy + 1, Remaining(start));
    match FirstFault(link.sendFaults, sends)
    case Some(i) => (Failed(CommunicationError(link.sendFaults[i].value)), i + 1)
    case None =>
      (if busy >= Remaining(start) then Failed(NRC(NrcData(sid, BusyRepeatRequest)))
       else Verdict(sid, AfterBusy(sid, link.arrivals)),
       sends)
  }

  lemma ExpectedLast(request: seq<byte>, start: int32, link: Link)
    requires request != [] && !Repeats(request, start, link)
    ensures Expected(request[0], start, link) == (LastRound(request, link).outcome, 1)
  {
    SilenceIsSkipped(request[0], link.arrivals);
  }

  lemma ExpectedAgain(request: seq<byte>, start: int32, link: Link)
    requires request != [] && Repeats(request, start, link)
    ensures var rest := Expected(request[0], Decrement(start), Round(request, link).wire.link);
            Expected(request[0], start, link) == (rest.0, rest.1 + 1)
  {
    SilenceIsSkipped(request[0], link.arrivals);
  }

  /**
   * For every request, start value, arrival sequence and send failure: the run skips the leading
   * 0x21 replies, resending after each, and returns the verdict of what comes next; unless a send
   * fails first, or the replies outlast the counter.
   */
  lemma {:induction false} OutcomeExactly(request: seq<byte>, start: int32, link: Link)
    requires request != []
    ensures var run := Fresh(request, start, link);
            (run.outcome, Sends(run.wire.log)) == Expected(request[0], start, link)
    decreases Remaining(start)
  {
    if Repeats(request, start, link) {
      GoesRoundAgain(request, start, link);
      var round := Round(request, link);
      OutcomeExactly(request, Decrement(start), round.wire.link);
      var log := Fresh(request, Decrement(start), round.wire.link).wire.log;
      assert (round.wire.log + log)[1..][1..] == log;
      ExpectedAgain(request, start, link);
    } else {
      StopsAfterRound(request, start, link);
      LastRoundSendsOnce(request, link);
      ExpectedLast(request, start, link);
    }
  }

  // ----- giving up

  /**
   * The exchange fails with the repeated 0x21 exactly when the link accepts `Remaining(start)`
   * sends and answers each with one, after exactly that many sends.
   */
  lemma GivesUpExactly(request: seq<byte>, start: int32, link: Link)
    requires request != []
    ensures var run := Fresh(request, start, link); var sid := request[0];
            run.outcome == Failed(NRC(NrcData(sid, BusyRepeatRequest)))
            <==> && BusyReplies(sid, link.arrivals) >= Remaining(start)
                 && FirstFault(link.sendFaults, Remaining(start)) == None
    ensures var run := Fresh(request, start, link); var sid := request[0];
            run.outcome == Failed(NRC(NrcData(sid, BusyRepeatRequest)))
            ==> Sends(run.wire.log) == Remaining(start)
  {
    OutcomeExactly(request, start, link);
    VerdictIsNeverBusy(request[0], link.arrivals);
  }

  lemma {:induction false} VerdictIsNeverBusy(sid: byte, arrivals: seq<Arrival>)
    ensures Verdict(sid, AfterBusy(sid, arrivals)) != Failed(NRC(NrcData(sid, BusyRepeatRequest)))
  {
    if arrivals != [] && (arrivals[0].Silence? || (arrivals[0].Frame? && IsBusy(arrivals[0].frame, sid))) {
      VerdictIsNeverBusy(sid, arrivals[1..]);
    } else if arrivals != [] && arrivals[0].Frame? {
      ClassifyExactly(arrivals[0].frame, sid, BusyRepeatRequest, 0);
    }
  }

  /** A start value of `n` allows `n` sends; the client's own start value of zero allows 2^32. */
  lemma SendsAreBounded(request: seq<byte>, start: int32, link: Link)
    requires request != []
    ensures 1 <= Sends(Fresh(request, start, link).wire.log) <= Remaining(start)
    ensures start > 0 ==> Remaining(start) == start
    ensures Remaining(RETRY_START) == 0x1_0000_0000
  {
    OutcomeExactly(request, start, link);
  }

  /** The retry counter after `n` decrements. */
  function Decremented(start: int32, n: nat): int32 {
    if n == 0 then start else Decrement(Decremented(start, n - 1))
  }

  /**
   * The counter first comes to zero after `Remaining(start)` decrements. It gets there without
   * wrapping around just when it starts above zero; otherwise it wraps behind `start + 2^31`.
   */
  lemma {:induction false} CounterReachesZero(start: int32, n: nat)
    requires 1 <= n <= Remaining(start)
    ensures Decremented(start, n) == if n <= start + 0x8000_0000 then start - n else start - n + 0x1_0000_0000
    ensures Decremented(start, n) == 0 <==> n == Remaining(start)
  {
    if n > 1 {
      CounterReachesZero(start, n - 1);
    }
  }

  // ----- retries are invisible

  /** Below the give-up bound the start value makes no difference. */
  lemma {:induction false} StartIsIrrelevant(request: seq<byte>, start: int32, other: int32, link: Link)
    requires request != []
    requires BusyReplies(request[0], link.arrivals) < Remaining(start)
    requires BusyReplies(request[0], link.arrivals) < Remaining(other)
    ensures Fresh(request, start, link) == Fresh(request, other, link)
    decreases Remaining(start)
  {
    SilenceIsSkipped(request[0], link.arrivals);
    if Repeats(request, start, link) {
      assert Repeats(request, other, link);
      GoesRoundAgain(request, start, link);
      GoesRoundAgain(request, other, link);
      StartIsIrrelevant(request, Decrement(start), Decrement(other), Round(request, link).wire.link);
    } else {
      StopsAfterRound(request, start, link);
      StopsAfterRound(request, other, link);
    }
  }

  function Frames(replies: seq<seq<byte>>): seq<Arrival> {
    if replies == [] then [] else [Frame(replies[0])] + Frames(replies[1..])
  }

  /** The rounds in which `request` is sent and each of `replies` received. */
  function Rounds(request: seq<byte>, replies: seq<seq<byte>>): seq<Action> {
    if replies == [] then [] else [Sent(request), Received(replies[0])] + Rounds(request, replies[1..])
  }

  /** The link as it is once it has carried those rounds. */
  function Preceded(replies: seq<seq<byte>>, link: Link): Link {
    Link(Frames(replies) + link.arrivals, seq(|replies|, _ => None) + link.sendFaults)
  }

  /**
   * Any number of matching 0x21 replies below the give-up bound, put in front of what the link
   * does, add one round each and change nothing else.
   */
  lemma {:induction false} BusyRepliesAreInvisible(request: seq<byte>, start: int32,
                                                         replies: seq<seq<byte>>, link: Link)
    requires request != []
    requires forall i :: 0 <= i < |replies| ==> IsBusy(replies[i], request[0])
    requires |replies| + BusyReplies(request[0], link.arrivals) < Remaining(start)
    ensures Fresh(request, start, Preceded(replies, link))
         == Fresh(request, start, link).Following(Rounds(request, replies))
    decreases |replies|
  {
    var run := Fresh(request, start, link);
    if replies == [] {
      assert Preceded(replies, link) == link;
      assert Rounds(request, replies) + run.wire.log == run.wire.log;
    } else {
      FirstOfTheRounds(request, start, replies, link);
      BusyRepliesAreInvisible(request, Decrement(start), replies[1..], link);
      StartIsIrrelevant(request, Decrement(start), start, link);
      run.FollowingBoth([Sent(request), Received(replies[0])], Rounds(request, replies[1..]));
    }
  }

  lemma FirstOfTheRounds(request: seq<byte>, start: int32, replies: seq<seq<byte>>, link: Link)
    requires request != [] && replies != [] && IsBusy(replies[0], request[0]) && Remaining(start) > 1
    ensures Fresh(request, start, Preceded(replies, link))
         == Fresh(request, Decrement(start), Preceded(replies[1..], link))
            .Following([Sent(request), Received(replies[0])])
  {
    var whole := Preceded(replies, link);
    assert whole.arrivals == [Frame(replies[0])] + (Frames(replies[1..]) + link.arrivals);
    assert whole.sendFaults[1..] == seq(|replies[1..]|, _ => None) + link.sendFaults;
    assert Round(request, whole).wire.link == Preceded(replies[1..], link);
    GoesRoundAgain(request, start, whole);
  }

  // ----- the whole run in closed form

  /** The leading matching 0x21 replies. */
  function BusyFrames(sid: byte, arrivals: seq<Arrival>): (replies: seq<seq<byte>>)
    ensures |replies| == BusyReplies(sid, arrivals)
  {
    if arrivals == [] then []
    else if arrivals[0].Silence? then BusyFrames(sid, arrivals[1..])
    else if arrivals[0].Frame? && IsBusy(arrivals[0].frame, sid) then
      [arrivals[0].frame] + BusyFrames(sid, arrivals[1..])
    else []
  }

  /** What arrives behind the first `k` of them. */
  function AfterReplies(sid: byte, arrivals: seq<Arrival>, k: nat): seq<Arrival>
    requires k <= BusyReplies(sid, arrivals)
  {
    if k == 0 then arrivals
    else if arrivals[0].Silence? then AfterReplies(sid, arrivals[1..], k)
    else AfterReplies(sid, arrivals[1..], k - 1)
  }

  /** How often the client sends again: once for each reply, until a send fails or the counter runs out. */
  function Turns(sid: byte, start: int32, link: Link): (k: nat)
    ensures k <= BusyReplies(sid, link.arrivals)
  {
    var n := Min(BusyReplies(sid, link.arrivals), Remaining(start) - 1);
    match FirstFault(link.sendFaults, n)
    case Some(i) => i
    case None => n
  }

  /** The link when it has carried the first `k` rounds. */
  function AfterRounds(sid: byte, link: Link, k: nat): Link
    requires k <= BusyReplies(sid, link.arrivals)
  {
    Link(AfterReplies(sid, link.arrivals, k), link.sendFaults[Min(k, |link.sendFaults|)..])
  }

  lemma {:induction false} RepliesSkipSilence(sid: byte, arrivals: seq<Arrival>, k: nat)
    requires 0 < k <= BusyReplies(sid, arrivals)
    ensures var heard := AfterSilence(arrivals);
            && k <= BusyReplies(sid, heard)
            && AfterReplies(sid, arrivals, k) == AfterReplies(sid, heard, k)
            && BusyFrames(sid, arrivals) == BusyFrames(sid, heard)
  {
    if arrivals[0].Silence? {
      RepliesSkipSilence(sid, arrivals[1..], k);
    }
  }

  /** One round less to go. */
  lemma TurnsAgain(request: seq<byte>, start: int32, link: Link, k: nat)
    requires request != [] && Repeats(request, start, link)
    requires k == Turns(request[0], Decrement(start), Round(request, link).wire.link)
    ensures var round, sid := Round(request, link), request[0];
            && Turns(sid, start, link) == k + 1
            && BusyFrames(sid, link.arrivals) == [round.outcome.value] + BusyFrames(sid, round.wire.link.arrivals)
            && AfterRounds(sid, link, k + 1) == AfterRounds(sid, round.wire.link, k)
  {
    CountAgain(request, start, link);
    RoundsAgain(request, link, k);
  }

  lemma CountAgain(request: seq<byte>, start: int32, link: Link)
    requires request != [] && Repeats(request, start, link)
    ensures Turns(request[0], start, link) == 1 + Turns(request[0], Decrement(start), Round(request, link).wire.link)
  {
    RepliesAgain(request, link, 0);
    var busy := BusyReplies(request[0], Round(request, link).wire.link.arrivals);
    FaultsAgain(request, link, Min(busy, Remaining(Decrement(start)) - 1));
  }

  lemma RoundsAgain(request: seq<byte>, link: Link, k: nat)
    requires request != [] && Replies(request, link) && IsBusy(Round(request, link).outcome.value, request[0])
    requires k <= BusyReplies(request[0], Round(request, link).wire.link.arrivals)
    ensures var round, sid := Round(request, link), request[0];
            && k + 1 <= BusyReplies(sid, link.arrivals)
            && BusyFrames(sid, link.arrivals) == [round.outcome.value] + BusyFrames(sid, round.wire.link.arrivals)
            && AfterRounds(sid, link, k + 1) == AfterRounds(sid, round.wire.link, k)
  {
    RepliesAgain(request, link, k);
    FaultsAgain(request, link, k);
  }

  /** The sends behind the one that a round has made. */
  lemma FaultsAgain(request: seq<byte>, link: Link, n: nat)
    requires request != [] && Replies(request, link)
    ensures var faults, later := link.sendFaults, Round(request, link).wire.link.sendFaults;
            && FirstFault(faults, n + 1) == (match FirstFault(later, n) case None => None case Some(i) => Some(i + 1))
            && later[Min(n, |later|)..] == faults[Min(n + 1, |faults|)..]
  {
  }

  /** The replies behind the one that a round has heard. */
  lemma RepliesAgain(request: seq<byte>, link: Link, k: nat)
    requires request != [] && Replies(request, link) && IsBusy(Round(request, link).outcome.value, request[0])
    requires k <= BusyReplies(request[0], Round(request, link).wire.link.arrivals)
    ensures var round, sid := Round(request, link), request[0];
            && BusyReplies(sid, link.arrivals) == 1 + BusyReplies(sid, round.wire.link.arrivals)
            && BusyFrames(sid, link.arrivals) == [round.outcome.value] + BusyFrames(sid, round.wire.link.arrivals)
            && AfterReplies(sid, link.arrivals, k + 1) == AfterReplies(sid, round.wire.link.arrivals, k)
  {
    SilenceIsSkipped(request[0], link.arrivals);
    RepliesSkipSilence(request[0], link.arrivals, k + 1);
  }

  /** For every request, start value and link: so many rounds, and then the last round, with log and remaining link. */
  lemma {:induction false} RunExactly(request: seq<byte>, start: int32, link: Link)
    requires request != []
    ensures var sid := request[0]; var k := Turns(sid, start, link);
            Fresh(request, start, link)
            == LastRound(request, AfterRounds(sid, link, k))
               .Following(Rounds(request, BusyFrames(sid, link.arrivals)[..k]))
    decreases Remaining(start)
  {
    var sid := request[0];
    var k := Turns(sid, start, link);
    if Repeats(request, start, link) {
      GoesRoundAgain(request, start, link);
      var round := Round(request, link);
      TurnsAgain(request, start, link, Turns(sid, Decrement(start), round.wire.link));
      RunExactly(request, Decrement(start), round.wire.link);
      var frames := BusyFrames(sid, round.wire.link.arrivals);
      FirstRound(request, round.outcome.value, frames, k);
      LastRound(request, AfterRounds(sid, link, k)).FollowingBoth(round.wire.log, Rounds(request, frames[..k - 1]));
    } else {
      StopsAfterRound(request, start, link);
      NoTurns(request, start, link);
      var last := LastRound(request, link);
      assert [] + last.wire.log == last.wire.log;
    }
  }

  lemma FirstRound(request: seq<byte>, raw: seq<byte>, replies: seq<seq<byte>>, k: nat)
    requires 0 < k <= |replies| + 1
    ensures Rounds(request, ([raw] + replies)[..k])
         == [Sent(request), Received(raw)] + Rounds(request, replies[..k - 1])
  {
    assert ([raw] + replies)[..k] == [raw] + replies[..k - 1];
  }

  lemma NoTurns(request: seq<byte>, start: int32, link: Link)
    requires request != [] && !Repeats(request, start, link)
    ensures Turns(request[0], start, link) == 0 && AfterRounds(request[0], link, 0) == link
  {
    SilenceIsSkipped(request[0], link.arrivals);
  }
}
