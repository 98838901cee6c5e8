/** What the trace of a run shows: how often it sent and received, and why it came out as it did. */
module TraceLaws {
  import opened Bytes
  import opened UdsDefinitions
  import opened UdsTypes
  import opened Exchange
  import opened ExchangeLaws
  import opened ExchangeTheorems

  // ----- accounting

  function Receives(log: seq<Action>): nat {
    if log == [] then 0 else (if IsReceive(log[0]) then 1 else 0) + Receives(log[1..])
  }

  function FailedSends(log: seq<Action>): nat {
    if log == [] then 0 else (if log[0].SendFailed? then 1 else 0) + FailedSends(log[1..])
  }

  /** A matching 0x21 reply that was answered by sending again. */
  predicate ResentAt(sid: byte, log: seq<Action>, i: nat) {
    i + 1 < |log| && log[i].Received? && IsBusy(log[i].frame, sid) && IsSend(log[i + 1])
  }

  function Resends(sid: byte, log: seq<Action>): nat {
    if log == [] then 0 else (if ResentAt(sid, log, 0) then 1 else 0) + Resends(sid, log[1..])
  }

  /** A matching 0x78 reply that was answered by receiving once more. */
  predicate WaitedAt(sid: byte, log: seq<Action>, i: nat) {
    i + 1 < |log| && log[i].Received? && IsPending(log[i].frame, sid) && IsReceive(log[i + 1])
  }

  function Waits(sid: byte, log: seq<Action>): nat {
    if log == [] then 0 else (if WaitedAt(sid, log, 0) then 1 else 0) + Waits(sid, log[1..])
  }

  lemma {:induction false} ProtocolAccounting(request: seq<byte>, log: seq<Action>)
    requires request != [] && Protocol(request, log)
    ensures var sid := request[0];
            && Sends(log) == 1 + Resends(sid, log)
            && Receives(log) + FailedSends(log) == Sends(log) + Waits(sid, log)
            && FailedSends(log) <= 1 && Waits(sid, log) <= 1
    decreases |log|
  {
    var sid := request[0];
    if |log| >= 2 {
      assert log[1..][1..] == log[2..];
      if IsBusyRound(sid, log) {
        ProtocolAccounting(request, log[2..]);
        assert ResentAt(sid, log[1..], 0);
      } else if |log| == 3 {
        var last := log[2..];
        assert last[1..] == [];
        assert Sends(last) == 0 && Receives(last) == 1 && FailedSends(last) == 0;
        assert Resends(sid, last) == 0 && Waits(sid, last) == 0;
        assert WaitedAt(sid, log[1..], 0) && !ResentAt(sid, log[1..], 0);
      } else {
        assert log[2..] == [];
      }
    }
  }

  predicate IsBusyRound(sid: byte, log: seq<Action>) {
    |log| > 2 && log[1].Received? && IsBusy(log[1].frame, sid)
  }

  /** The send side of the protocol: only the request is sent, and nothing after a 0x78. */
  lemma {:induction false} ProtocolSends(request: seq<byte>, log: seq<Action>, i: nat, j: nat)
    requires request != [] && Protocol(request, log)
    requires i < j < |log|
    ensures IsSend(log[i]) ==> log[i] == Sent(request)
    ensures IsSend(log[j]) ==> log[j].frame == request
    ensures IsSend(log[j]) && log[i].Received? ==> !IsPending(log[i].frame, request[0])
    decreases |log|
  {
    if IsBusyRound(request[0], log) {
      if i >= 2 {
        ProtocolSends(request, log[2..], i - 2, j - 2);
      } else if j > 2 {
        ProtocolSends(request, log[2..], 0, j - 2);
      }
    }
  }

  /** Accounting, for every run over every link. */
  lemma EveryRunAccounts(request: seq<byte>, start: int32, link: Link)
    requires request != []
    ensures var sid, log := request[0], Fresh(request, start, link).wire.log;
            && Sends(log) == 1 + Resends(sid, log)
            && Receives(log) + FailedSends(log) == Sends(log) + Waits(sid, log)
            && FailedSends(log) <= 1 && Waits(sid, log) <= 1
            && (forall i :: 0 <= i < |log| && IsSend(log[i]) ==> log[i].frame == request)
            && (forall i, j :: 0 <= i < j < |log| && log[i].Received? && IsPending(log[i].frame, sid)
                               ==> !IsSend(log[j]))
  {
    var sid, log := request[0], Fresh(request, start, link).wire.log;
    EveryRunFollowsProtocol(request, start, link);
    ProtocolAccounting(request, log);
    forall i, j | 0 <= i < j < |log|
      ensures IsSend(log[i]) ==> log[i] == Sent(request)
      ensures IsSend(log[j]) ==> log[j].frame == request
      ensures IsSend(log[j]) && log[i].Received? ==> !IsPending(log[i].frame, sid)
    {
      ProtocolSends(request, log, i, j);
    }
  }

  // ----- provenance

  /** The last thing done was to receive `raw` in reply to the request. */
  predicate Answered(log: seq<Action>, raw: seq<byte>) {
    |log| >= 2 && log[|log| - 1] == Received(raw) && log[|log| - 2].Sent?
  }

  /** The last two things done were to receive a matching 0x78 and then `action`. */
  predicate AfterPending(sid: byte, log: seq<Action>, action: Action) {
    && |log| >= 3 && log[|log| - 1] == action && log[|log| - 3].Sent?
    && log[|log| - 2].Received? && IsPending(log[|log| - 2].frame, sid)
  }

  /** How an outcome follows from what was last sent and received. */
  ghost predicate Justified(request: seq<byte>, outcome: Await<seq<byte>>, log: seq<Action>)
    requires request != []
  {
    var sid := request[0];
    match outcome
    case Ready(raw) =>
      || (Answered(log, raw) && raw != [] && raw[0] != NEGATIVE_RESPONSE_SID)
      || AfterPending(sid, log, Received(raw))
    case Failed(NRC(nrc)) =>
      && nrc.rejectedSid == sid
      && (|| (nrc.code == RequestCorrectlyReceivedResponsePending && AfterPending(sid, log, TimedOut))
          || (&& nrc.code != RequestCorrectlyReceivedResponsePending
              && exists raw :: Answered(log, raw) && IsNegative(raw, sid, nrc.code)))
    case Failed(SidMismatch(expected, received, raw)) =>
      && expected == sid != received && Answered(log, raw)
      && exists code :: IsNegative(raw, received, code)
    case Failed(UnknownNRC(rejected, unknown)) =>
      && (exists raw :: Answered(log, raw) && |raw| >= 3 && raw[..3] == [NEGATIVE_RESPONSE_SID, rejected, unknown])
      && forall code :: NrcByte(code) != unknown
    case Failed(ResponseEmpty) =>
      exists raw :: Answered(log, raw) && |raw| < 3 && (raw != [] ==> raw[0] == NEGATIVE_RESPONSE_SID)
    case Failed(CommunicationError(e)) =>
      log != [] && (log[|log| - 1] == SendFailed(request, e) || log[|log| - 1] == ReceiveFailed(e))
    case Failed(_) => false
    case Blocked => log != [] && log[|log| - 1] == StillWaiting
    case Panicked => false
  }

  lemma LastRoundIsJustified(request: seq<byte>, link: Link)
    requires request != []
    ensures var run := LastRound(request, link); Justified(request, run.outcome, run.wire.log)
  {
    if Replies(request, link) {
      var sid, round := request[0], Round(request, link);
      var raw := round.outcome.value;
      assert Answered(round.wire.log, raw);
      if IsPending(raw, sid) {
        DelayedIsJustified(request, raw, round.wire);
      } else if !IsBusy(raw, sid) {
        FinalIsJustified(request, raw, round.wire.log);
      }
    }
  }

  lemma DelayedIsJustified(request: seq<byte>, raw: seq<byte>, wire: Wire)
    requires request != [] && IsPending(raw, request[0]) && wire.log == [Sent(request), Received(raw)]
    ensures var run := Delayed(request[0], wire); Justified(request, run.outcome, run.wire.log)
  {
  }

  lemma FinalIsJustified(request: seq<byte>, raw: seq<byte>, log: seq<Action>)
    requires request != [] && Answered(log, raw)
    requires !IsPending(raw, request[0])
    ensures Justified(request, Final(request[0], raw), log)
  {
    match Classify(raw)
    case Success(_) =>
    case Failure(NRC(nrc)) =>
      ClassifyExactly(raw, nrc.rejectedSid, nrc.code, 0);
    case Failure(UnknownNRC(rejected, unknown)) =>
      ClassifyExactly(raw, rejected, PositiveResponse, unknown);
    case Failure(_) =>
  }

  /** Every outcome of every run is justified by the last frames on its trace. */
  lemma {:induction false} EveryOutcomeIsJustified(request: seq<byte>, start: int32, link: Link)
    requires request != []
    ensures var run := Fresh(request, start, link); Justified(request, run.outcome, run.wire.log)
    decreases Remaining(start)
  {
    if Repeats(request, start, link) {
      GoesRoundAgain(request, start, link);
      var round := Round(request, link);
      EveryOutcomeIsJustified(request, Decrement(start), round.wire.link);
      var rest := Fresh(request, Decrement(start), round.wire.link);
      JustifiedLater(request, rest.outcome, round.wire.log, rest.wire.log);
    } else {
      StopsAfterRound(request, start, link);
      LastRoundIsJustified(request, link);
    }
  }

  lemma JustifiedLater(request: seq<byte>, outcome: Await<seq<byte>>, past: seq<Action>, log: seq<Action>)
    requires request != [] && Justified(request, outcome, log)
    ensures Justified(request, outcome, past + log)
  {
  }

  lemma DelayedFrameIsReturned(request: seq<byte>, outcome: Await<seq<byte>>, log: seq<Action>, delayed: seq<byte>)
    requires request != [] && Justified(request, outcome, log)
    requires AfterPending(request[0], log, Received(delayed))
    ensures outcome == Ready(delayed)
  {
  }

  // ----- conservation

  /** What the actions of a log took from the link. */
  function Taken(log: seq<Action>): seq<Arrival> {
    if log == [] then []
    else
      (match log[0]
       case Received(f) => [Frame(f)]
       case ReceiveFailed(e) => [Fault(e)]
       case _ => []) + Taken(log[1..])
  }

  function Audible(arrivals: seq<Arrival>): seq<Arrival> {
    if arrivals == [] then []
    else (if arrivals[0].Silence? then [] else [arrivals[0]]) + Audible(arrivals[1..])
  }

  /** On the way from `before` to `after` the link was relieved of what `log` took, and of silence. */
  predicate Conserves(before: seq<Arrival>, after: seq<Arrival>, log: seq<Action>) {
    && |after| <= |before|
    && var n := |before| - |after|;
    && after == before[n..]
    && Taken(log) == Audible(before[..n])
  }

  lemma {:induction false} AudibleAppend(a: seq<Arrival>, b: seq<Arrival>)
    ensures Audible(a + b) == Audible(a) + Audible(b)
  {
    if a == [] {
      assert a + b == b;
    } else {
      assert (a + b)[1..] == a[1..] + b;
      AudibleAppend(a[1..], b);
    }
  }

  lemma {:induction false} TakenAppend(a: seq<Action>, b: seq<Action>)
    ensures Taken(a + b) == Taken(a) + Taken(b)
  {
    if a == [] {
      assert a + b == b;
    } else {
      assert (a + b)[1..] == a[1..] + b;
      TakenAppend(a[1..], b);
    }
  }

  lemma ConservesOn(a: seq<Arrival>, b: seq<Arrival>, c: seq<Arrival>, first: seq<Action>, second: seq<Action>)
    requires Conserves(a, b, first) && Conserves(b, c, second)
    ensures Conserves(a, c, first + second)
  {
    var n, m := |a| - |b|, |b| - |c|;
    assert a[..n + m] == a[..n] + b[..m];
    AudibleAppend(a[..n], b[..m]);
    TakenAppend(first, second);
  }

  lemma {:induction false} SilenceConserves(arrivals: seq<Arrival>)
    ensures Conserves(arrivals, AfterSilence(arrivals), [])
  {
    if arrivals != [] && arrivals[0].Silence? {
      SilenceConserves(arrivals[1..]);
      var n := |arrivals| - |AfterSilence(arrivals)|;
      assert arrivals[..n][1..] == arrivals[1..][..n - 1];
    }
  }

  lemma TakingConserves(arrivals: seq<Arrival>, action: Action)
    requires arrivals != []
    requires match arrivals[0]
             case Frame(f) => action == Received(f)
             case Fault(e) => action == ReceiveFailed(e)
             case Silence => action == TimedOut
    ensures Conserves(arrivals, arrivals[1..], [action])
  {
  }

  lemma ListenConserves(wire: Wire)
    requires wire.log == []
    ensures var run := Listen(wire);
            Conserves(wire.link.arrivals, run.wire.link.arrivals, run.wire.log)
  {
    var arrivals := wire.link.arrivals;
    var heard := AfterSilence(arrivals);
    SilenceConserves(arrivals);
    if heard != [] {
      var action := Listen(wire).wire.log[0];
      TakingConserves(heard, action);
      ConservesOn(arrivals, heard, heard[1..], [], [action]);
      assert [] + [action] == [action];
    } else {
      assert Taken([StillWaiting]) == Taken([]);
    }
  }

  lemma ListenBrieflyConserves(wire: Wire)
    requires wire.log == []
    ensures var run := ListenBriefly(wire);
            Conserves(wire.link.arrivals, run.wire.link.arrivals, run.wire.log)
  {
    if wire.link.arrivals != [] {
      TakingConserves(wire.link.arrivals, ListenBriefly(wire).wire.log[0]);
    }
  }

  lemma RoundConserves(request: seq<byte>, link: Link)
    requires Transmit(request, Wire(link, [])).outcome.Ready?
    ensures var round := Round(request, link);
            Conserves(link.arrivals, round.wire.link.arrivals, round.wire.log)
  {
    var sent := Transmit(request, Wire(link, [])).wire;
    var bare := Wire(sent.link, []);
    LinkAfter(request, bare, sent.log);
    assert sent.log + [] == sent.log;
    ListenConserves(bare);
    assert sent.log[1..] == [];
    ConservesOn(link.arrivals, link.arrivals, Listen(bare).wire.link.arrivals, sent.log, Listen(bare).wire.log);
  }

  lemma LastRoundConserves(request: seq<byte>, link: Link)
    requires request != []
    ensures var run := LastRound(request, link);
            Conserves(link.arrivals, run.wire.link.arrivals, run.wire.log)
  {
    if Transmit(request, Wire(link, [])).outcome.Ready? {
      var round := Round(request, link);
      RoundConserves(request, link);
      var bare := Wire(round.wire.link, []);
      LinkAfter(request, bare, round.wire.log);
      assert round.wire.log + [] == round.wire.log;
      ListenBrieflyConserves(bare);
      var delayed := ListenBriefly(bare).wire;
      ConservesOn(link.arrivals, round.wire.link.arrivals, delayed.link.arrivals, round.wire.log, delayed.log);
    }
  }

  /** Nothing that arrives is lost, reordered or made up by a run, and what it leaves is untouched. */
  lemma {:induction false} EveryRunConserves(request: seq<byte>, start: int32, link: Link)
    requires request != []
    ensures var run := Fresh(request, start, link);
            Conserves(link.arrivals, run.wire.link.arrivals, run.wire.log)
    decreases Remaining(start)
  {
    if Repeats(request, start, link) {
      GoesRoundAgain(request, start, link);
      RoundConserves(request, link);
      var round := Round(request, link).wire;
      var rest := Fresh(request, Decrement(start), round.link).wire;
      EveryRunConserves(request, Decrement(start), round.link);
      ConservesOn(link.arrivals, round.link.arrivals, rest.link.arrivals, round.log, rest.log);
    } else {
      StopsAfterRound(request, start, link);
      LastRoundConserves(request, link);
    }
  }
}
