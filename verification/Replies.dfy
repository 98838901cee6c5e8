/** Replies to one send after another, and the events they bring. */
module Replies {
  import opened Bytes
  import opened Exchange
  import opened Verdicts
  import opened Hearing

  /** The first `n` of the sequences, end to end. */
  function Flat<T>(parts: seq<seq<T>>, n: nat): seq<T>
    requires n <= |parts|
  {
    if n == 0 then [] else Flat(parts, n - 1) + parts[n - 1]
  }

  lemma {:induction false} FlatAt<T>(parts: seq<seq<T>>, g: nat, k: nat, n: nat)
    requires g < n <= |parts| && k < |parts[g]|
    ensures |Flat(parts, g)| + k < |Flat(parts, n)| && Flat(parts, n)[|Flat(parts, g)| + k] == parts[g][k]
  {
    if g < n - 1 {
      FlatAt(parts, g, k, n - 1);
    }
  }

  function Each<A, B>(f: A -> B, parts: seq<A>): seq<B> { seq(|parts|, g requires 0 <= g < |parts| => f(parts[g])) }

  /** `f` maps the end to end of two fitting sequences to that of their images. */
  ghost predicate Distributes<A(!new), B>(f: seq<A> -> seq<B>, fits: seq<A> -> bool) {
    && fits([]) && f([]) == []
    && forall a, b :: Joins(f, fits, a, b)
  }

  ghost predicate Joins<A, B>(f: seq<A> -> seq<B>, fits: seq<A> -> bool, a: seq<A>, b: seq<A>) {
    fits(a) && fits(b) ==> fits(a + b) && f(a + b) == f(a) + f(b)
  }

  lemma {:induction false} FlatMaps<A(!new), B>(f: seq<A> -> seq<B>, fits: seq<A> -> bool, parts: seq<seq<A>>, n: nat)
    requires Distributes(f, fits) && n <= |parts| && forall g :: 0 <= g < |parts| ==> fits(parts[g])
    ensures fits(Flat(parts, n)) && f(Flat(parts, n)) == Flat(Each(f, parts), n)
  {
    if n > 0 {
      FlatMaps(f, fits, parts, n - 1);
      assert Joins(f, fits, Flat(parts, n - 1), parts[n - 1]);
    }
  }

  /** A reply does not stop at a 0x78: what follows it, were it only silence, is part of the reply. */
  predicate Whole(sid: byte, reply: seq<Arrival>) {
    if reply == [] then true
    else if reply[0].Frame? && IsPending(reply[0].frame, sid) && !IsBusy(reply[0].frame, sid) then
      |reply| >= 2 && Whole(sid, reply[2..])
    else Whole(sid, reply[1..])
  }

  predicate AllWhole(sid: byte, replies: seq<seq<Arrival>>) {
    forall g :: 0 <= g < |replies| ==> Whole(sid, replies[g])
  }

  /** What arrives when reply `g` is all that the server sends on account of send `g`. */
  function Stream(replies: seq<seq<Arrival>>): seq<Arrival> { Flat(replies, |replies|) }

  function EventsOfEach(sid: byte, replies: seq<seq<Arrival>>): seq<seq<Event>> {
    Each(reply => Events(sid, reply), replies)
  }

  function EventsOfAll(sid: byte, replies: seq<seq<Arrival>>): seq<Event> {
    Flat(EventsOfEach(sid, replies), |replies|)
  }

  /** How many events the first `n` replies bring. */
  function EventsBefore(sid: byte, replies: seq<seq<Arrival>>, n: nat): nat
    requires n <= |replies|
  {
    |Flat(EventsOfEach(sid, replies), n)|
  }

  /** How many more events the first `n` replies bring than the one for each send. */
  function Backlog(sid: byte, replies: seq<seq<Arrival>>, n: nat): int
    requires n <= |replies|
  {
    EventsBefore(sid, replies, n) - n
  }

  lemma Prepended<T>(first: seq<T>, a: seq<T>, b: seq<T>)
    ensures (first + a) + b == first + (a + b)
  {
  }

  lemma {:induction false} EventsOfBoth(sid: byte, a: seq<Arrival>, b: seq<Arrival>)
    requires Whole(sid, a)
    ensures Events(sid, a + b) == Events(sid, a) + Events(sid, b)
  {
    if a == [] {
      assert a + b == b;
    } else if a[0].Frame? && IsPending(a[0].frame, sid) && !IsBusy(a[0].frame, sid) {
      assert (a + b)[2..] == a[2..] + b;
      EventsOfBoth(sid, a[2..], b);
      Prepended([Behind(a[1])], Events(sid, a[2..]), Events(sid, b));
    } else {
      assert (a + b)[1..] == a[1..] + b;
      EventsOfBoth(sid, a[1..], b);
      assert Events(sid, a) == First(sid, a[0]) + Events(sid, a[1..]);
      assert Events(sid, a + b) == First(sid, a[0]) + Events(sid, a[1..] + b);
      Prepended(First(sid, a[0]), Events(sid, a[1..]), Events(sid, b));
    }
  }

  function First(sid: byte, arrival: Arrival): seq<Event> {
    match arrival
    case Silence => []
    case Fault(_) => [Missed(arrival)]
    case Frame(raw) => if IsBusy(raw, sid) then [Refused] else [Checked(raw)]
  }

  lemma {:induction false} WholeBoth(sid: byte, a: seq<Arrival>, b: seq<Arrival>)
    requires Whole(sid, a) && Whole(sid, b)
    ensures Whole(sid, a + b)
  {
    if a == [] {
      assert a + b == b;
    } else if a[0].Frame? && IsPending(a[0].frame, sid) && !IsBusy(a[0].frame, sid) {
      assert (a + b)[2..] == a[2..] + b;
      WholeBoth(sid, a[2..], b);
    } else {
      assert (a + b)[1..] == a[1..] + b;
      WholeBoth(sid, a[1..], b);
    }
  }

  /** The events of the whole stream are those of the replies, one after another. */
  lemma EventsOfStream(sid: byte, replies: seq<seq<Arrival>>)
    requires AllWhole(sid, replies)
    ensures Events(sid, Stream(replies)) == EventsOfAll(sid, replies)
  {
    var f, fits := reply => Events(sid, reply), reply => Whole(sid, reply);
    assert Distributes(f, fits) by {
      forall a, b ensures Joins(f, fits, a, b) {
        if fits(a) && fits(b) {
          WholeBoth(sid, a, b);
          EventsOfBoth(sid, a, b);
        }
      }
    }
    FlatMaps(f, fits, replies, |replies|);
    assert Each(f, replies) == EventsOfEach(sid, replies);
  }

  lemma EventOfReply(sid: byte, replies: seq<seq<Arrival>>, g: nat, k: nat, events: seq<Event>)
    requires AllWhole(sid, replies) && events == EventsOfAll(sid, replies)
    requires g < |replies| && k < |Events(sid, replies[g])|
    ensures events == Events(sid, Stream(replies))
    ensures var u := EventsBefore(sid, replies, g) + k; u < |events| && events[u] == Events(sid, replies[g])[k]
  {
    EventsOfStream(sid, replies);
    FlatAt(EventsOfEach(sid, replies), g, k, |replies|);
  }

  /** A few replies, end to end. */
  lemma FewReplies(a: seq<Arrival>, b: seq<Arrival>, c: seq<Arrival>, d: seq<Arrival>)
    ensures Stream([a, b]) == a + b && Stream([a, b, c]) == a + b + c && Stream([a, b, c, d]) == a + b + c + d
  {
    FewFlat([a, b]);
    FewFlat([a, b, c]);
    FewFlat([a, b, c, d]);
  }

  lemma FewFlat<T>(parts: seq<seq<T>>)
    requires |parts| >= 2
    ensures Flat(parts, 2) == parts[0] + parts[1]
    ensures |parts| >= 3 ==> Flat(parts, 3) == parts[0] + parts[1] + parts[2]
    ensures |parts| >= 4 ==> Flat(parts, 4) == parts[0] + parts[1] + parts[2] + parts[3]
  {
    assert Flat(parts, 1) == parts[0];
  }

  lemma PendingBrings(sid: byte, pending: seq<byte>, next: Arrival, more: seq<Arrival>)
    requires IsPending(pending, sid)
    ensures Events(sid, [Frame(pending), next] + more) == [Behind(next)] + Events(sid, more)
  {
    BusyIsNotPending(pending, sid);
    assert ([Frame(pending), next] + more)[2..] == more;
  }

  predicate AllPending(sid: byte, arrivals: seq<Arrival>) {
    forall i :: 0 <= i < |arrivals| ==> arrivals[i].Frame? && IsPending(arrivals[i].frame, sid)
  }

  lemma OnePending(sid: byte, pendings: seq<Arrival>, rest: seq<Arrival>)
    requires AllPending(sid, pendings) && |pendings| == 1 && rest != []
    ensures |Events(sid, pendings + rest)| == 1 + |Events(sid, rest[1..])|
  {
    assert pendings + rest == [Frame(pendings[0].frame), rest[0]] + rest[1..];
    PendingBrings(sid, pendings[0].frame, rest[0], rest[1..]);
  }

  lemma TwoPendings(sid: byte, pendings: seq<Arrival>, rest: seq<Arrival>)
    requires AllPending(sid, pendings) && |pendings| >= 2
    ensures |Events(sid, pendings + rest)| == 1 + |Events(sid, pendings[2..] + rest)|
  {
    assert pendings + rest == [Frame(pendings[0].frame), pendings[1]] + (pendings[2..] + rest);
    PendingBrings(sid, pendings[0].frame, pendings[1], pendings[2..] + rest);
  }

  /** What goes up by one with every step of two. */
  lemma {:induction false} ByTwos(count: nat -> nat, m: nat, i: nat)
    requires i <= m && forall j: nat :: j + 2 <= m ==> count(j) == 1 + count(j + 2)
    ensures count(i) == (m - i) / 2 + if (m - i) % 2 == 1 then count(m - 1) else count(m)
    decreases m - i
  {
    if i + 2 <= m {
      ByTwos(count, m, i + 2);
    }
  }

  /** How many events the 0x78 from `i` on bring, and what follows them. */
  function CountFrom(sid: byte, pendings: seq<Arrival>, rest: seq<Arrival>, i: nat): nat {
    if i <= |pendings| then |Events(sid, pendings[i..] + rest)| else 0
  }

  lemma CountStep(sid: byte, pendings: seq<Arrival>, rest: seq<Arrival>, i: nat)
    requires AllPending(sid, pendings) && i + 2 <= |pendings|
    ensures CountFrom(sid, pendings, rest, i) == 1 + CountFrom(sid, pendings, rest, i + 2)
  {
    TwoPendings(sid, pendings[i..], rest);
    assert pendings[i..][2..] == pendings[i + 2..];
  }

  lemma CountEnd(sid: byte, pendings: seq<Arrival>, rest: seq<Arrival>)
    requires AllPending(sid, pendings) && rest != []
    ensures CountFrom(sid, pendings, rest, 0) == |Events(sid, pendings + rest)|
    ensures CountFrom(sid, pendings, rest, |pendings|) == |Events(sid, rest)|
    ensures pendings != [] ==> CountFrom(sid, pendings, rest, |pendings| - 1) == 1 + |Events(sid, rest[1..])|
  {
    var m := |pendings|;
    assert pendings[0..] == pendings && pendings[m..] + rest == rest;
    if m > 0 {
      OnePending(sid, pendings[m - 1..], rest);
    }
  }

  /** Two 0x78 at a time bring one event; an arrival behind an odd one is handed on or missed. */
  lemma PendingsBring(sid: byte, pendings: seq<Arrival>, rest: seq<Arrival>)
    requires AllPending(sid, pendings) && rest != []
    ensures |Events(sid, pendings + rest)|
         == |pendings| / 2 + if |pendings| % 2 == 1 then 1 + |Events(sid, rest[1..])| else |Events(sid, rest)|
  {
    var count := (i: nat) => CountFrom(sid, pendings, rest, i);
    forall j: nat | j + 2 <= |pendings| ensures count(j) == 1 + count(j + 2) {
      CountStep(sid, pendings, rest, j);
    }
    ByTwos(count, |pendings|, 0);
    CountEnd(sid, pendings, rest);
  }

  /** A response brings one event if and only if at most one 0x78 comes before it, and in time if there is one. */
  lemma OneEventExactly(sid: byte, pendings: seq<Arrival>, late: bool, response: seq<byte>)
    requires AllPending(sid, pendings) && !IsBusy(response, sid) && !IsPending(response, sid)
    ensures var events := Events(sid, pendings + if late then [Silence, Frame(response)] else [Frame(response)]);
            && |events| == 1 + (if late then (|pendings| + 1) / 2 else |pendings| / 2)
            && (|events| == 1 <==> pendings == [] || (|pendings| == 1 && !late))
  {
    PendingsBring(sid, pendings, if late then [Silence, Frame(response)] else [Frame(response)]);
    assert Events(sid, [Frame(response)]) == [Checked(response)];
    assert [Silence, Frame(response)][1..] == [Frame(response)];
  }
}
