/** Watch events, the watch relation between namespaces, and the bounded channel of a watcher
    with non-blocking sends. */
module Channels {
  import opened Wrappers
  import opened Names
  import opened Store

  /** NoAction stands for any action string a reader does not know, such as the empty one. */
  datatype Action = SetAction | DeleteAction | NoAction

  /** A change event; the timestamp Notify stamps on it is left out. */
  datatype Event = Event(action: Action, namespace: string, key: string, entry: Option<KVEntry>)

  /** matchesNamespace. */
  predicate MatchesNamespace(watched: string, ns: string) {
    || watched == ns
    || watched == "*"
    || (|watched| < |ns| && ns[..|watched|] == watched && ns[|watched|] == '/')
  }

  /** Watching agrees with listing: the relation is exactly the ancestry the prefix scan of
      List uses, the wildcard apart. */
  lemma WatchAgreesWithList(watched: string, ns: string)
    ensures MatchesNamespace(watched, ns) <==> watched == "*" || Covers(watched, ns)
    ensures MatchesNamespace(watched, ns) <==> watched == "*" || Split(watched) <= Split(ns)
  {
    SlashPrefixIsAncestor(watched, ns);
    if watched + "/" <= ns {
      assert ns[..|watched|] == (watched + "/")[..|watched|] && ns[|watched|] == (watched + "/")[|watched|];
    }
    if |watched| < |ns| && ns[..|watched|] == watched && ns[|watched|] == '/' {
      assert ns[..|watched| + 1] == watched + "/";
    }
    if Split(watched) == Split(ns) { JoinSplit(watched); JoinSplit(ns); }
  }

  // ---- Channels ----

  /** A send attempt and the number of buffered events it met. */
  datatype Attempt = Attempt(event: Event, backlog: nat)

  /** A watcher's channel. `received` and `attempts` are its history. */
  datatype Channel = Channel(ns: string, cap: nat, open: bool, buffer: seq<Event>,
                             received: seq<Event>, attempts: seq<Attempt>)
  {
    /** The events delivered so far or still to be read, in order. */
    function Seen(): seq<Event> { received + buffer }

    /** A select with default: sends if there is room, otherwise drops. */
    function Offer(e: Event): Channel {
      this.(attempts := attempts + [Attempt(e, |buffer|)],
            buffer := if |buffer| < cap then buffer + [e] else buffer)
    }

    /** After everything buffered has been read. */
    function Drained(): Channel { this.(received := received + buffer, buffer := []) }

    function Receive(): Channel
      requires buffer != []
    {
      this.(received := received + [buffer[0]], buffer := buffer[1..])
    }
  }

  function NewChannel(ns: string, cap: nat): Channel { Channel(ns, cap, true, [], [], []) }

  /** The attempted events that found room, in attempt order. */
  function Accepted(attempts: seq<Attempt>, cap: nat): seq<Event> {
    if attempts == [] then [] else
    var last := attempts[|attempts| - 1];
    Accepted(attempts[..|attempts| - 1], cap) + if last.backlog < cap then [last.event] else []
  }

  function Dropped(attempts: seq<Attempt>, cap: nat): nat {
    if attempts == [] then 0 else
    Dropped(attempts[..|attempts| - 1], cap) + if attempts[|attempts| - 1].backlog < cap then 0 else 1
  }

  function Attempted(attempts: seq<Attempt>): (es: seq<Event>)
    ensures |es| == |attempts| && forall i | 0 <= i < |es| :: es[i] == attempts[i].event
  {
    seq(|attempts|, i requires 0 <= i < |attempts| => attempts[i].event)
  }

  /** Conservation: what was delivered or is buffered is exactly what found room; the buffer
      stays within capacity; only matching events are attempted. */
  predicate ChannelOk(ch: Channel) {
    && ch.received + ch.buffer == Accepted(ch.attempts, ch.cap)
    && |ch.buffer| <= ch.cap
    && forall i | 0 <= i < |ch.attempts| :: MatchesNamespace(ch.ns, ch.attempts[i].event.namespace)
  }

  lemma OfferOk(ch: Channel, e: Event)
    requires ChannelOk(ch) && MatchesNamespace(ch.ns, e.namespace)
    ensures ChannelOk(ch.Offer(e))
  {
    var t := ch.Offer(e);
    assert t.attempts[..|t.attempts| - 1] == ch.attempts;
    if |ch.buffer| < ch.cap {
      assert t.received + t.buffer == (ch.received + ch.buffer) + [e];
    }
  }

  lemma ReceiveOk(ch: Channel)
    requires ChannelOk(ch) && ch.buffer != []
    ensures ChannelOk(ch.Receive()) && ch.Receive().Seen() == ch.Seen()
  {
    assert ch.received + [ch.buffer[0]] + ch.buffer[1..] == ch.received + ch.buffer;
  }

  lemma ReceiveDrains(ch: Channel)
    requires ch.buffer != []
    ensures ch.Receive().Drained() == ch.Drained()
  {
    assert ch.received + [ch.buffer[0]] + ch.buffer[1..] == ch.received + ch.buffer;
  }

  predicate Subsequence<T(==)>(a: seq<T>, b: seq<T>) {
    a == [] || (b != [] && (Subsequence(a, b[..|b| - 1])
      || (a[|a| - 1] == b[|b| - 1] && Subsequence(a[..|a| - 1], b[..|b| - 1]))))
  }

  lemma {:induction false} AcceptedSubsequence(attempts: seq<Attempt>, cap: nat)
    ensures Subsequence(Accepted(attempts, cap), Attempted(attempts))
    ensures |Accepted(attempts, cap)| + Dropped(attempts, cap) == |attempts|
  {
    if attempts != [] {
      var n := |attempts| - 1;
      AcceptedSubsequence(attempts[..n], cap);
      assert Attempted(attempts)[..n] == Attempted(attempts[..n]);
      if attempts[n].backlog < cap {
        var a := Accepted(attempts, cap);
        assert a[..|a| - 1] == Accepted(attempts[..n], cap);
      } else {
        assert Accepted(attempts, cap) == Accepted(attempts[..n], cap);
      }
    }
  }

  /** Queue conservation of every well-formed channel: received and buffered events are a
      subsequence of the attempts in attempt order, nothing is lost beyond the counted drops,
      and an attempt was dropped exactly when it met a full buffer. */
  lemma QueueConservation(ch: Channel)
    requires ChannelOk(ch)
    ensures Subsequence(ch.Seen(), Attempted(ch.attempts))
    ensures |ch.received| + |ch.buffer| + Dropped(ch.attempts, ch.cap) == |ch.attempts|
    ensures Dropped(ch.attempts, ch.cap) == 0 <==> forall i | 0 <= i < |ch.attempts| :: ch.attempts[i].backlog < ch.cap
    ensures Dropped(ch.attempts, ch.cap) == 0 ==> ch.Seen() == Attempted(ch.attempts)
  {
    AcceptedSubsequence(ch.attempts, ch.cap);
    NothingDropped(ch.attempts, ch.cap);
  }

  lemma {:induction false} NothingDropped(attempts: seq<Attempt>, cap: nat)
    ensures Dropped(attempts, cap) == 0 <==> forall i | 0 <= i < |attempts| :: attempts[i].backlog < cap
    ensures Dropped(attempts, cap) == 0 ==> Accepted(attempts, cap) == Attempted(attempts)
  {
    if attempts != [] {
      var n := |attempts| - 1;
      NothingDropped(attempts[..n], cap);
      assert Attempted(attempts) == Attempted(attempts[..n]) + [attempts[n].event];
      assert forall i | 0 <= i < n :: attempts[i] == attempts[..n][i];
    }
  }

  // ---- Delivery of a sequence of events ----

  /** What Notify does to one registered watcher. */
  function Deliver(ch: Channel, e: Event): Channel {
    if MatchesNamespace(ch.ns, e.namespace) then ch.Offer(e) else ch
  }

  lemma DeliverOk(ch: Channel, e: Event)
    requires ChannelOk(ch)
    ensures ChannelOk(Deliver(ch, e)) && Deliver(ch, e).open == ch.open
  {
    if MatchesNamespace(ch.ns, e.namespace) { OfferOk(ch, e); }
  }

  /** One notification of a watcher, written out: a matching event is buffered if there is room
      and dropped otherwise; the attempt is recorded with the number of events it met. */
  lemma DeliverWrites(ch: Channel, e: Event)
    ensures var t, matches := Deliver(ch, e), MatchesNamespace(ch.ns, e.namespace);
      && t.buffer == ch.buffer + (if matches && |ch.buffer| < ch.cap then [e] else [])
      && t.received == ch.received
      && t.attempts == ch.attempts + (if matches then [Attempt(e, |ch.buffer|)] else [])
      && t.ns == ch.ns && t.cap == ch.cap && t.open == ch.open
  {
  }

  function DeliverAll(ch: Channel, es: seq<Event>): Channel {
    if es == [] then ch else Deliver(DeliverAll(ch, es[..|es| - 1]), es[|es| - 1])
  }

  function Matching(watched: string, es: seq<Event>): seq<Event> {
    if es == [] then [] else
    Matching(watched, es[..|es| - 1]) +
      if MatchesNamespace(watched, es[|es| - 1].namespace) then [es[|es| - 1]] else []
  }

  /** A watcher is offered exactly the matching events, in order. */
  lemma {:induction false} DeliverAllOffersMatching(ch: Channel, es: seq<Event>)
    ensures var t := DeliverAll(ch, es);
      && Attempted(t.attempts) == Attempted(ch.attempts) + Matching(ch.ns, es)
      && t.ns == ch.ns && t.cap == ch.cap && t.open == ch.open && t.received == ch.received
      && (ChannelOk(ch) ==> ChannelOk(t))
  {
    if es != [] {
      var pre, e := es[..|es| - 1], es[|es| - 1];
      DeliverAllOffersMatching(ch, pre);
      var t := DeliverAll(ch, pre);
      if MatchesNamespace(ch.ns, e.namespace) {
        if ChannelOk(ch) { OfferOk(t, e); }
        assert Attempted(t.Offer(e).attempts) == Attempted(t.attempts) + [e];
      }
    }
  }
}
