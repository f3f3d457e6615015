/** Manager: the map of watchers and the critical sections of its methods, each run under the
    lock as the source runs it. */
module WatchManager {
  import opened Channels

  // ---- Watcher identifiers (generateWatcherID) ----

  /** rune(n): the low 32 bits of the counter as a signed integer. */
  function Rune(n: nat): int {
    var low := n % 0x1_0000_0000;
    if low < 0x8000_0000 then low else low - 0x1_0000_0000
  }

  /** string(rune(n)): a value that is no Unicode scalar becomes U+FFFD. */
  function RuneString(n: nat): (s: string)
    ensures |s| == 1
  {
    var r := Rune(n);
    if Scalar(r) then [r as char] else [0xFFFD as char]
  }

  /** The formatted second, a dash, and the counter as a character. */
  function WatcherId(stamp: string, n: nat): string { stamp + "-" + RuneString(n) }

  predicate Scalar(r: int) { 0 <= r < 0xD800 || 0xE000 <= r < 0x11_0000 }

  /** The rune is shown as U+FFFD. */
  predicate Replaced(r: int) { !Scalar(r) || r == 0xFFFD }

  predicate SameRune(n: nat, m: nat) { Rune(n) == Rune(m) || (Replaced(Rune(n)) && Replaced(Rune(m))) }

  /** Two identifiers are equal exactly when they are of the same second and their counters
      have the same rune or two runes that are both shown as U+FFFD. */
  lemma WatcherIdsEqual(s: string, n: nat, t: string, m: nat)
    ensures WatcherId(s, n) == WatcherId(t, m) <==>
      s == t && SameRune(n, m)
  {
    var a, b := WatcherId(s, n), WatcherId(t, m);
    assert a[|s| + 1] == RuneString(n)[0] && b[|t| + 1] == RuneString(m)[0];
    assert s == a[..|s|] && t == b[..|t|];
    if a == b {
      assert |s| == |t|;
    }
  }

  /** The counters whose identifier differs from all earlier ones, whatever the seconds. */
  predicate FreshNumber(c: nat) {
    c <= 0xD800 || (0xE000 <= c < 0x11_0000 && c != 0xFFFD) || c == 0x1_0000_0000
  }

  lemma FreshHasNewRune(n: nat, c: nat)
    requires 1 <= n < c && FreshNumber(c)
    ensures !SameRune(n, c)
  {
  }

  lemma StaleRepeatsRune(c: nat) returns (n: nat)
    requires !FreshNumber(c)
    ensures 1 <= n < c && SameRune(n, c)
  {
    n := if Replaced(Rune(c)) then 0xD800 else c - 0x1_0000_0000;
  }

  /** An identifier differs from all identifiers made before it, even within one second, if
      and only if its counter is one of these. */
  lemma FreshNumberExact(stamp: string, c: nat)
    ensures (forall n | 1 <= n < c :: WatcherId(stamp, n) != WatcherId(stamp, c)) <==> FreshNumber(c)
  {
    forall n | 1 <= n < c ensures WatcherId(stamp, n) != WatcherId(stamp, c) <==> !SameRune(n, c) {
      WatcherIdsEqual(stamp, n, stamp, c);
    }
    if FreshNumber(c) {
      forall n | 1 <= n < c ensures WatcherId(stamp, n) != WatcherId(stamp, c) { FreshHasNewRune(n, c); }
    } else {
      var n := StaleRepeatsRune(c);
      assert WatcherId(stamp, n) == WatcherId(stamp, c);
    }
  }

  /** `id` has the form of an identifier made by one of the first `count` calls. */
  ghost predicate Issued(id: string, count: nat) {
    |id| == 16 && exists n: nat :: 1 <= n <= count && id[15..] == RuneString(n)
  }

  lemma NextIdFresh(stamp: string, count: nat)
    requires |stamp| == 14
    ensures var id := WatcherId(stamp, count + 1);
      Issued(id, count + 1) && (FreshNumber(count + 1) ==> !Issued(id, count))
  {
    var id := WatcherId(stamp, count + 1);
    assert id[15..] == RuneString(count + 1);
    if FreshNumber(count + 1) {
      FreshNumberExact(stamp, count + 1);
      forall n: nat | 1 <= n <= count ensures id[15..] != RuneString(n) {
        assert WatcherId(stamp, n) != WatcherId(stamp, count + 1);
      }
    }
  }

  predicate OpenOk(ch: Channel) { ChannelOk(ch) && ch.open }

  ghost predicate RegisteredOk(ws: map<string, Channel>, count: nat) {
    forall id | id in ws :: OpenOk(ws[id]) && Issued(id, count)
  }

  predicate ClosedOk(closed: seq<Channel>) {
    forall i | 0 <= i < |closed| :: ChannelOk(closed[i]) && !closed[i].open
  }

  function Delivered(ws: map<string, Channel>, event: Event): map<string, Channel> {
    map id | id in ws :: Deliver(ws[id], event)
  }

  lemma DeliveredOk(ws: map<string, Channel>, event: Event, count: nat)
    requires RegisteredOk(ws, count)
    ensures RegisteredOk(Delivered(ws, event), count)
  {
    forall id | id in ws ensures OpenOk(Deliver(ws[id], event)) { DeliverOk(ws[id], event); }
  }

  lemma DeliveredWrites(ws: map<string, Channel>, event: Event)
    ensures Delivered(ws, event).Keys == ws.Keys
    ensures forall id | id in ws ::
      var ch, t, matches := ws[id], Delivered(ws, event)[id], MatchesNamespace(ws[id].ns, event.namespace);
      && t.buffer == ch.buffer + (if matches && |ch.buffer| < ch.cap then [event] else [])
      && t.received == ch.received
      && t.attempts == ch.attempts + (if matches then [Attempt(event, |ch.buffer|)] else [])
      && t.ns == ch.ns && t.cap == ch.cap && t.open == ch.open
  {
    forall id | id in ws { DeliverWrites(ws[id], event); }
  }

  lemma ClosingOk(closed: seq<Channel>, ch: Channel)
    requires ClosedOk(closed) && OpenOk(ch)
    ensures ClosedOk(closed + [ch.(open := false)])
  {
  }

  class Manager {
    var watchers: map<string, Channel>
    var watcherCounter: nat

    /** The channels closed so far; their readers may still drain them. */
    ghost var closed: seq<Channel>

    ghost predicate Valid()
      reads this
    {
      RegisteredOk(watchers, watcherCounter) && ClosedOk(closed)
    }

    constructor ()
      ensures Valid() && watchers == map[] && watcherCounter == 0 && closed == []
    {
      watchers, watcherCounter, closed := map[], 0, [];
    }

    method GenerateWatcherId(stamp: string) returns (id: string)
      modifies this`watcherCounter
      ensures watcherCounter == old(watcherCounter) + 1 && id == WatcherId(stamp, watcherCounter)
    {
      watcherCounter := watcherCounter + 1;
      id := stamp + "-" + RuneString(watcherCounter);
    }

    /** Registers a new open, empty channel. The identifier is not in use while the counter is a
        fresh number; otherwise the watcher it displaces from the map is never closed here. */
    method Watch(ns: string, bufferSize: nat, stamp: string) returns (id: string)
      requires Valid() && |stamp| == 14
      modifies this
      ensures Valid()
      ensures watcherCounter == old(watcherCounter) + 1 && id == WatcherId(stamp, watcherCounter)
      ensures FreshNumber(watcherCounter) ==> id !in old(watchers)
      ensures watchers == old(watchers)[id := NewChannel(ns, bufferSize)] && closed == old(closed)
      ensures watchers[id] == Channel(ns, bufferSize, true, [], [], [])
    {
      NextIdFresh(stamp, watcherCounter);
      ghost var before := watcherCounter;
      id := GenerateWatcherId(stamp);
      watchers := watchers[id := NewChannel(ns, bufferSize)];
      forall i | i in watchers ensures Issued(i, watcherCounter) { assert i != id ==> Issued(i, before); }
    }

    /** Closes the channel and drops the watcher. An unknown identifier is ignored. While
        identifiers are fresh cleanupWatcher does the same once the context is done; in general
        it closes the channel of its own watcher, which WatchProtocol models. */
    method Unwatch(id: string)
      requires Valid()
      modifies this
      ensures Valid()
      ensures watchers == old(watchers) - {id} && watcherCounter == old(watcherCounter)
      ensures closed == old(closed) + if id in old(watchers) then [old(watchers)[id].(open := false)] else []
    {
      if id in watchers {
        ClosingOk(closed, watchers[id]);
        closed := closed + [watchers[id].(open := false)];
        watchers := watchers - {id};
      }
    }

    /** The loop of Notify over the watchers, in whatever order the map is ranged over. */
    method SendToAll(event: Event)
      modifies this`watchers
      ensures watchers == Delivered(old(watchers), event)
    {
      ghost var before := watchers;
      var todo := watchers.Keys;
      while todo != {}
        invariant todo <= before.Keys == watchers.Keys
        invariant forall id | id in before ::
          watchers[id] == if id in todo then before[id] else Deliver(before[id], event)
        decreases todo
      {
        var id :| id in todo;
        var ch := watchers[id];
        if MatchesNamespace(ch.ns, event.namespace) {
          var backlog := |ch.buffer|;
          if backlog < ch.cap {
            ch := ch.(buffer := ch.buffer + [event]);
          }
          ch := ch.(attempts := ch.attempts + [Attempt(event, backlog)]);
        }
        assert ch == Deliver(before[id], event);
        watchers := watchers[id := ch];
        todo := todo - {id};
      }
      assert watchers == Delivered(before, event);
    }

    /** One non-blocking send to every matching watcher, in whatever order the map is ranged over. */
    method Notify(event: Event)
      requires Valid()
      modifies this`watchers
      ensures Valid()
      ensures watchers == Delivered(old(watchers), event)
      ensures watchers.Keys == old(watchers).Keys
      ensures forall id | id in watchers ::
        var ch, matches := old(watchers)[id], MatchesNamespace(old(watchers)[id].ns, event.namespace);
        && watchers[id].buffer == ch.buffer + (if matches && |ch.buffer| < ch.cap then [event] else [])
        && watchers[id].received == ch.received
        && watchers[id].attempts == ch.attempts + (if matches then [Attempt(event, |ch.buffer|)] else [])
        && watchers[id].ns == ch.ns && watchers[id].cap == ch.cap && watchers[id].open == ch.open
    {
      DeliveredOk(watchers, event, watcherCounter);
      DeliveredWrites(watchers, event);
      SendToAll(event);
    }

    /** The client of watcher `id` reads one event. */
    method Receive(id: string) returns (event: Event)
      requires Valid() && id in watchers && watchers[id].buffer != []
      modifies this`watchers
      ensures Valid()
      ensures event == old(watchers)[id].buffer[0] && watchers == old(watchers)[id := old(watchers)[id].Receive()]
      ensures var ch := old(watchers)[id];
        watchers[id] == ch.(received := ch.received + [event], buffer := ch.buffer[1..])
    {
      ReceiveOk(watchers[id]);
      event := watchers[id].buffer[0];
      watchers := watchers[id := watchers[id].Receive()];
    }
  }
}
