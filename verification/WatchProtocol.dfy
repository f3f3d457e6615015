/** The watch manager as a concurrent protocol: every goroutine that touches it is a thread,
    every lock operation, send, close and map update is one step. Notify calls overlap,
    because they hold only the read lock. */
module WatchProtocol {
  import opened Wrappers
  import opened Channels

  type Id = nat      // of a watcher object and its channel
  type Label = nat   // the identifier a watcher is registered under
  type Tid = nat     // of a goroutine

  /** Progress of Notify: waiting for RLock, sending to `pending`, returned. */
  datatype NotifyPhase = NWaiting | NSending(pending: set<Id>) | NDone

  /** Progress of a writer: waiting for Lock, holding it before, between and after its updates, returned. */
  datatype WritePhase = Waiting | Locked | Closed | Updated | Done

  datatype Thread =
    | Notify(event: Event, notify: NotifyPhase)
    | Watch(ns: string, cap: nat, phase: WritePhase)
    | Unwatch(name: Label, phase: WritePhase)
    | Cleanup(id: Id, phase: WritePhase)

  datatype State = State(
    registered: map<Label, Id>,   // the watchers map
    chans: map<Id, Channel>,      // every channel ever made
    labels: map<Id, Label>,       // the identifier given to each watcher
    cancelled: set<Id>,           // watchers whose context is done
    threads: map<Tid, Thread>,
    cleaner: map<Id, Tid>,        // the cleanup goroutine of each watcher
    readers: set<Tid>, writer: Option<Tid>,
    panicked: bool)               // a send on a closed channel or a second close

  const INIT := State(map[], map[], map[], {}, map[], map[], {}, None, false)

  datatype Step =
    | Call(t: Tid, thread: Thread)       // a goroutine calls Notify, Watch or Unwatch
    | RLock(t: Tid)
    | Send(t: Tid, id: Id)
    | RUnlock(t: Tid)
    | Lock(t: Tid)
    | Register(t: Tid, id: Id, name: Label, cleanup: Tid)
    | Close(t: Tid)
    | Remove(t: Tid)
    | NotRegistered(t: Tid)
    | Unlock(t: Tid)
    | Cancel(id: Id)
    | Receive(id: Id)

  predicate Writer(th: Thread) { th.Watch? || th.Unwatch? || th.Cleanup? }

  predicate Remover(th: Thread) { th.Unwatch? || th.Cleanup? }

  predicate Sending(s: State, t: Tid) {
    t in s.threads && s.threads[t].Notify? && s.threads[t].notify.NSending?
  }

  predicate InPhase(s: State, t: Tid, phase: WritePhase) {
    t in s.threads && Writer(s.threads[t]) && s.threads[t].phase == phase
  }

  /** Where a remover looks in the map. */
  function LabelOf(s: State, th: Thread): Label
    requires Remover(th)
  {
    if th.Unwatch? then th.name else if th.id in s.labels then s.labels[th.id] else 0
  }

  /** Whose channel a remover that finds something there closes: Unwatch that of the watcher
      found, a cleanup goroutine that of its own watcher. */
  function Victim(s: State, th: Thread): Id
    requires Remover(th)
  {
    if th.Cleanup? then th.id else if th.name in s.registered then s.registered[th.name] else 0
  }

  predicate InMap(s: State, id: Id) {
    id in s.labels && s.labels[id] in s.registered && s.registered[s.labels[id]] == id
  }

  /** The watchers that a range over the map visits. */
  function Members(s: State): set<Id> { set id | id in s.labels && InMap(s, id) }

  predicate HoldsWrite(s: State, t: Tid) {
    InPhase(s, t, Locked) || InPhase(s, t, Closed) || InPhase(s, t, Updated)
  }

  predicate Enabled(s: State, step: Step) {
    match step
    case Call(t, th) =>
      t !in s.threads && match th {
        case Notify(_, p) => p == NWaiting
        case Watch(_, cap, p) => cap > 0 && p == Waiting
        case Unwatch(_, p) => p == Waiting
        case Cleanup(_, _) => false
      }
    case RLock(t) => t in s.threads && s.threads[t].Notify? && s.threads[t].notify == NWaiting && s.writer == None
    case Send(t, id) => Sending(s, t) && id in s.threads[t].notify.pending && id in s.chans
    case RUnlock(t) => Sending(s, t) && s.threads[t].notify.pending == {}
    case Lock(t) =>
      && InPhase(s, t, Waiting) && s.writer == None && s.readers == {}
      && (s.threads[t].Cleanup? ==> s.threads[t].id in s.cancelled)
    case Register(t, id, name, c) =>
      InPhase(s, t, Locked) && s.threads[t].Watch? && id !in s.chans && id !in s.labels && c !in s.threads
    case Close(t) =>
      && InPhase(s, t, Locked) && Remover(s.threads[t])
      && LabelOf(s, s.threads[t]) in s.registered && Victim(s, s.threads[t]) in s.chans
    case Remove(t) => InPhase(s, t, Closed) && Remover(s.threads[t])
    case NotRegistered(t) =>
      InPhase(s, t, Locked) && Remover(s.threads[t]) && LabelOf(s, s.threads[t]) !in s.registered
    case Unlock(t) => InPhase(s, t, Updated)
    case Cancel(id) => id in s.chans
    case Receive(id) => id in s.chans && s.chans[id].buffer != []
  }

  function At(s: State, t: Tid, phase: WritePhase): State
    requires t in s.threads && Writer(s.threads[t])
  {
    s.(threads := s.threads[t := s.threads[t].(phase := phase)])
  }

  function Exec(s: State, step: Step): State
    requires Enabled(s, step)
  {
    match step
    case Call(t, th) => s.(threads := s.threads[t := th])
    case RLock(t) =>
      s.(readers := s.readers + {t}, threads := s.threads[t := s.threads[t].(notify := NSending(Members(s)))])
    case Send(t, id) =>
      var th := s.threads[t];
      var s' := s.(threads := s.threads[t := th.(notify := NSending(th.notify.pending - {id}))]);
      if !MatchesNamespace(s.chans[id].ns, th.event.namespace) then s'
      else if !s.chans[id].open then s'.(panicked := true)
      else s'.(chans := s.chans[id := s.chans[id].Offer(th.event)])
    case RUnlock(t) =>
      s.(readers := s.readers - {t}, threads := s.threads[t := s.threads[t].(notify := NDone)])
    case Lock(t) => At(s, t, Locked).(writer := Some(t))
    case Register(t, id, name, c) =>
      var th := s.threads[t];
      s.(registered := s.registered[name := id], chans := s.chans[id := NewChannel(th.ns, th.cap)],
         labels := s.labels[id := name],
         threads := s.threads[t := Watch(th.ns, th.cap, Updated)][c := Cleanup(id, Waiting)],
         cleaner := s.cleaner[id := c])
    case Close(t) =>
      var id := Victim(s, s.threads[t]);
      var s' := At(s, t, Closed).(cancelled := if s.threads[t].Unwatch? then s.cancelled + {id} else s.cancelled);
      if !s.chans[id].open then s'.(panicked := true)
      else s'.(chans := s.chans[id := s.chans[id].(open := false)])
    case Remove(t) => At(s, t, Updated).(registered := s.registered - {LabelOf(s, s.threads[t])})
    case NotRegistered(t) => At(s, t, Updated)
    case Unlock(t) => At(s, t, Done).(writer := None)
    case Cancel(id) => s.(cancelled := s.cancelled + {id})
    case Receive(id) => s.(chans := s.chans[id := s.chans[id].Receive()])
  }

  // ---- Invariant ----

  /** The cleanup goroutine of the watcher has returned. */
  predicate CleanedUp(s: State, id: Id) {
    id in s.cleaner && s.cleaner[id] in s.threads && s.threads[s.cleaner[id]] == Cleanup(id, Done)
  }

  predicate FreedBy(s: State, name: Label, id: Id) { id in s.labels && s.labels[id] == name ==> CleanedUp(s, id) }

  /** An identifier is registered again only after the cleanup goroutines of its previous
      holders have returned; identifiers never given before satisfy this. */
  ghost predicate Orderly(s: State, step: Step) { step.Register? ==> forall id: Id :: FreedBy(s, step.name, id) }

  lemma FreshLabelIsOrderly(s: State, step: Step)
    requires step.Register? ==> step.name !in s.labels.Values
    ensures Orderly(s, step)
  {
  }

  /** `t` is between closing the channel of `id` and removing it from the map. */
  predicate Removing(s: State, t: Tid, id: Id) {
    InPhase(s, t, Closed) && Remover(s.threads[t]) && Victim(s, s.threads[t]) == id
  }

  /** The read lock is held by exactly the threads inside Notify, the write lock by exactly
      the thread inside another critical section. */
  predicate ThreadOk(s: State, t: Tid) {
    && (t in s.readers <==> Sending(s, t))
    && (HoldsWrite(s, t) <==> s.writer == Some(t))
    && (InPhase(s, t, Closed) ==>
          Remover(s.threads[t]) && LabelOf(s, s.threads[t]) in s.registered && InMap(s, Victim(s, s.threads[t])))
    && (Sending(s, t) ==> s.threads[t].notify.pending <= Members(s))
    && (t in s.threads && s.threads[t].Cleanup? ==>
          s.threads[t].id in s.labels && s.threads[t].id in s.cleaner && s.cleaner[s.threads[t].id] == t)
  }

  /** A channel is open exactly while its watcher is registered, except inside the critical
      section that is about to remove it. */
  predicate WatcherOk(s: State, id: Id) {
    && (id in s.labels <==> id in s.chans)
    && (id in s.chans ==>
          && ChannelOk(s.chans[id])
          && (s.chans[id].open ==> InMap(s, id))
          && (InMap(s, id) && !s.chans[id].open ==> s.writer.Some? && Removing(s, s.writer.value, id))
          && (s.chans[id].open ==> s.writer.None? || !Removing(s, s.writer.value, id)))
  }

  /** Each watcher has its own cleanup goroutine, which is not past its removal while the
      watcher is registered. */
  predicate CleanerOk(s: State, id: Id) {
    id in s.chans && id in s.labels ==>
      && id in s.cleaner && s.cleaner[id] in s.threads
      && s.threads[s.cleaner[id]].Cleanup? && s.threads[s.cleaner[id]].id == id
      && (InMap(s, id) ==> s.threads[s.cleaner[id]].phase in {Waiting, Locked, Closed})
      && (s.labels[id] in s.registered ==> InMap(s, id) || CleanedUp(s, id))
  }

  /** The map holds watchers under the identifiers they were given. */
  predicate LabelOk(s: State, name: Label) {
    name in s.registered ==> s.registered[name] in s.labels && s.labels[s.registered[name]] == name
  }

  ghost predicate Inv(s: State) {
    && !s.panicked
    && (s.writer.Some? ==> s.readers == {})
    && ThreadsOk(s)
    && (forall id: Id :: WatcherOk(s, id))
    && (forall id: Id :: CleanerOk(s, id))
    && (forall name: Label :: LabelOk(s, name))
  }

  lemma InitInv()
    ensures Inv(INIT)
  {
  }

  ghost predicate ThreadsOk(s: State) { forall t: Tid :: ThreadOk(s, t) }

  lemma StepReadLock(s: State, step: Step, t: Tid)
    requires ThreadOk(s, t) && Enabled(s, step)
    ensures t in Exec(s, step).readers <==> Sending(Exec(s, step), t)
  {
  }

  lemma StepWriteLock(s: State, step: Step, t: Tid)
    requires ThreadsOk(s) && Enabled(s, step)
    ensures HoldsWrite(Exec(s, step), t) <==> Exec(s, step).writer == Some(t)
  {
    assert ThreadOk(s, t);
    match step
    case Call(_, _) =>
    case Cancel(_) =>
    case Receive(_) =>
    case _ => assert ThreadOk(s, step.t);
  }

  /** An identifier that may be registered is not in the map. */
  lemma FreeLabel(s: State, step: Step)
    requires Inv(s) && Enabled(s, step) && Orderly(s, step) && step.Register?
    ensures step.name !in s.registered
  {
    var id := if step.name in s.registered then s.registered[step.name] else 0;
    assert LabelOk(s, step.name) && FreedBy(s, step.name, id) && WatcherOk(s, id) && CleanerOk(s, id);
  }

  /** The watcher a remover takes out is the one it found under its identifier. */
  lemma RemovedHolder(s: State, t: Tid)
    requires Inv(s) && InPhase(s, t, Closed)
    ensures var th := s.threads[t];
      Remover(th) && InMap(s, Victim(s, th)) && s.labels[Victim(s, th)] == LabelOf(s, th)
  {
    assert ThreadOk(s, t);
    if s.threads[t].Unwatch? { assert LabelOk(s, s.threads[t].name); }
  }

  /** Only registering and removing change who is in the map. */
  lemma StepInMap(s: State, step: Step, id: Id)
    requires Inv(s) && Enabled(s, step) && Orderly(s, step)
    ensures InMap(Exec(s, step), id) <==>
      match step
      case Register(_, j, _, _) => InMap(s, id) || id == j
      case Remove(t) => InMap(s, id) && id != Victim(s, s.threads[t])
      case _ => InMap(s, id)
  {
    match step
    case Register(_, j, _, _) => FreeLabel(s, step);
    case Remove(t) => RemovedHolder(s, t);
    case _ =>
  }

  lemma StepLabels(s: State, step: Step, name: Label)
    requires Inv(s) && Enabled(s, step) && Orderly(s, step)
    ensures LabelOk(Exec(s, step), name)
  {
    assert LabelOk(s, name);
    if step.Register? && name in s.registered { assert LabelOk(s, name); }
  }

  lemma StepPending(s: State, step: Step, t: Tid)
    requires Inv(s) && Enabled(s, step) && Orderly(s, step) && Sending(Exec(s, step), t)
    ensures Exec(s, step).threads[t].notify.pending <= Members(Exec(s, step))
  {
    assert ThreadOk(s, t);
    if !step.Call? && !step.Cancel? && !step.Receive? { assert ThreadOk(s, step.t); }
    forall id | id in Exec(s, step).threads[t].notify.pending ensures id in Members(Exec(s, step)) {
      StepInMap(s, step, id);
    }
  }

  lemma StepCleanupThread(s: State, step: Step, t: Tid)
    requires ThreadOk(s, t) && Enabled(s, step)
    ensures var s' := Exec(s, step);
      t in s'.threads && s'.threads[t].Cleanup? ==>
        s'.threads[t].id in s'.labels && s'.threads[t].id in s'.cleaner && s'.cleaner[s'.threads[t].id] == t
  {
  }

  lemma StepClosing(s: State, step: Step, t: Tid)
    requires Inv(s) && Enabled(s, step) && Orderly(s, step) && InPhase(Exec(s, step), t, Closed)
    ensures var s' := Exec(s, step);
      var th := s'.threads[t];
      Remover(th) && LabelOf(s', th) in s'.registered && InMap(s', Victim(s', th))
  {
    assert ThreadOk(s, t);
    if step == Close(t) {
      ClosesHolder(s, t);
    } else {
      assert InPhase(s, t, Closed);
      assert step.Register? || step.Remove? ==> ThreadOk(s, step.t);
      StepInMap(s, step, Victim(s, s.threads[t]));
    }
  }

  /** What Close is about to close is what the map holds under the remover's identifier. */
  lemma ClosesHolder(s: State, t: Tid)
    requires Inv(s) && Enabled(s, Close(t))
    ensures InMap(s, Victim(s, s.threads[t])) && s.chans[Victim(s, s.threads[t])].open
  {
    var th := s.threads[t];
    assert ThreadOk(s, t) && LabelOk(s, LabelOf(s, th));
    assert WatcherOk(s, Victim(s, th)) && CleanerOk(s, Victim(s, th));
  }

  lemma StepThreads(s: State, step: Step, t: Tid)
    requires Inv(s) && Enabled(s, step) && Orderly(s, step)
    ensures ThreadOk(Exec(s, step), t)
  {
    assert ThreadOk(s, t);
    StepReadLock(s, step, t);
    StepWriteLock(s, step, t);
    StepCleanupThread(s, step, t);
    if Sending(Exec(s, step), t) { StepPending(s, step, t); }
    if InPhase(Exec(s, step), t, Closed) { StepClosing(s, step, t); }
  }

  /** No step sends on a closed channel or closes one twice. */
  lemma StepSafe(s: State, step: Step)
    requires Inv(s) && Enabled(s, step)
    ensures !Exec(s, step).panicked
  {
    match step
    case Send(t, j) =>
      assert ThreadOk(s, t) && WatcherOk(s, j);
    case Close(t) => ClosesHolder(s, t);
    case _ =>
  }

  lemma StepChannels(s: State, step: Step, id: Id)
    requires Inv(s) && Enabled(s, step)
    ensures id in Exec(s, step).chans ==> ChannelOk(Exec(s, step).chans[id])
    ensures id in Exec(s, step).labels <==> id in Exec(s, step).chans
  {
    assert WatcherOk(s, id);
    match step
    case Send(t, j) =>
      if j == id && MatchesNamespace(s.chans[id].ns, s.threads[t].event.namespace) {
        OfferOk(s.chans[id], s.threads[t].event);
      }
    case Receive(j) => if j == id { ReceiveOk(s.chans[id]); }
    case _ =>
  }

  lemma StepWatchers(s: State, step: Step, id: Id)
    requires Inv(s) && Enabled(s, step) && Orderly(s, step)
    ensures WatcherOk(Exec(s, step), id)
  {
    StepChannels(s, step, id);
    StepInMap(s, step, id);
    assert WatcherOk(s, id);
    assert s.writer.Some? ==> ThreadOk(s, s.writer.value);
    match step
    case Call(_, _) =>
    case Cancel(_) =>
    case Receive(_) =>
    case Close(t) =>
      ClosesHolder(s, t);
      assert ThreadOk(s, t);
    case _ => assert ThreadOk(s, step.t);
  }

  lemma StepCleaners(s: State, step: Step, id: Id)
    requires Inv(s) && Enabled(s, step) && Orderly(s, step)
    ensures CleanerOk(Exec(s, step), id)
  {
    StepInMap(s, step, id);
    assert CleanerOk(s, id) && WatcherOk(s, id);
    match step
    case Register(t, j, name, c) => assert FreedBy(s, name, id) && ThreadOk(s, t);
    case Remove(t) =>
      RemovedHolder(s, t);
      assert CleanerOk(s, Victim(s, s.threads[t]));
    case NotRegistered(t) => assert ThreadOk(s, t);
    case _ =>
  }

  lemma StepInv(s: State, step: Step)
    requires Inv(s) && Enabled(s, step) && Orderly(s, step)
    ensures Inv(Exec(s, step))
  {
    StepSafe(s, step);
    assert s.writer.Some? ==> ThreadOk(s, s.writer.value);
    if !step.Call? && !step.Cancel? && !step.Receive? { assert ThreadOk(s, step.t); }
    forall t: Tid ensures ThreadOk(Exec(s, step), t) { StepThreads(s, step, t); }
    forall id: Id ensures WatcherOk(Exec(s, step), id) { StepWatchers(s, step, id); }
    forall id: Id ensures CleanerOk(Exec(s, step), id) { StepCleaners(s, step, id); }
    forall name: Label ensures LabelOk(Exec(s, step), name) { StepLabels(s, step, name); }
  }

  // ---- Every interleaving ----

  /** `steps` can be taken one after the other from `s`. */
  predicate Possible(s: State, steps: seq<Step>)
    decreases |steps|, 0
  {
    steps == [] || (Possible(s, steps[..|steps| - 1]) && Enabled(After(s, steps[..|steps| - 1]), steps[|steps| - 1]))
  }

  function After(s: State, steps: seq<Step>): State
    requires Possible(s, steps)
    decreases |steps|, 1
  {
    if steps == [] then s else Exec(After(s, steps[..|steps| - 1]), steps[|steps| - 1])
  }

  /** Every registration of the run is orderly. */
  ghost predicate OrderlyRun(s: State, steps: seq<Step>)
    requires Possible(s, steps)
  {
    steps == [] || (
      var pre := steps[..|steps| - 1];
      OrderlyRun(s, pre) && Orderly(After(s, pre), steps[|steps| - 1]))
  }

  lemma {:induction false} RunInv(s: State, steps: seq<Step>)
    requires Inv(s) && Possible(s, steps) && OrderlyRun(s, steps)
    ensures Inv(After(s, steps))
  {
    if steps != [] {
      RunInv(s, steps[..|steps| - 1]);
      StepInv(After(s, steps[..|steps| - 1]), steps[|steps| - 1]);
    }
  }

  /** Safety over every interleaving in which no identifier is registered again before the
      cleanup of its previous holder has returned: no event is sent on a closed channel, no
      channel is closed twice, and every channel conserves its queue. */
  lemma EveryInterleavingSafe(steps: seq<Step>)
    requires Possible(INIT, steps) && OrderlyRun(INIT, steps)
    ensures Inv(After(INIT, steps)) && !After(INIT, steps).panicked
    ensures forall id | id in After(INIT, steps).chans :: ChannelOk(After(INIT, steps).chans[id])
  {
    InitInv();
    RunInv(INIT, steps);
    forall id | id in After(INIT, steps).chans ensures ChannelOk(After(INIT, steps).chans[id]) {
      assert WatcherOk(After(INIT, steps), id);
    }
  }

  lemma OneMore(s: State, steps: seq<Step>, step: Step)
    requires Possible(s, steps) && Enabled(After(s, steps), step)
    ensures Possible(s, steps + [step]) && After(s, steps + [step]) == Exec(After(s, steps), step)
  {
    assert (steps + [step])[..|steps|] == steps;
  }

  /** The condition is needed: watcher 0 is unwatched, watcher 1 is registered under its identifier,
      and then the late cleanup of watcher 0 finds that identifier in the map and closes the
      channel of watcher 0 again. */
  lemma ReusedLabelClosesTwice(ns: string) returns (steps: seq<Step>)
    ensures Possible(INIT, steps) && After(INIT, steps).panicked
  {
    steps := FirstWatcherGone(ns);
    steps := SecondUnderSameLabel(ns, steps);
    steps := ThenStep(steps, Lock(1));
    steps := ThenStep(steps, Close(1));
  }

  lemma ThenStep(steps: seq<Step>, step: Step) returns (more: seq<Step>)
    requires Possible(INIT, steps) && Enabled(After(INIT, steps), step)
    ensures Possible(INIT, more) && After(INIT, more) == Exec(After(INIT, steps), step)
  {
    OneMore(INIT, steps, step);
    more := steps + [step];
  }

  /** Watcher 0 was registered under identifier 0 and unwatched; its cleanup, thread 1, still waits. */
  predicate OneGone(s: State, ns: string) {
    && s.registered == map[] && s.labels == map[0 := 0] && s.cancelled == {0}
    && s.chans == map[0 := NewChannel(ns, 10).(open := false)]
    && s.threads == map[0 := Watch(ns, 10, Done), 1 := Cleanup(0, Waiting), 2 := Unwatch(0, Done)]
    && s.readers == {} && s.writer == None && !s.panicked
  }

  /** Watcher 0 is registered under identifier 0. */
  predicate OneThere(s: State, ns: string) {
    && s.registered == map[0 := 0] && s.labels == map[0 := 0] && s.cancelled == {}
    && s.chans == map[0 := NewChannel(ns, 10)]
    && s.threads == map[0 := Watch(ns, 10, Done), 1 := Cleanup(0, Waiting)]
    && s.readers == {} && s.writer == None && !s.panicked
  }

  lemma FirstWatcherThere(ns: string) returns (steps: seq<Step>)
    ensures Possible(INIT, steps) && OneThere(After(INIT, steps), ns)
  {
    steps := ThenStep([], Call(0, Watch(ns, 10, Waiting)));
    steps := ThenStep(steps, Lock(0));
    steps := ThenStep(steps, Register(0, 0, 0, 1));
    steps := ThenStep(steps, Unlock(0));
  }

  /** A cancelled watcher is cleaned up by its own goroutine: out of the map, its channel closed. */
  lemma CancelledIsCleanedUp(ns: string) returns (steps: seq<Step>)
    ensures Possible(INIT, steps) && After(INIT, steps).registered == map[]
    ensures 0 in After(INIT, steps).chans && !After(INIT, steps).chans[0].open && !After(INIT, steps).panicked
  {
    steps := FirstWatcherThere(ns);
    steps := ThenStep(steps, Cancel(0));
    steps := ThenStep(steps, Lock(1));
    steps := ThenStep(steps, Close(1));
    steps := ThenStep(steps, Remove(1));
    steps := ThenStep(steps, Unlock(1));
  }

  /** Watcher 0 is registered and two notifications hold the read lock at once, with sends owed to it. */
  predicate TwoSending(s: State, ns: string, e: Event, f: Event) {
    && s.chans == map[0 := NewChannel(ns, 10)] && s.readers == {5, 6} && s.writer == None && !s.panicked
    && 5 in s.threads && s.threads[5] == Notify(e, NSending({0}))
    && 6 in s.threads && s.threads[6] == Notify(f, NSending({0}))
  }

  predicate TwoWaiting(s: State, ns: string, e: Event, f: Event) {
    && s.registered == map[0 := 0] && s.labels == map[0 := 0]
    && s.chans == map[0 := NewChannel(ns, 10)] && s.readers == {} && s.writer == None && !s.panicked
    && 5 in s.threads && s.threads[5] == Notify(e, NWaiting)
    && 6 in s.threads && s.threads[6] == Notify(f, NWaiting)
  }

  lemma TwoNotifiesCalled(ns: string, e: Event, f: Event) returns (steps: seq<Step>)
    ensures Possible(INIT, steps) && TwoWaiting(After(INIT, steps), ns, e, f)
  {
    steps := FirstWatcherThere(ns);
    steps := ThenStep(steps, Call(5, Notify(e, NWaiting)));
    steps := ThenStep(steps, Call(6, Notify(f, NWaiting)));
  }

  lemma OverlappingNotifies(ns: string, e: Event, f: Event) returns (steps: seq<Step>)
    ensures Possible(INIT, steps) && TwoSending(After(INIT, steps), ns, e, f)
  {
    steps := TwoNotifiesCalled(ns, e, f);
    assert Members(After(INIT, steps)) == {0};
    steps := ThenStep(steps, RLock(5));
    assert Members(After(INIT, steps)) == {0};
    steps := ThenStep(steps, RLock(6));
  }

  /** Both have sent their events, the first one first, and returned. */
  predicate BothSent(s: State, ns: string, e: Event, f: Event) {
    0 in s.chans && s.chans[0] == NewChannel(ns, 10).Offer(e).Offer(f) && s.readers == {}
  }

  lemma BothEventsSent(ns: string, e: Event, f: Event) returns (steps: seq<Step>)
    requires MatchesNamespace(ns, e.namespace) && MatchesNamespace(ns, f.namespace)
    ensures Possible(INIT, steps) && BothSent(After(INIT, steps), ns, e, f)
  {
    steps := BothSendsMade(ns, e, f);
    steps := ThenStep(steps, RUnlock(5));
    steps := ThenStep(steps, RUnlock(6));
  }

  predicate NothingOwed(s: State, ns: string, e: Event, f: Event) {
    && 0 in s.chans && s.chans[0] == NewChannel(ns, 10).Offer(e).Offer(f) && s.readers == {5, 6}
    && 5 in s.threads && s.threads[5] == Notify(e, NSending({}))
    && 6 in s.threads && s.threads[6] == Notify(f, NSending({}))
  }

  lemma BothSendsMade(ns: string, e: Event, f: Event) returns (steps: seq<Step>)
    requires MatchesNamespace(ns, e.namespace) && MatchesNamespace(ns, f.namespace)
    ensures Possible(INIT, steps) && NothingOwed(After(INIT, steps), ns, e, f)
  {
    steps := OverlappingNotifies(ns, e, f);
    var owed: set<Id> := {0};
    assert owed - {0} == {};
    steps := ThenStep(steps, Send(5, 0));
    assert After(INIT, steps).threads[5] == Notify(e, NSending({}));
    steps := ThenStep(steps, Send(6, 0));
    assert After(INIT, steps).threads[6] == Notify(f, NSending({}));
  }

  /** Notifications that overlap both reach a watcher, in the order of their sends. */
  lemma BothEventsReceived(ns: string, e: Event, f: Event) returns (steps: seq<Step>)
    requires MatchesNamespace(ns, e.namespace) && MatchesNamespace(ns, f.namespace)
    ensures Possible(INIT, steps) && 0 in After(INIT, steps).chans
    ensures After(INIT, steps).chans[0].received == [e, f] && After(INIT, steps).readers == {}
  {
    steps := BothEventsSent(ns, e, f);
    steps := ThenStep(steps, Receive(0));
    steps := ThenStep(steps, Receive(0));
  }

  /** Thread 2 is unwatching it and has closed its channel. */
  predicate OneClosed(s: State, ns: string) {
    && s.registered == map[0 := 0] && s.labels == map[0 := 0] && s.cancelled == {0}
    && s.chans == map[0 := NewChannel(ns, 10).(open := false)]
    && s.threads == map[0 := Watch(ns, 10, Done), 1 := Cleanup(0, Waiting), 2 := Unwatch(0, Closed)]
    && s.readers == {} && s.writer == Some(2) && !s.panicked
  }

  lemma FirstWatcherClosed(ns: string) returns (steps: seq<Step>)
    ensures Possible(INIT, steps) && OneClosed(After(INIT, steps), ns)
  {
    steps := FirstWatcherThere(ns);
    steps := ThenStep(steps, Call(2, Unwatch(0, Waiting)));
    steps := ThenStep(steps, Lock(2));
    steps := ThenStep(steps, Close(2));
  }

  lemma FirstWatcherGone(ns: string) returns (steps: seq<Step>)
    ensures Possible(INIT, steps) && OneGone(After(INIT, steps), ns)
  {
    steps := FirstWatcherClosed(ns);
    steps := ThenStep(steps, Remove(2));
    steps := ThenStep(steps, Unlock(2));
  }

  /** Thread 1 may take the lock, will look under identifier 0, which is in the map, and will
      close channel 0, which is closed. */
  predicate AboutToPanic(s: State) {
    && 0 in s.registered && 0 in s.labels && s.labels[0] == 0 && 0 in s.cancelled
    && 0 in s.chans && !s.chans[0].open
    && 1 in s.threads && s.threads[1] == Cleanup(0, Waiting)
    && s.readers == {} && s.writer == None
  }

  lemma SecondUnderSameLabel(ns: string, first: seq<Step>) returns (steps: seq<Step>)
    requires Possible(INIT, first) && OneGone(After(INIT, first), ns)
    ensures Possible(INIT, steps) && AboutToPanic(After(INIT, steps))
  {
    steps := ThenStep(first, Call(3, Watch(ns, 10, Waiting)));
    steps := ThenStep(steps, Lock(3));
    steps := ThenStep(steps, Register(3, 1, 0, 4));
    steps := ThenStep(steps, Unlock(3));
  }

  /** Whenever the write lock is free, a watcher is in the map exactly when its channel is open. */
  lemma RegisteredIffOpen(s: State, id: Id)
    requires Inv(s) && s.writer == None
    ensures InMap(s, id) <==> id in s.chans && s.chans[id].open
  {
    assert WatcherOk(s, id);
  }

  /** Once every cleanup goroutine has returned, the map is empty and every channel closed. */
  lemma AllCleanedUp(s: State)
    requires Inv(s)
    requires forall t | t in s.threads && s.threads[t].Cleanup? :: s.threads[t].phase == Done
    ensures s.registered == map[]
    ensures forall id | id in s.chans :: !s.chans[id].open
  {
    forall id: Id ensures !InMap(s, id) { assert WatcherOk(s, id) && CleanerOk(s, id); }
    forall name ensures name !in s.registered {
      assert LabelOk(s, name);
      assert name in s.registered ==> !InMap(s, s.registered[name]);
    }
    forall id | id in s.chans ensures !s.chans[id].open { assert WatcherOk(s, id); }
  }

  /** The channels as they will be once thread `t` has made the sends it still owes. */
  function Owed(s: State, t: Tid): map<Id, Channel>
    requires Sending(s, t)
  {
    map id | id in s.chans ::
      if id in s.threads[t].notify.pending then Deliver(s.chans[id], s.threads[t].event) else s.chans[id]
  }

  /** The order in which Notify ranges over the watchers does not matter: each send pays one
      part of what is owed, and after the last the channels are what was owed at the start. */
  lemma NotifyOrderFree(s: State, t: Tid, id: Id)
    requires Inv(s) && Sending(s, t)
    ensures Enabled(s, Send(t, id)) ==>
      Sending(Exec(s, Send(t, id)), t) && Owed(Exec(s, Send(t, id)), t) == Owed(s, t)
    ensures Enabled(s, RUnlock(t)) ==> Exec(s, RUnlock(t)).chans == Owed(s, t)
  {
    assert ThreadOk(s, t) && WatcherOk(s, id);
  }

  function Sends(steps: seq<Step>, t: Tid, id: Id): nat {
    if steps == [] then 0
    else Sends(steps[..|steps| - 1], t, id) + if steps[|steps| - 1] == Send(t, id) then 1 else 0
  }

  /** Whatever else happens in between, other notifications and receives included: a notify
      makes one attempt for each watcher it is through with and none for the others. */
  lemma {:induction false} NotifyAttempts(s: State, steps: seq<Step>, t: Tid, id: Id)
    requires Sending(s, t) && Possible(s, steps) && RUnlock(t) !in steps
    ensures Sending(After(s, steps), t) && s.threads[t].event == After(s, steps).threads[t].event
    ensures var before, left := s.threads[t].notify.pending, After(s, steps).threads[t].notify.pending;
      left <= before && Sends(steps, t, id) == if id in before && id !in left then 1 else 0
  {
    if steps != [] {
      var pre := steps[..|steps| - 1];
      NotifyAttempts(s, pre, t, id);
      NotifyGoesOn(After(s, pre), steps[|steps| - 1], t);
    }
  }

  lemma NotifyGoesOn(s: State, step: Step, t: Tid)
    requires Sending(s, t) && Enabled(s, step) && step != RUnlock(t)
    ensures Sending(Exec(s, step), t) && Exec(s, step).threads[t].event == s.threads[t].event
    ensures Exec(s, step).threads[t].notify.pending ==
      s.threads[t].notify.pending - if step.Send? && step.t == t then {step.id} else {}
    ensures step.Send? && step.t == t ==> step.id in s.threads[t].notify.pending
  {
  }

  /** In every interleaving, a notify attempts exactly one send to each watcher that was
      registered when it took the lock, and none to any other. */
  lemma NotifyAttemptsOnce(s: State, steps: seq<Step>, t: Tid, id: Id)
    requires Enabled(s, RLock(t)) && Possible(Exec(s, RLock(t)), steps) && RUnlock(t) !in steps
    requires Enabled(After(Exec(s, RLock(t)), steps), RUnlock(t))
    ensures Sends(steps, t, id) == if InMap(s, id) then 1 else 0
  {
    NotifyAttempts(Exec(s, RLock(t)), steps, t, id);
  }

  /** What a step does to one channel. */
  datatype Touch = Sent(event: Event) | Read | Shut

  function Touches(s: State, step: Step, id: Id): seq<Touch>
    requires Enabled(s, step)
  {
    match step
    case Send(t, j) =>
      var e := s.threads[t].event;
      if j == id && MatchesNamespace(s.chans[id].ns, e.namespace) then [Sent(e)] else []
    case Receive(j) => if j == id then [Read] else []
    case Close(t) => if Victim(s, s.threads[t]) == id then [Shut] else []
    case _ => []
  }

  /** Send, written out: a matching event is buffered if there is room and dropped otherwise, the
      attempt is recorded with the number of events it met, and no other channel changes. */
  lemma SendWrites(s: State, t: Tid, id: Id)
    requires Inv(s) && Enabled(s, Send(t, id))
    ensures var before, after, e := s.chans[id], Exec(s, Send(t, id)).chans, s.threads[t].event;
      var matches := MatchesNamespace(before.ns, e.namespace);
      && after.Keys == s.chans.Keys && (forall j | j in s.chans && j != id :: after[j] == s.chans[j])
      && after[id].buffer == before.buffer + (if matches && |before.buffer| < before.cap then [e] else [])
      && after[id].received == before.received
      && after[id].attempts == before.attempts + (if matches then [Attempt(e, |before.buffer|)] else [])
      && after[id].ns == before.ns && after[id].cap == before.cap && after[id].open == before.open
  {
    StepSafe(s, Send(t, id));
    DeliverWrites(s.chans[id], s.threads[t].event);
  }

  /** What a bounded queue with non-blocking sends has delivered, still holds and dropped. */
  datatype Queue = Queue(delivered: seq<Event>, waiting: seq<Event>, dropped: nat)

  function FifoOnce(q: Queue, touch: Touch, cap: nat): Queue {
    match touch
    case Sent(e) =>
      if |q.waiting| < cap then q.(waiting := q.waiting + [e]) else q.(dropped := q.dropped + 1)
    case Read =>
      if q.waiting == [] then q else q.(delivered := q.delivered + [q.waiting[0]], waiting := q.waiting[1..])
    case Shut => q
  }

  function Fifo(touches: seq<Touch>, cap: nat): Queue {
    if touches == [] then Queue([], [], 0)
    else FifoOnce(Fifo(touches[..|touches| - 1], cap), touches[|touches| - 1], cap)
  }

  predicate HoldsQueue(ch: Channel, q: Queue) {
    ch.received == q.delivered && ch.buffer == q.waiting && Dropped(ch.attempts, ch.cap) == q.dropped
  }

  lemma TouchKeepsQueue(ch: Channel, q: Queue, touch: Touch)
    requires HoldsQueue(ch, q)
    ensures HoldsQueue(TouchedOnce(ch, touch), FifoOnce(q, touch, ch.cap)) && TouchedOnce(ch, touch).cap == ch.cap
  {
    if touch.Sent? { assert ch.Offer(touch.event).attempts[..|ch.attempts|] == ch.attempts; }
  }

  /** From its registration on, a channel is a bounded first-in-first-out queue, and what it counts
      as dropped is what that queue dropped. */
  lemma {:induction false} ChannelIsQueue(ns: string, cap: nat, touches: seq<Touch>)
    ensures var ch, q := Touched(NewChannel(ns, cap), touches), Fifo(touches, cap);
      && ch.received == q.delivered && ch.buffer == q.waiting
      && ch.cap == cap && Dropped(ch.attempts, cap) == q.dropped
  {
    if touches != [] {
      var pre := touches[..|touches| - 1];
      ChannelIsQueue(ns, cap, pre);
      TouchKeepsQueue(Touched(NewChannel(ns, cap), pre), Fifo(pre, cap), touches[|touches| - 1]);
    }
  }

  function Touched(ch: Channel, touches: seq<Touch>): Channel {
    if touches == [] then ch else TouchedOnce(Touched(ch, touches[..|touches| - 1]), touches[|touches| - 1])
  }

  function TouchedOnce(ch: Channel, touch: Touch): Channel {
    match touch
    case Sent(e) => ch.Offer(e)
    case Read => if ch.buffer != [] then ch.Receive() else ch
    case Shut => ch.(open := false)
  }

  lemma ExecTouches(s: State, step: Step, id: Id)
    requires Inv(s) && Enabled(s, step) && id in s.chans
    ensures |Touches(s, step, id)| <= 1 && id in Exec(s, step).chans
    ensures Exec(s, step).chans[id] ==
      if Touches(s, step, id) == [] then s.chans[id] else TouchedOnce(s.chans[id], Touches(s, step, id)[0])
  {
    StepSafe(s, step);
  }

  lemma TouchedMore(ch: Channel, touches: seq<Touch>, more: seq<Touch>)
    requires |more| <= 1
    ensures Touched(ch, touches + more) ==
      if more == [] then Touched(ch, touches) else TouchedOnce(Touched(ch, touches), more[0])
  {
    if more == [] {
      assert touches + more == touches;
    } else {
      assert (touches + more)[..|touches|] == touches;
    }
  }

  function TouchesOf(s: State, steps: seq<Step>, id: Id): seq<Touch>
    requires Possible(s, steps)
  {
    if steps == [] then [] else
    var pre := steps[..|steps| - 1];
    TouchesOf(s, pre, id) + Touches(After(s, pre), steps[|steps| - 1], id)
  }

  /** In every interleaving, what has become of a channel depends only on the steps that touch
      it, in their order: how sends to different watchers are ordered or interleaved with
      anything else does not matter. */
  lemma {:induction false} ChannelHistory(s: State, steps: seq<Step>, id: Id)
    requires Inv(s) && Possible(s, steps) && OrderlyRun(s, steps) && id in s.chans
    ensures id in After(s, steps).chans
    ensures After(s, steps).chans[id] == Touched(s.chans[id], TouchesOf(s, steps, id))
  {
    if steps != [] {
      var pre := steps[..|steps| - 1];
      ChannelHistory(s, pre, id);
      RunInv(s, pre);
      ExecTouches(After(s, pre), steps[|steps| - 1], id);
      TouchedMore(s.chans[id], TouchesOf(s, pre, id), Touches(After(s, pre), steps[|steps| - 1], id));
    }
  }

  /** Steps the manager's own goroutines take by themselves. */
  predicate Internal(step: Step) { !step.Call? && !step.Cancel? && !step.Receive? }

  lemma {:induction false} FreshNat(s: set<nat>) returns (n: nat)
    ensures forall x | x in s :: x < n
  {
    if s == {} { return 0; }
    var y :| y in s;
    var m := FreshNat(s - {y});
    n := if y < m then m else y + 1;
    forall x | x in s ensures x < n { assert x == y || x in s - {y}; }
  }

  /** The holder of the write lock can always go on. */
  lemma WriterProgresses(s: State) returns (step: Step)
    requires Inv(s) && s.writer.Some?
    ensures Internal(step) && Enabled(s, step) && Orderly(s, step)
  {
    var t := s.writer.value;
    assert ThreadOk(s, t);
    var th := s.threads[t];
    if th.phase == Updated { return Unlock(t); }
    if th.phase == Closed { return Remove(t); }
    if th.Watch? {
      var id := FreshNat(s.chans.Keys + s.labels.Keys);
      var name := FreshNat(s.labels.Values);
      var c := FreshNat(s.threads.Keys);
      step := Register(t, id, name, c);
      FreshLabelIsOrderly(s, step);
      return;
    }
    assert WatcherOk(s, Victim(s, th)) && LabelOk(s, LabelOf(s, th));
    step := if LabelOf(s, th) in s.registered then Close(t) else NotRegistered(t);
  }

  /** No deadlock on the way to an empty map: while a watcher whose context is cancelled is
      still registered, some goroutine of the manager can take a step. */
  lemma CancelledWatcherProgresses(s: State, id: Id) returns (step: Step)
    requires Inv(s) && InMap(s, id) && id in s.cancelled
    ensures Internal(step) && Enabled(s, step) && Orderly(s, step)
  {
    if s.writer.Some? {
      step := WriterProgresses(s);
    } else if s.readers != {} {
      var t :| t in s.readers;
      assert ThreadOk(s, t);
      var pending := s.threads[t].notify.pending;
      if pending == {} { return RUnlock(t); }
      var j :| j in pending;
      assert WatcherOk(s, j);
      step := Send(t, j);
    } else {
      assert CleanerOk(s, id) && WatcherOk(s, id);
      var t := s.cleaner[id];
      assert ThreadOk(s, t);
      step := Lock(t);
    }
  }

  // ---- The manager's own steps come to an end ----

  ghost function Sum(m: map<Tid, nat>): nat {
    if m == map[] then 0 else var t :| t in m; m[t] + Sum(m - {t})
  }

  lemma {:induction false} SumTake(m: map<Tid, nat>, t: Tid)
    requires t in m
    ensures Sum(m) == m[t] + Sum(m - {t})
    decreases m.Keys
  {
    var u: Tid :| u in m && Sum(m) == m[u] + Sum(m - {u});
    if u != t {
      SumTake(m - {u}, t);
      SumTake(m - {t}, u);
      assert m - {u} - {t} == m - {t} - {u};
    }
  }

  lemma {:induction false} SumMonotone(m: map<Tid, nat>, n: map<Tid, nat>)
    requires m.Keys == n.Keys && forall t | t in m :: m[t] <= n[t]
    ensures Sum(m) <= Sum(n)
    decreases m.Keys
  {
    if m != map[] {
      var t :| t in m;
      SumTake(m, t);
      SumTake(n, t);
      SumMonotone(m - {t}, n - {t});
    }
  }

  lemma SumDrops(m: map<Tid, nat>, n: map<Tid, nat>, t: Tid, d: nat)
    requires m.Keys == n.Keys && t in m && m[t] + d <= n[t] && forall u | u in m && u != t :: m[u] <= n[u]
    ensures Sum(m) + d <= Sum(n)
  {
    SumTake(m, t);
    SumTake(n, t);
    SumMonotone(m - {t}, n - {t});
  }

  /** Watch calls that have not registered their watcher yet. */
  function Unregistered(s: State): set<Tid> {
    set t | t in s.threads && s.threads[t].Watch? && s.threads[t].phase in {Waiting, Locked}
  }

  /** As many watchers as a waiting notify may still find registered. */
  function Load(s: State): nat { |Members(s)| + |Unregistered(s)| }

  /** How many steps a thread still has to take, with room for the goroutine Watch starts. */
  function ThreadRank(th: Thread, load: nat): nat {
    match th
    case Notify(_, phase) =>
      if phase.NWaiting? then load + 2 else if phase.NSending? then |phase.pending| + 1 else 0
    case Watch(_, _, phase) => PhaseRank(phase) + if phase in {Waiting, Locked} then 3 else 0
    case Unwatch(_, phase) => PhaseRank(phase)
    case Cleanup(_, phase) => PhaseRank(phase)
  }

  function PhaseRank(phase: WritePhase): nat {
    match phase
    case Waiting => 4
    case Locked => 3
    case Closed => 2
    case Updated => 1
    case Done => 0
  }

  function Ranks(s: State): map<Tid, nat> { map t | t in s.threads :: ThreadRank(s.threads[t], Load(s)) }

  /** A bound on the steps the manager's goroutines can take without a new call. */
  ghost function Rank(s: State): nat { Sum(Ranks(s)) }

  lemma StepMembers(s: State, step: Step)
    requires Enabled(s, step) && Internal(step)
    ensures Members(Exec(s, step)) <= Members(s) + if step.Register? then {step.id} else {}
  {
  }

  lemma StepUnregistered(s: State, step: Step)
    requires Enabled(s, step) && Internal(step)
    ensures Unregistered(Exec(s, step)) == Unregistered(s) - if step.Register? then {step.t} else {}
    ensures step.Register? ==> step.t in Unregistered(s)
  {
  }

  lemma LoadShrinks(s: State, step: Step)
    requires Enabled(s, step) && Internal(step)
    ensures Load(Exec(s, step)) <= Load(s)
  {
    StepMembers(s, step);
    StepUnregistered(s, step);
    SubsetSmaller(Members(Exec(s, step)), Members(s) + if step.Register? then {step.id} else {});
  }

  lemma {:induction false} SubsetSmaller(a: set<nat>, b: set<nat>)
    requires a <= b
    ensures |a| <= |b|
  {
    assert b == a + (b - a);
    assert |a + (b - a)| == |a| + |b - a|;
  }

  lemma NotifyRankDrops(s: State, step: Step, load: nat)
    requires Enabled(s, step) && (step.RLock? || step.Send? || step.RUnlock?)
    ensures ThreadRank(Exec(s, step).threads[step.t], load) + 1 <= ThreadRank(s.threads[step.t], Load(s))
  {
    match step
    case RLock(t) => assert Exec(s, step).threads[t].notify.pending == Members(s);
    case Send(t, id) =>
      var left, pending := Exec(s, step).threads[t].notify.pending, s.threads[t].notify.pending;
      assert left == pending - {id} && |left| == |pending| - 1;
    case RUnlock(t) =>
  }

  lemma WriterRankDrops(s: State, step: Step, load: nat)
    requires Enabled(s, step) && Internal(step) && !(step.RLock? || step.Send? || step.RUnlock?)
    ensures ThreadRank(Exec(s, step).threads[step.t], load) + (if step.Register? then 5 else 1)
      <= ThreadRank(s.threads[step.t], Load(s))
  {
  }

  /** A step changes its own thread only, and Register also starts the cleanup. */
  lemma OtherThreadsKept(s: State, step: Step)
    requires Enabled(s, step) && Internal(step)
    ensures var s' := Exec(s, step);
      && step.t in s.threads && s'.threads.Keys == s.threads.Keys + (if step.Register? then {step.cleanup} else {})
      && (forall u | u in s.threads && u != step.t :: s'.threads[u] == s.threads[u])
      && (step.Register? ==> step.cleanup !in s.threads && s'.threads[step.cleanup] == Cleanup(step.id, Waiting))
  {
  }

  lemma RankGrowsWithLoad(th: Thread, load: nat, more: nat)
    requires load <= more
    ensures ThreadRank(th, load) <= ThreadRank(th, more)
  {
  }

  lemma OtherRanks(s: State, s': State, t: Tid)
    requires Load(s') <= Load(s) && s.threads.Keys <= s'.threads.Keys
    requires forall u | u in s.threads && u != t :: s'.threads[u] == s.threads[u]
    ensures forall u | u in Ranks(s) && u != t :: Ranks(s')[u] <= Ranks(s)[u]
  {
    forall u | u in Ranks(s) && u != t ensures Ranks(s')[u] <= Ranks(s)[u] {
      RankGrowsWithLoad(s.threads[u], Load(s'), Load(s));
    }
  }

  /** With the other threads as they were, it is the own thread's rank that counts. */
  lemma RankDrops(s: State, s': State, t: Tid)
    requires Load(s') <= Load(s) && s.threads.Keys == s'.threads.Keys && t in s.threads
    requires forall u | u in s.threads && u != t :: s'.threads[u] == s.threads[u]
    requires ThreadRank(s'.threads[t], Load(s')) + 1 <= ThreadRank(s.threads[t], Load(s))
    ensures Rank(s') < Rank(s)
  {
    OtherRanks(s, s', t);
    SumDrops(Ranks(s'), Ranks(s), t, 1);
  }

  lemma RankDropsDespite(s: State, s': State, t: Tid, c: Tid, id: Id)
    requires Load(s') <= Load(s) && s'.threads.Keys == s.threads.Keys + {c} && t in s.threads && c !in s.threads
    requires forall u | u in s.threads && u != t :: s'.threads[u] == s.threads[u]
    requires s'.threads[c] == Cleanup(id, Waiting)
    requires ThreadRank(s'.threads[t], Load(s')) + 5 <= ThreadRank(s.threads[t], Load(s))
    ensures Rank(s') < Rank(s)
  {
    OtherRanks(s, s', t);
    SumTake(Ranks(s'), c);
    SumDrops(Ranks(s') - {c}, Ranks(s), t, 5);
  }

  /** Every step of the manager's own goroutines lowers the rank. */
  lemma StepLowersRank(s: State, step: Step)
    requires Enabled(s, step) && Internal(step)
    ensures Rank(Exec(s, step)) < Rank(s)
  {
    var s' := Exec(s, step);
    LoadShrinks(s, step);
    OtherThreadsKept(s, step);
    if step.RLock? || step.Send? || step.RUnlock? {
      NotifyRankDrops(s, step, Load(s'));
    } else {
      WriterRankDrops(s, step, Load(s'));
    }
    if step.Register? {
      RankDropsDespite(s, s', step.t, step.cleanup, step.id);
    } else {
      RankDrops(s, s', step.t);
    }
  }

  predicate AllInternal(steps: seq<Step>) { forall i | 0 <= i < |steps| :: Internal(steps[i]) }

  lemma CancelledStay(s: State, step: Step)
    requires Enabled(s, step)
    ensures s.cancelled <= Exec(s, step).cancelled
  {
  }

  lemma {:induction false} InternalRunsEnd(s: State, steps: seq<Step>)
    requires Possible(s, steps) && AllInternal(steps)
    ensures |steps| + Rank(After(s, steps)) <= Rank(s) && s.cancelled <= After(s, steps).cancelled
  {
    if steps != [] {
      var pre, last := steps[..|steps| - 1], steps[|steps| - 1];
      assert forall i | 0 <= i < |pre| :: pre[i] == steps[i];
      InternalRunsEnd(s, pre);
      StepLowersRank(After(s, pre), last);
      CancelledStay(After(s, pre), last);
    }
  }

  /** Without new calls the manager comes to rest, whatever order its goroutines run in: after
      at most `Rank(s)` steps none is left, and then no cancelled watcher is registered. */
  lemma CancelledWatchersRemoved(s: State, steps: seq<Step>)
    requires Inv(s) && Possible(s, steps) && OrderlyRun(s, steps) && AllInternal(steps)
    ensures |steps| <= Rank(s)
    ensures (forall step | Internal(step) && Orderly(After(s, steps), step) :: !Enabled(After(s, steps), step)) ==>
      Members(After(s, steps)) !! s.cancelled
  {
    InternalRunsEnd(s, steps);
    RunInv(s, steps);
    if id :| id in Members(After(s, steps)) && id in s.cancelled {
      var step := CancelledWatcherProgresses(After(s, steps), id);
    }
  }
}
