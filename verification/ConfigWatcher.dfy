// Hot reload: file events and manual triggers feed a channel that holds one signal; a worker
// takes a signal, sleeps, and loads the file (mystiproxy/src/config/watcher.rs).
module ConfigWatcher {
  import opened Basics

  datatype EventKind = Create | Modify | Remove | Other

  // What the notify callback is given; `names` are the final components of the event's paths.
  datatype Notification = Failure | Event(kind: EventKind, names: seq<Option<string>>)

  // `fileName` is None when the configured path has no final component.
  predicate Relevant(n: Notification, fileName: Option<string>) {
    n.Event? && !n.kind.Other? && (fileName.None? || fileName in n.names)
  }

  // Waiting in `recv`, sleeping with a signal taken, or applying what was loaded.
  datatype Phase = Waiting | Sleeping | Applying

  // `file` and `lastLoad` count versions of the file: the one on disk and the one the last
  // load read. `signals`, `dropped` and `loads` count what has happened so far.
  datatype State = State(
    fileName: Option<string>,
    file: nat, undelivered: seq<Notification>,
    slot: bool, phase: Phase, lastLoad: nat,
    signals: nat, dropped: nat, loads: nat)

  // The watcher starts with the version on disk already loaded by its caller.
  function Initial(fileName: Option<string>, file: nat): State {
    State(fileName, file, [], false, Waiting, file, 0, 0, 0)
  }

  datatype Action =
    | Write(events: seq<Notification>)  // the file changes; the system raises events
    | Noise(events: seq<Notification>)  // anything else in the directory
    | Deliver(i: nat)                   // the callback runs on one raised event, in any order
    | Trigger                           // trigger_reload
    | Receive                           // the worker takes the signal
    | Load                              // the sleep ends and the worker reads the file
    | Finish                            // the callback returns, whatever it did

  predicate Internal(a: Action) {
    a.Deliver? || a.Receive? || a.Load? || a.Finish?
  }

  // Every change to the watched file raises at least one event that names it and says that it
  // was created, modified or removed.
  predicate Enabled(s: State, a: Action) {
    match a
    case Write(events) =>
      exists n <- events :: && n.Event? && n.kind in {Create, Modify, Remove}
                            && (s.fileName.None? || s.fileName in n.names)
    case Noise(_) => true
    case Deliver(i) => i < |s.undelivered|
    case Trigger => true
    case Receive => s.phase.Waiting? && s.slot
    case Load => s.phase.Sleeping?
    case Finish => s.phase.Applying?
  }

  // `try_send` on a channel of one: a full channel drops the signal.
  function Signalled(s: State): State {
    s.(slot := true, signals := s.signals + 1, dropped := if s.slot then s.dropped + 1 else s.dropped)
  }

  function Next(s: State, a: Action): State
    requires Enabled(s, a)
  {
    match a
    case Write(events) => s.(file := s.file + 1, undelivered := s.undelivered + events)
    case Noise(events) => s.(undelivered := s.undelivered + events)
    case Deliver(i) =>
      var t := s.(undelivered := s.undelivered[..i] + s.undelivered[i + 1..]);
      if Relevant(s.undelivered[i], s.fileName) then Signalled(t) else t
    case Trigger => Signalled(s)
    case Receive => s.(slot := false, phase := Sleeping)
    case Load => s.(phase := Applying, lastLoad := s.file, loads := s.loads + 1)
    case Finish => s.(phase := Waiting)
  }

  // Which delivered event signals: a create, modify or remove event that names the file, or any
  // such event where there is no name to compare. It fills the slot, or is dropped when the
  // slot is full; any other event is only taken off the list.
  lemma DeliverExactly(s: State, i: nat)
    requires i < |s.undelivered|
    ensures var n, t := s.undelivered[i], Next(s, Deliver(i));
            var signals := && n.Event? && n.kind in {Create, Modify, Remove}
                           && (s.fileName.None? || s.fileName in n.names);
            && t.undelivered == s.undelivered[..i] + s.undelivered[i + 1..]
            && t.signals == s.signals + (if signals then 1 else 0)
            && t.dropped == s.dropped + (if signals && s.slot then 1 else 0)
            && t.slot == (s.slot || signals)
            && t.fileName == s.fileName && t.file == s.file
            && t.phase == s.phase && t.lastLoad == s.lastLoad && t.loads == s.loads
  {
  }

  ghost predicate Runs(s: State, acts: seq<Action>, t: State)
    decreases |acts|
  {
    if acts == [] then s == t
    else Enabled(s, acts[0]) && Runs(Next(s, acts[0]), acts[1..], t)
  }

  // A version no load has read has left a trace: an undelivered event, a signal in the
  // channel, or a worker that holds a signal and has not loaded yet.
  ghost predicate NothingMissed(s: State) {
    && s.lastLoad <= s.file
    && (s.lastLoad < s.file ==>
          (exists n <- s.undelivered :: Relevant(n, s.fileName)) || s.slot || s.phase.Sleeping?)
  }

  function Held(s: State): nat {
    (if s.slot then 1 else 0) + (if s.phase.Sleeping? then 1 else 0)
  }

  // Every signal ever sent was dropped, became a load, or is still held.
  ghost predicate SignalsBalance(s: State) {
    s.signals == s.loads + s.dropped + Held(s)
  }

  lemma NextKeeps(s: State, a: Action)
    requires NothingMissed(s) && SignalsBalance(s) && Enabled(s, a)
    ensures NothingMissed(Next(s, a)) && SignalsBalance(Next(s, a))
  {
    var t := Next(s, a);
    if a.Deliver? {
      var i := a.i;
      if n :| n in s.undelivered && Relevant(n, s.fileName) {
        if !Relevant(s.undelivered[i], s.fileName) {
          assert n in t.undelivered;
        }
      }
    } else if a.Write? || a.Noise? {
      assert forall n <- s.undelivered :: n in t.undelivered;
      assert forall n <- a.events :: n in t.undelivered;
    }
  }

  predicate Quiescent(s: State) {
    s.undelivered == [] && !s.slot && s.phase.Waiting?
  }

  // In every interleaving no change is missed although signals are dropped; loads never
  // outnumber relevant events plus triggers; at rest the last load saw the latest file.
  lemma {:induction false} EveryInterleaving(s: State, acts: seq<Action>, t: State)
    requires NothingMissed(s) && SignalsBalance(s) && Runs(s, acts, t)
    ensures NothingMissed(t) && SignalsBalance(t) && t.loads <= t.signals
    ensures Quiescent(t) ==> t.lastLoad == t.file
    decreases |acts|
  {
    if acts == [] {
    } else {
      NextKeeps(s, acts[0]);
      EveryInterleaving(Next(s, acts[0]), acts[1..], t);
    }
  }

  // What is left to do without new input from outside.
  function Work(s: State): nat {
    4 * |s.undelivered| + (if s.slot then 3 else 0) +
    match s.phase case Waiting => 0 case Sleeping => 2 case Applying => 1
  }

  lemma InternalStepsUseWork(s: State, a: Action)
    requires Internal(a) && Enabled(s, a)
    ensures Work(Next(s, a)) < Work(s)
  {
  }

  lemma RestOrStep(s: State)
    ensures Quiescent(s) <==> !(exists a: Action :: Internal(a) && Enabled(s, a))
  {
    if s.undelivered != [] {
      assert Internal(Deliver(0)) && Enabled(s, Deliver(0));
    } else if s.slot && s.phase.Waiting? {
      assert Internal(Receive) && Enabled(s, Receive);
    } else if s.phase.Sleeping? {
      assert Internal(Load) && Enabled(s, Load);
    } else if s.phase.Applying? {
      assert Internal(Finish) && Enabled(s, Finish);
    }
  }

  // Left alone, the watcher settles: any order of its own steps ends within `Work(s)` steps.
  lemma {:induction false} SettlesInBoundedSteps(s: State, acts: seq<Action>, t: State)
    requires Runs(s, acts, t) && forall a <- acts :: Internal(a)
    ensures |acts| + Work(t) <= Work(s) && t.file == s.file
    decreases |acts|
  {
    if acts == [] {
    } else {
      assert acts[0] in acts;
      InternalStepsUseWork(s, acts[0]);
      assert forall a <- acts[1..] :: a in acts;
      SettlesInBoundedSteps(Next(s, acts[0]), acts[1..], t);
    }
  }

  // So after any run whatever, once input stops, every schedule that cannot go on has
  // loaded the version on disk.
  lemma EveryChangeIsLoaded(
    fileName: Option<string>, file: nat, acts: seq<Action>, s: State, rest: seq<Action>, t: State)
    requires Runs(Initial(fileName, file), acts, s)
    requires Runs(s, rest, t) && forall a <- rest :: Internal(a)
    requires !exists a: Action :: Internal(a) && Enabled(t, a)
    ensures t.lastLoad == s.file && |rest| <= Work(s)
  {
    EveryInterleaving(Initial(fileName, file), acts, s);
    EveryInterleaving(s, rest, t);
    SettlesInBoundedSteps(s, rest, t);
    RestOrStep(t);
  }

  // The channel's receiving end and the worker, step by step as the tasks run them.
  class ConfigFileWatcher {
    const fileName: Option<string>
    var slot: bool
    var phase: Phase
    var lastLoad: nat
    ghost var signals: nat
    ghost var dropped: nat
    ghost var loads: nat

    constructor (fileName: Option<string>, file: nat)
      ensures Current(file, []) == Initial(fileName, file)
    {
      this.fileName := fileName;
      slot, phase, lastLoad := false, Waiting, file;
      signals, dropped, loads := 0, 0, 0;
    }

    // The whole system, given what is outside: the file and the events not delivered yet.
    ghost function Current(file: nat, undelivered: seq<Notification>): State
      reads this
    {
      State(fileName, file, undelivered, slot, phase, lastLoad, signals, dropped, loads)
    }

    // No change is lost and no signal unaccounted for.
    ghost predicate Sound(file: nat, undelivered: seq<Notification>)
      reads this
    {
      NothingMissed(Current(file, undelivered)) && SignalsBalance(Current(file, undelivered))
    }

    method TrySend()
      modifies this
      ensures forall file, undelivered ::
                Current(file, undelivered) == Signalled(old(Current(file, undelivered)))
      ensures slot && signals == old(signals) + 1 && dropped == old(dropped) + if old(slot) then 1 else 0
      ensures phase == old(phase) && lastLoad == old(lastLoad) && loads == old(loads)
    {
      if slot {
        dropped := dropped + 1;
      }
      slot := true;
      signals := signals + 1;
    }

    method OnNotification(file: nat, undelivered: seq<Notification>, i: nat)
      requires i < |undelivered|
      modifies this
      ensures Current(file, undelivered[..i] + undelivered[i + 1..]) ==
              Next(old(Current(file, undelivered)), Deliver(i))
      ensures old(Sound(file, undelivered)) ==> Sound(file, undelivered[..i] + undelivered[i + 1..])
      ensures var n := undelivered[i];
              var signal := && n.Event? && n.kind in {Create, Modify, Remove}
                            && (fileName.None? || fileName in n.names);
              && signals == old(signals) + (if signal then 1 else 0)
              && dropped == old(dropped) + (if signal && old(slot) then 1 else 0)
              && slot == (old(slot) || signal)
      ensures phase == old(phase) && lastLoad == old(lastLoad) && loads == old(loads)
    {
      ghost var before := Current(file, undelivered);
      if Sound(file, undelivered) {
        NextKeeps(before, Deliver(i));
      }
      var n := undelivered[i];
      ghost var others := undelivered[..i] + undelivered[i + 1..];
      assert old(Current(file, others)) == old(Current(file, undelivered)).(undelivered := others);
      if n.Failure? || n.kind.Other? {
        return;
      }
      var matched := fileName.None?;
      for k := 0 to |n.names|
        invariant matched <==> fileName.None? || fileName in n.names[..k]
      {
        if n.names[k].Some? && n.names[k] == fileName {
          matched := true;
        }
      }
      assert n.names[..|n.names|] == n.names;
      if matched {
        TrySend();
      }
    }

    method TriggerReload(ghost file: nat, ghost undelivered: seq<Notification>)
      modifies this
      ensures Current(file, undelivered) == Next(old(Current(file, undelivered)), Trigger)
      ensures slot && signals == old(signals) + 1 && dropped == old(dropped) + if old(slot) then 1 else 0
      ensures phase == old(phase) && lastLoad == old(lastLoad) && loads == old(loads)
      ensures old(Sound(file, undelivered)) ==> Sound(file, undelivered)
    {
      if Sound(file, undelivered) {
        NextKeeps(Current(file, undelivered), Trigger);
      }
      TrySend();
    }

    // One turn of the worker loop, in the three pieces other tasks can run between.
    method WorkerReceives(ghost file: nat, ghost undelivered: seq<Notification>)
      requires Enabled(Current(file, undelivered), Receive)
      modifies this
      ensures Current(file, undelivered) == Next(old(Current(file, undelivered)), Receive)
      ensures !slot && phase == Sleeping && lastLoad == old(lastLoad)
      ensures signals == old(signals) && dropped == old(dropped) && loads == old(loads)
      ensures old(Sound(file, undelivered)) ==> Sound(file, undelivered)
    {
      if Sound(file, undelivered) {
        NextKeeps(Current(file, undelivered), Receive);
      }
      slot, phase := false, Sleeping;
    }

    method WorkerLoads(file: nat, ghost undelivered: seq<Notification>)
      requires Enabled(Current(file, undelivered), Load)
      modifies this
      ensures Current(file, undelivered) == Next(old(Current(file, undelivered)), Load)
      ensures lastLoad == file && phase == Applying && slot == old(slot) && loads == old(loads) + 1
      ensures signals == old(signals) && dropped == old(dropped)
      ensures old(Sound(file, undelivered)) ==> Sound(file, undelivered)
    {
      if Sound(file, undelivered) {
        NextKeeps(Current(file, undelivered), Load);
      }
      lastLoad, phase := file, Applying;
      loads := loads + 1;
    }

    method WorkerFinishes(ghost file: nat, ghost undelivered: seq<Notification>)
      requires Enabled(Current(file, undelivered), Finish)
      modifies this
      ensures Current(file, undelivered) == Next(old(Current(file, undelivered)), Finish)
      ensures phase == Waiting && slot == old(slot) && lastLoad == old(lastLoad)
      ensures signals == old(signals) && dropped == old(dropped) && loads == old(loads)
      ensures old(Sound(file, undelivered)) ==> Sound(file, undelivered)
    {
      if Sound(file, undelivered) {
        NextKeeps(Current(file, undelivered), Finish);
      }
      phase := Waiting;
    }
  }
}
