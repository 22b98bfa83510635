// The configuration manager: a current configuration, a bounded history, rollback
// (mystiproxy/src/config/manager.rs).
module ConfigManager {
  const MAX_HISTORY := 10

  // `Initial` is the snapshot the manager starts with, which is not validated.
  datatype Source = Initial | Reload

  datatype Snapshot<C> = Snapshot(config: C, source: Source)

  datatype Change<C> = Change(oldConfig: C, newConfig: C)

  datatype State<C> = State(current: C, history: seq<Snapshot<C>>, notified: seq<Change<C>>)

  function Capped<C>(history: seq<Snapshot<C>>): seq<Snapshot<C>> {
    if |history| > MAX_HISTORY then history[1..] else history
  }

  function Started<C>(c: C): State<C> {
    State(c, [Snapshot(c, Initial)], [])
  }

  // `valid` is the engine validation; a rejected configuration changes nothing.
  function Updated<C>(s: State<C>, c: C, valid: C -> bool): State<C> {
    if valid(c) then State(c, Capped(s.history + [Snapshot(c, Reload)]), s.notified + [Change(s.current, c)]) else s
  }

  function RolledBack<C>(s: State<C>, valid: C -> bool): State<C> {
    if |s.history| < 2 then s else Updated(s, s.history[|s.history| - 2].config, valid)
  }

  datatype Command<C> = Update(config: C) | Rollback

  function Next<C>(s: State<C>, q: Command<C>, valid: C -> bool): State<C> {
    match q
    case Update(c) => Updated(s, c, valid)
    case Rollback => RolledBack(s, valid)
  }

  function Run<C>(s: State<C>, qs: seq<Command<C>>, valid: C -> bool): State<C> {
    if qs == [] then s else Next(Run(s, qs[..|qs| - 1], valid), qs[|qs| - 1], valid)
  }

  // The simple form: everything ever accepted, never trimmed.
  function Accepted<C>(log: seq<C>, c: C, valid: C -> bool): seq<C> {
    if valid(c) then log + [c] else log
  }

  function LedgerNext<C>(log: seq<C>, q: Command<C>, valid: C -> bool): seq<C> {
    match q
    case Update(c) => Accepted(log, c, valid)
    case Rollback => if |log| < 2 then log else Accepted(log, log[|log| - 2], valid)
  }

  function Ledger<C>(first: C, qs: seq<Command<C>>, valid: C -> bool): seq<C> {
    if qs == [] then [first] else LedgerNext(Ledger(first, qs[..|qs| - 1], valid), qs[|qs| - 1], valid)
  }

  // The bounded history is the end of the ledger, the current configuration its last entry.
  ghost predicate Refines<C>(s: State<C>, log: seq<C>) {
    && |log| >= 1
    && |s.history| == (if |log| > MAX_HISTORY then MAX_HISTORY else |log|)
    && (forall i :: 0 <= i < |s.history| ==> s.history[i].config == log[|log| - |s.history| + i])
    && s.current == log[|log| - 1]
  }

  lemma UpdatedRefines<C>(s: State<C>, log: seq<C>, c: C, valid: C -> bool)
    requires Refines(s, log)
    ensures Refines(Updated(s, c, valid), Accepted(log, c, valid))
  {
  }

  // In every run the bounded history is the last ten entries of the full ledger, so
  // trimming never changes what a command does.
  lemma {:induction false} HistoryRefinesLedger<C>(first: C, qs: seq<Command<C>>, valid: C -> bool)
    ensures Refines(Run(Started(first), qs, valid), Ledger(first, qs, valid))
    ensures var all := |Ledger(first, qs, valid)|;
            |Run(Started(first), qs, valid).history| == if all > 10 then 10 else all
  {
    if qs == [] {
    } else {
      var front, q := qs[..|qs| - 1], qs[|qs| - 1];
      HistoryRefinesLedger(first, front, valid);
      var s, log := Run(Started(first), front, valid), Ledger(first, front, valid);
      if q.Update? {
        UpdatedRefines(s, log, q.config, valid);
      } else if |log| >= 2 {
        UpdatedRefines(s, log, log[|log| - 2], valid);
      }
    }
  }

  // Only a snapshot the manager started with, and only in first place, can fail validation;
  // the notifications chain from the first configuration to the current one.
  ghost predicate Consistent<C>(s: State<C>, first: C, valid: C -> bool) {
    && 1 <= |s.history| <= MAX_HISTORY
    && s.history[|s.history| - 1].config == s.current
    && (forall i :: 0 <= i < |s.history| && s.history[i].source.Initial? ==> i == 0)
    && (forall i :: 0 <= i < |s.history| && s.history[i].source.Reload? ==> valid(s.history[i].config))
    && (s.notified == [] ==> s.current == first)
    && (s.notified != [] ==> s.notified[0].oldConfig == first && s.notified[|s.notified| - 1].newConfig == s.current)
    && (forall i :: 0 <= i < |s.notified| - 1 ==> s.notified[i].newConfig == s.notified[i + 1].oldConfig)
  }

  lemma UpdatedConsistent<C>(s: State<C>, first: C, c: C, valid: C -> bool)
    requires Consistent(s, first, valid)
    ensures Consistent(Updated(s, c, valid), first, valid)
  {
  }

  lemma {:induction false} EveryRunConsistent<C>(first: C, qs: seq<Command<C>>, valid: C -> bool)
    ensures Consistent(Run(Started(first), qs, valid), first, valid)
  {
    if qs == [] {
    } else {
      var s := Run(Started(first), qs[..|qs| - 1], valid);
      EveryRunConsistent(first, qs[..|qs| - 1], valid);
      var q := qs[|qs| - 1];
      if q.Update? {
        UpdatedConsistent(s, first, q.config, valid);
      } else if |s.history| >= 2 {
        UpdatedConsistent(s, first, s.history[|s.history| - 2].config, valid);
      }
    }
  }

  function Rollbacks<C>(s: State<C>, k: nat, valid: C -> bool): State<C> {
    if k == 0 then s else RolledBack(Rollbacks(s, k - 1, valid), valid)
  }

  function Previous<C>(s: State<C>): C
    requires |s.history| >= 2
  {
    s.history[|s.history| - 2].config
  }

  lemma RollbackSwaps<C>(s: State<C>, valid: C -> bool)
    requires 2 <= |s.history| <= MAX_HISTORY && s.history[|s.history| - 1].config == s.current
    requires valid(Previous(s))
    ensures var t := RolledBack(s, valid);
            && |t.history| == (if |s.history| == MAX_HISTORY then MAX_HISTORY else |s.history| + 1)
            && t.history[|t.history| - 1].config == t.current == Previous(s)
            && Previous(t) == s.current
  {
  }

  // `t` is `s` after an even or odd number of swaps, with `k` more snapshots up to the cap.
  ghost predicate Alternated<C>(s: State<C>, t: State<C>, k: nat)
    requires |s.history| >= 2
  {
    && |t.history| == (if |s.history| + k > MAX_HISTORY then MAX_HISTORY else |s.history| + k)
    && |t.history| >= 2
    && t.history[|t.history| - 1].config == t.current
    && t.current == (if k % 2 == 0 then s.current else Previous(s))
    && Previous(t) == (if k % 2 == 0 then Previous(s) else s.current)
  }

  lemma {:induction false} ValidRollbacksAlternate<C>(s: State<C>, k: nat, valid: C -> bool)
    requires 2 <= |s.history| <= MAX_HISTORY && s.history[|s.history| - 1].config == s.current
    requires valid(Previous(s)) && valid(s.current)
    ensures Alternated(s, Rollbacks(s, k, valid), k)
  {
    if k == 0 {
    } else {
      ValidRollbacksAlternate(s, k - 1, valid);
      RollbackSwaps(Rollbacks(s, k - 1, valid), valid);
    }
  }

  lemma {:induction false} InvalidRollbacksDoNothing<C>(s: State<C>, k: nat, valid: C -> bool)
    requires |s.history| < 2 || !valid(Previous(s))
    ensures Rollbacks(s, k, valid) == s
  {
    if k == 0 {
    } else {
      InvalidRollbacksDoNothing(s, k - 1, valid);
    }
  }

  // k rollbacks in a row alternate between the last two configurations, for every k and
  // also while old snapshots are evicted, when the previous one validates; when it does not
  // they change nothing. Older configurations are never reached.
  lemma RollbacksAlternate<C>(s: State<C>, first: C, k: nat, valid: C -> bool)
    requires Consistent(s, first, valid) && |s.history| >= 2
    ensures if valid(Previous(s)) then Alternated(s, Rollbacks(s, k, valid), k) else Rollbacks(s, k, valid) == s
  {
    if valid(Previous(s)) {
      assert s.history[|s.history| - 1].source.Reload?;
      ValidRollbacksAlternate(s, k, valid);
    } else {
      InvalidRollbacksDoNothing(s, k, valid);
    }
  }

  lemma RollbacksAlternateInEveryRun<C>(first: C, qs: seq<Command<C>>, k: nat, valid: C -> bool)
    ensures var s := Run(Started(first), qs, valid);
            if |s.history| >= 2 && valid(Previous(s)) then Alternated(s, Rollbacks(s, k, valid), k)
            else Rollbacks(s, k, valid) == s
  {
    var s := Run(Started(first), qs, valid);
    EveryRunConsistent(first, qs, valid);
    if |s.history| >= 2 {
      RollbacksAlternate(s, first, k, valid);
    } else {
      InvalidRollbacksDoNothing(s, k, valid);
    }
  }

  // The manager as the source updates it.
  class ConfigurationManager<C> {
    const valid: C -> bool
    var current: C
    var history: seq<Snapshot<C>>
    var notified: seq<Change<C>>

    constructor (initial: C, valid: C -> bool)
      ensures this.valid == valid && Value() == Started(initial)
    {
      this.valid := valid;
      current := initial;
      history := [Snapshot(initial, Initial)];
      notified := [];
    }

    function Value(): State<C>
      reads this
    {
      State(current, history, notified)
    }

    // The new snapshot comes last, what is kept of the old ones is their end, and the oldest
    // goes exactly when there would be more than ten.
    method SaveSnapshot(config: C, source: Source)
      modifies this`history
      ensures |old(history)| <= 10 ==> |history| <= 10
      ensures |history| == |old(history)| + if |old(history)| < 10 then 1 else 0
      ensures history != [] && history[|history| - 1] == Snapshot(config, source)
      ensures history[..|history| - 1] == old(history)[|old(history)| + 1 - |history|..]
    {
      history := history + [Snapshot(config, source)];
      if |history| > MAX_HISTORY {
        history := history[1..];
      }
    }

    method UpdateConfig(config: C) returns (ok: bool)
      modifies this
      ensures Value() == Updated(old(Value()), config, valid)
      ensures ok <==> valid(config)
      ensures !ok ==> current == old(current) && history == old(history) && notified == old(notified)
      ensures ok ==> current == config && notified == old(notified) + [Change(old(current), config)]
      ensures ok ==> history != [] && history[|history| - 1] == Snapshot(config, Reload)
      ensures ok ==> |history| == |old(history)| + if |old(history)| < 10 then 1 else 0
      ensures ok ==> history[..|history| - 1] == old(history)[|old(history)| + 1 - |history|..]
    {
      var oldConfig := current;
      if !valid(config) {
        return false;
      }
      current := config;
      ghost var all := history + [Snapshot(config, Reload)];
      SaveSnapshot(config, Reload);
      assert history == history[..|history| - 1] + [Snapshot(config, Reload)] == Capped(all);
      notified := notified + [Change(oldConfig, config)];
      return true;
    }

    method RollbackToPrevious() returns (ok: bool)
      modifies this
      ensures Value() == RolledBack(old(Value()), valid)
      ensures ok <==> |old(history)| >= 2 && valid(old(history)[|old(history)| - 2].config)
      ensures !ok ==> current == old(current) && history == old(history) && notified == old(notified)
      ensures ok ==> var previous := old(history)[|old(history)| - 2].config;
                && current == previous && notified == old(notified) + [Change(old(current), previous)]
                && history != [] && history[|history| - 1] == Snapshot(previous, Reload)
    {
      if |history| < 2 {
        return false;
      }
      var previous := history[|history| - 2].config;
      ok := UpdateConfig(previous);
    }
  }
}
