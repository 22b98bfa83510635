// The request handlers of the centre, as the source runs them: loops over a batch, stores
// changed in place. Each is proved against the step functions of the protocol modules.
module CentralServer {
  import opened Basics
  import opened VersionVectors
  import opened PushProtocol
  import opened MockRepository
  import opened ConflictResolution
  import opened PullProtocol
  import PushRuns

  // `fails` says that the storage call for this deletion fails.
  datatype Deletion = Deletion(id: Id, fails: bool)

  function Removals(ds: seq<Deletion>): seq<PushRuns.Event> {
    seq(|ds|, i requires 0 <= i < |ds| => PushRuns.Removal(ds[i].id, ds[i].fails))
  }

  // The deletions a store accepts: those that succeed on an id still there.
  function AcceptedDeletions(store: Store, ds: seq<Deletion>): seq<Id> {
    if ds == [] then []
    else
      var n := |ds| - 1;
      var before := AcceptedDeletions(store, ds[..n]);
      if !ds[n].fails && ds[n].id in PushRuns.Run(Service, store, Removals(ds[..n])) then before + [ds[n].id]
      else before
  }

  // Deletions take out exactly the ids of those that do not fail.
  lemma {:induction false} RemovalsExactly(store: Store, ds: seq<Deletion>, id: Id)
    ensures At(PushRuns.Run(Service, store, Removals(ds)), id) ==
            if exists d <- ds :: d.id == id && !d.fails then None else At(store, id)
  {
    if ds == [] {
    } else {
      var n := |ds| - 1;
      RemovalsExactly(store, ds[..n], id);
      assert Removals(ds)[..n] == Removals(ds[..n]);
      PushRuns.RemovalExactly(Service, PushRuns.Run(Service, store, Removals(ds[..n])), ds[n].id, ds[n].fails, id);
      assert forall d :: d in ds <==> d in ds[..n] || d == ds[n];
    }
  }

  // A deletion is accepted exactly when it does not fail, its id was stored, and no earlier one
  // has taken it out.
  lemma AcceptedDeletionsExactly(store: Store, ds: seq<Deletion>, k: nat)
    requires k < |ds|
    ensures AcceptedDeletions(store, ds[..k + 1]) ==
            AcceptedDeletions(store, ds[..k]) +
            if !ds[k].fails && ds[k].id in store && !(exists j :: 0 <= j < k && ds[j].id == ds[k].id && !ds[j].fails)
            then [ds[k].id] else []
  {
    assert ds[..k + 1][..k] == ds[..k];
    RemovalsExactly(store, ds[..k], ds[k].id);
    if d :| d in ds[..k] && d.id == ds[k].id && !d.fails {
      var j :| 0 <= j < k && ds[j] == d;
    } else {
      assert forall j :: 0 <= j < k ==> ds[j] in ds[..k];
    }
  }

  // What a batch of distinct ids leaves of the store, said of the pushed configurations alone.
  ghost predicate PushedTo(d: Decider, before: Store, ps: seq<Push>, after: Store) {
    && (forall p <- ps :: At(after, p.config.id) == if Stores(d, before, p) then Some(p.config)
                                                     else At(before, p.config.id))
    && (forall id :: (forall p <- ps :: p.config.id != id) ==> At(after, id) == At(before, id))
  }

  ghost predicate ReportedOf(
    d: Decider, before: Store, ps: seq<Push>, accepted: seq<Id>, conflicts: seq<SyncConflict>)
  {
    && (forall id :: id in accepted <==> exists p <- ps :: p.config.id == id && Accepts(d, before, p))
    && (forall c :: c in conflicts <==>
          exists p <- ps :: c == Refusal(before, p) && !Accepts(d, before, p) && !Drops(d, before, p))
  }

  lemma BatchExactly(d: Decider, store: Store, queue: ConflictQueue, ps: seq<Push>)
    requires DistinctIds(ps)
    ensures var t := Batch(d, Fresh(store, queue), ps);
            PushedTo(d, store, ps, t.store) && ReportedOf(d, store, ps, t.accepted, t.conflicts)
  {
    var t := Fresh(store, queue);
    forall p | p in ps
      ensures At(Batch(d, t, ps).store, p.config.id) ==
              if Stores(d, store, p) then Some(p.config) else At(store, p.config.id)
    {
      BatchStoresExactly(d, t, ps, p.config.id);
    }
    forall id | forall p <- ps :: p.config.id != id
      ensures At(Batch(d, t, ps).store, id) == At(store, id)
    {
      BatchStoresExactly(d, t, ps, id);
    }
    BatchReportsExactly(d, store, queue, ps);
  }

  class ConflictTable {
    var records: ConflictQueue

    constructor ()
      ensures records == map[]
    {
      records := map[];
    }

    method Upsert(id: Id, r: ConflictRecord)
      modifies this
      ensures records == old(records)[id := r]
    {
      records := records[id := r];
    }

    method Delete(id: Id) returns (removed: bool)
      modifies this
      ensures records == old(records) - {id}
      ensures removed <==> id in old(records)
    {
      removed := id in records;
      records := records - {id};
    }
  }

  class SyncService {
    const mocks: InMemoryMockRepository
    const instances: set<Id>

    constructor (mocks: InMemoryMockRepository, instances: set<Id>)
      ensures this.mocks == mocks && this.instances == instances
    {
      this.mocks, this.instances := mocks, instances;
    }

    // `lookupFails` and `listFails`: the storage fails to look up the instance, or to list.
    method HandlePull(
      instance: Id, since: Option<int>, known: map<Id, string>, lookupFails: bool, listFails: bool)
      returns (r: Result<seq<Config>, ApiError>)
      requires Keyed(mocks.configs)
      ensures lookupFails || (instance in instances && listFails) ==> r == Err(StorageFailed)
      ensures !lookupFails && instance !in instances ==> r == Err(NotFound)
      ensures !lookupFails && instance in instances && !listFails ==>
                r.Ok? && Answered(r.value, mocks.configs, if since.Some? then since.value else 0, Some(known))
    {
      if lookupFails {
        return Err(StorageFailed);
      }
      if instance !in instances {
        return Err(NotFound);
      }
      var sinceTime := if since.Some? then since.value else 0;
      if listFails {
        return Err(StorageFailed);
      }
      var all := mocks.FindAll(DEFAULT_FILTER);
      var configs: seq<Config> := [];
      for i := 0 to |all|
        invariant configs == Answer(all[..i], sinceTime, Some(known))
      {
        AnswerOneMore(all, i, sinceTime, Some(known));
        var config := all[i];
        if config.updatedAt > sinceTime {
          if config.id in known {
            if known[config.id] != config.hash {
              configs := configs + [config];
            }
          } else {
            configs := configs + [config];
          }
        }
      }
      assert all[..|all|] == all;
      AnsweredFrom(all, mocks.configs, sinceTime, Some(known));
      return Ok(configs);
    }

    method ProcessPushedConfig(p: Push) returns (r: Result<(), SyncConflict>)
      modifies mocks
      ensures mocks.configs == StoreAfter(Service, old(mocks.configs), p)
      ensures var v := ServiceVerdict(old(mocks.configs), p);
              r == if v.Reject? then Err(v.conflict) else Ok(())
      ensures mocks.configs ==
              if Stores(Service, old(mocks.configs), p) then old(mocks.configs)[p.config.id := p.config]
              else old(mocks.configs)
      ensures r == if Accepts(Service, old(mocks.configs), p) then Ok(()) else Err(Refusal(old(mocks.configs), p))
    {
      var c := p.config;
      if p.findFails {
        return Err(SyncConflict(c.id, VersionMismatch, c, None));
      }
      var found := mocks.FindById(c.id);
      match found
      case Some(existing) =>
        if Concurrent(existing.vv, c.vv) {
          return Err(SyncConflict(c.id, ConcurrentModification, c, Some(existing)));
        }
        if existing.hash != c.hash {
          if Dominates(existing.vv, c.vv) {
            return Ok(());
          }
        }
        if p.saveFails {
          return Err(SyncConflict(c.id, VersionMismatch, c, Some(existing)));
        }
        mocks.Save(c);
        return Ok(());
      case None =>
        if p.saveFails {
          return Err(SyncConflict(c.id, VersionMismatch, c, None));
        }
        mocks.Save(c);
        return Ok(());
    }

    method PushAll(ps: seq<Push>) returns (accepted: seq<Id>, conflicts: seq<SyncConflict>)
      modifies mocks
      ensures var t := Batch(Service, Fresh(old(mocks.configs), map[]), ps);
              mocks.configs == t.store && accepted == t.accepted && conflicts == t.conflicts
    {
      accepted, conflicts := [], [];
      ghost var start := Fresh(mocks.configs, map[]);
      for i := 0 to |ps|
        invariant var t := Batch(Service, start, ps[..i]);
                  mocks.configs == t.store && accepted == t.accepted && conflicts == t.conflicts
      {
        BatchOneMore(Service, start, ps, i);
        var outcome := ProcessPushedConfig(ps[i]);
        match outcome
        case Ok(_) => accepted := accepted + [ps[i].config.id];
        case Err(conflict) => conflicts := conflicts + [conflict];
      }
      assert ps[..|ps|] == ps;
    }

    method DeleteAll(ds: seq<Deletion>) returns (accepted: seq<Id>)
      modifies mocks
      ensures mocks.configs == PushRuns.Run(Service, old(mocks.configs), Removals(ds))
      ensures accepted == AcceptedDeletions(old(mocks.configs), ds)
    {
      accepted := [];
      for i := 0 to |ds|
        invariant mocks.configs == PushRuns.Run(Service, old(mocks.configs), Removals(ds[..i]))
        invariant accepted == AcceptedDeletions(old(mocks.configs), ds[..i])
      {
        assert ds[..i + 1][..i] == ds[..i];
        assert Removals(ds[..i + 1])[..i] == Removals(ds[..i]);
        if !ds[i].fails {
          var found := mocks.Delete(ds[i].id);
          if found {
            accepted := accepted + [ds[i].id];
          }
        }
      }
      assert ds[..|ds|] == ds;
    }

    method HandlePush(instance: Id, ps: seq<Push>, ds: seq<Deletion>, lookupFails: bool)
      returns (r: Result<(seq<Id>, seq<SyncConflict>), ApiError>)
      modifies mocks
      ensures lookupFails || instance !in instances ==>
                r == Err(if lookupFails then StorageFailed else NotFound) && mocks.configs == old(mocks.configs)
      ensures !lookupFails && instance in instances ==>
                var t := Batch(Service, Fresh(old(mocks.configs), map[]), ps);
                && mocks.configs == PushRuns.Run(Service, t.store, Removals(ds))
                && r == Ok((t.accepted + AcceptedDeletions(t.store, ds), t.conflicts))
      ensures !lookupFails && instance in instances && DistinctIds(ps) ==>
                exists pushed: Store ::
                  && PushedTo(Service, old(mocks.configs), ps, pushed)
                  && (forall id :: At(mocks.configs, id) ==
                                   if exists d <- ds :: d.id == id && !d.fails then None else At(pushed, id))
                  && exists accepted :: && r.Ok? && r.value.0 == accepted + AcceptedDeletions(pushed, ds)
                                        && ReportedOf(Service, old(mocks.configs), ps, accepted, r.value.1)
    {
      if lookupFails {
        return Err(StorageFailed);
      }
      if instance !in instances {
        return Err(NotFound);
      }
      ghost var before := mocks.configs;
      var accepted, conflicts := PushAll(ps);
      ghost var pushed := mocks.configs;
      var deleted := DeleteAll(ds);
      if DistinctIds(ps) {
        BatchExactly(Service, before, map[], ps);
        forall id
          ensures At(mocks.configs, id) == if exists d <- ds :: d.id == id && !d.fails then None else At(pushed, id)
        {
          RemovalsExactly(pushed, ds, id);
        }
      }
      return Ok((accepted + deleted, conflicts));
    }
  }

  // The HTTP handlers over the shared repositories.
  class Handlers {
    const mocks: InMemoryMockRepository
    const conflicts: ConflictTable

    constructor (mocks: InMemoryMockRepository, conflicts: ConflictTable)
      ensures this.mocks == mocks && this.conflicts == conflicts
    {
      this.mocks, this.conflicts := mocks, conflicts;
    }

    ghost function Current(): State
      reads mocks, conflicts
    {
      State(mocks.configs, conflicts.records)
    }

    method SyncPull(since: Option<int>, listFails: bool) returns (r: Result<seq<Config>, ApiError>)
      requires Keyed(mocks.configs)
      ensures listFails ==> r == Err(StorageFailed)
      ensures !listFails ==>
                r.Ok? && Answered(r.value, mocks.configs, if since.Some? then since.value else 0, None)
    {
      if listFails {
        return Err(StorageFailed);
      }
      var sinceTime := if since.Some? then since.value else 0;
      var all := mocks.FindAll(DEFAULT_FILTER);
      var configs: seq<Config> := [];
      for i := 0 to |all|
        invariant configs == Answer(all[..i], sinceTime, None)
      {
        AnswerOneMore(all, i, sinceTime, None);
        if all[i].updatedAt > sinceTime {
          configs := configs + [all[i]];
        }
      }
      assert all[..|all|] == all;
      AnsweredFrom(all, mocks.configs, sinceTime, None);
      return Ok(configs);
    }

    method SyncPush(ps: seq<Push>) returns (accepted: seq<Id>, reported: seq<SyncConflict>)
      modifies mocks, conflicts
      ensures var t := Batch(Handler, Fresh(old(mocks.configs), old(conflicts.records)), ps);
              Current() == State(t.store, t.queue) && accepted == t.accepted && reported == t.conflicts
      ensures DistinctIds(ps) ==>
                && PushedTo(Handler, old(mocks.configs), ps, mocks.configs)
                && ReportedOf(Handler, old(mocks.configs), ps, accepted, reported)
    {
      accepted, reported := [], [];
      ghost var start := Fresh(mocks.configs, conflicts.records);
      for i := 0 to |ps|
        invariant var t := Batch(Handler, start, ps[..i]);
                  Current() == State(t.store, t.queue) && accepted == t.accepted && reported == t.conflicts
      {
        BatchOneMore(Handler, start, ps, i);
        var c := ps[i].config;
        var found: Option<Config> := None;
        if !ps[i].findFails {
          found := mocks.FindById(c.id);
        }
        if found.Some? && Concurrent(found.value.vv, c.vv) {
          if !ps[i].upsertFails {
            conflicts.Upsert(c.id, ConflictRecord(c, found.value));
          }
          reported := reported + [SyncConflict(c.id, ConcurrentModification, c, found)];
        } else if !ps[i].saveFails {
          mocks.Save(c);
          accepted := accepted + [c.id];
        }
      }
      assert ps[..|ps|] == ps;
      if DistinctIds(ps) {
        BatchExactly(Handler, start.store, start.queue, ps);
      }
    }

    method ResolveConflict(
      id: Id, resolution: string, merged: Option<Config>, freshId: Id, now: int, faults: Faults)
      returns (r: Result<Config, ApiError>)
      modifies mocks, conflicts
      ensures (Current(), r) == Resolve(old(Current()), id, resolution, merged, freshId, now, faults)
      ensures Sound(old(Current())) ==>
                ResolvedAs(old(Current()), Current(), r, id, resolution, merged, freshId, now, faults)
    {
      if Sound(Current()) {
        ResolveExactly(Current(), id, resolution, merged, freshId, now, faults);
      }
      if faults.find {
        return Err(StorageFailed);
      }
      if id !in conflicts.records {
        return Err(NotFound);
      }
      var conflict := conflicts.records[id];
      var resolved: Config;
      if resolution == "keep_local" {
        resolved := conflict.local;
        var vector := new VersionVector.From(resolved.vv);
        vector.Increment(freshId);
        resolved := resolved.(vv := vector.counters);
      } else if resolution == "keep_central" {
        resolved := conflict.central;
      } else if resolution == "merge" {
        if merged.None? {
          return Err(BadRequest);
        }
        resolved := merged.value;
        if resolved.id != id {
          return Err(BadRequest);
        }
        var vector := new VersionVector.From(resolved.vv);
        vector.Merge(conflict.local.vv);
        vector.Merge(conflict.central.vv);
        vector.Increment(freshId);
        resolved := resolved.(vv := vector.counters);
      } else {
        return Err(BadRequest);
      }
      resolved := resolved.(updatedAt := now);
      if faults.save {
        return Err(StorageFailed);
      }
      mocks.Save(resolved);
      if faults.delete {
        return Err(StorageFailed);
      }
      var _ := conflicts.Delete(id);
      return Ok(resolved);
    }

    method DismissConflict(id: Id, faults: Faults) returns (r: Result<(), ApiError>)
      modifies conflicts
      ensures (Current(), r) == Dismiss(old(Current()), id, faults)
      ensures DismissedAs(old(Current()), Current(), r, id, faults)
    {
      DismissExactly(Current(), id, faults);
      if faults.delete {
        return Err(StorageFailed);
      }
      var removed := conflicts.Delete(id);
      if !removed {
        assert conflicts.records == old(conflicts.records);
        return Err(NotFound);
      }
      return Ok(());
    }

    method UpdateMock(id: Id, client: Option<Vector>, edit: Edit, instance: Id, now: int, faults: Faults)
      returns (r: Result<Config, ApiError>)
      modifies mocks
      ensures (Current(), r) == Update(old(Current()), id, client, edit, instance, now, faults)
      ensures Keyed(old(mocks.configs)) ==>
                UpdatedAs(old(Current()), Current(), r, id, client, edit, instance, now, faults)
    {
      if Keyed(mocks.configs) {
        UpdateExactly(Current(), id, client, edit, instance, now, faults);
      }
      if faults.find {
        return Err(StorageFailed);
      }
      var found := mocks.FindById(id);
      if found.None? {
        return Err(NotFound);
      }
      var config := found.value;
      if client.Some? && Concurrent(config.vv, client.value) {
        return Err(Conflicting);
      }
      if edit.content.Some? {
        config := config.(content := edit.content.value);
      }
      if edit.active.Some? {
        config := config.(active := edit.active.value);
      }
      var vector := new VersionVector.From(config.vv);
      vector.Increment(instance);
      config := config.(vv := vector.counters, updatedAt := now, hash := edit.hash);
      if faults.save {
        return Err(StorageFailed);
      }
      mocks.Save(config);
      return Ok(config);
    }
  }
}
