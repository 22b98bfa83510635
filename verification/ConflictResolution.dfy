// The conflict queue, its three resolutions (mysticentral/src/handlers/conflicts.rs) and
// every other way the central store changes.
module ConflictResolution {
  import opened Basics
  import opened VersionVectors
  import opened PushProtocol

  datatype State = State(store: Store, queue: ConflictQueue)

  datatype ApiError = NotFound | BadRequest | Conflicting | StorageFailed

  // The storage calls that fail during one request.
  datatype Faults = Faults(find: bool, save: bool, delete: bool)

  const HEALTHY := Faults(false, false, false)

  // The configuration a resolution saves, before its update time is stamped.
  function Resolved(r: ConflictRecord, id: Id, resolution: string, merged: Option<Config>, freshId: Id)
    : Result<Config, ApiError>
  {
    if resolution == "keep_local" then
      Ok(r.local.(vv := Incremented(r.local.vv, freshId)))
    else if resolution == "keep_central" then
      Ok(r.central)
    else if resolution == "merge" then
      if merged.None? || merged.value.id != id then
        Err(BadRequest)
      else
        var both := Merged(Merged(merged.value.vv, r.local.vv), r.central.vv);
        Ok(merged.value.(vv := Incremented(both, freshId)))
    else
      Err(BadRequest)
  }

  function Resolve(
    s: State, id: Id, resolution: string, merged: Option<Config>, freshId: Id, now: int, faults: Faults)
    : (State, Result<Config, ApiError>)
  {
    if faults.find then (s, Err(StorageFailed))
    else if id !in s.queue then (s, Err(NotFound))
    else
      match Resolved(s.queue[id], id, resolution, merged, freshId)
      case Err(e) => (s, Err(e))
      case Ok(c) =>
        var resolved := c.(updatedAt := now);
        if faults.save then (s, Err(StorageFailed))
        else if faults.delete then (s.(store := Saved(s.store, resolved)), Err(StorageFailed))
        else (State(Saved(s.store, resolved), s.queue - {id}), Ok(resolved))
  }

  function Dismiss(s: State, id: Id, faults: Faults): (State, Result<(), ApiError>) {
    if faults.delete then (s, Err(StorageFailed))
    else if id !in s.queue then (s, Err(NotFound))
    else (s.(queue := s.queue - {id}), Ok(()))
  }

  // What an editor sends: a field left out keeps its value. `hash` is the hash of the outcome.
  datatype Edit = Edit(content: Option<int>, active: Option<bool>, hash: string)

  function Chosen<T>(given: Option<T>, current: T): T {
    if given.Some? then given.value else current
  }

  // MockService::update.
  function Update(
    s: State, id: Id, client: Option<Vector>, edit: Edit, instance: Id, now: int, faults: Faults)
    : (State, Result<Config, ApiError>)
  {
    if faults.find then (s, Err(StorageFailed))
    else if id !in s.store then (s, Err(NotFound))
    else
      var c := s.store[id];
      if client.Some? && Concurrent(c.vv, client.value) then (s, Err(Conflicting))
      else
        var updated := c.(vv := Incremented(c.vv, instance), updatedAt := now,
                          content := Chosen(edit.content, c.content), hash := edit.hash,
                          active := Chosen(edit.active, c.active));
        if faults.save then (s, Err(StorageFailed))
        else (s.(store := Saved(s.store, updated)), Ok(updated))
  }

  // The state after storing `saved` under `id` and then removing its record, where either
  // storage call may fail.
  ghost predicate StoredAndSettled(
    s: State, after: State, r: Result<Config, ApiError>, id: Id, saved: Config, faults: Faults)
  {
    if faults.save then after == s && r == Err(StorageFailed)
    else
      && (forall i :: At(after.store, i) == if i == id then Some(saved) else At(s.store, i))
      && (forall i :: RecordAt(after.queue, i) == if i == id && !faults.delete then None else RecordAt(s.queue, i))
      && r == if faults.delete then Err(StorageFailed) else Ok(saved)
  }

  // What a resolution does, as whole configurations: keep_local stores the queued local side
  // with its counter raised, keep_central the queued central side as it is, merge the given
  // configuration under the join of its own and both vectors, raised. Anything else is refused
  // and changes nothing.
  ghost predicate ResolvedAs(
    s: State, after: State, r: Result<Config, ApiError>,
    id: Id, resolution: string, merged: Option<Config>, freshId: Id, now: int, faults: Faults)
  {
    if faults.find then after == s && r == Err(StorageFailed)
    else if id !in s.queue then after == s && r == Err(NotFound)
    else
      var (local, central) := (s.queue[id].local, s.queue[id].central);
      && (resolution == "keep_local" ==>
            StoredAndSettled(
              s, after, r, id, local.(vv := Incremented(local.vv, freshId), updatedAt := now), faults))
      && (resolution == "keep_central" ==>
            StoredAndSettled(s, after, r, id, central.(updatedAt := now), faults))
      && (resolution == "merge" && merged.Some? && merged.value.id == id ==>
            var joined := Merged(Merged(merged.value.vv, local.vv), central.vv);
            StoredAndSettled(
              s, after, r, id, merged.value.(vv := Incremented(joined, freshId), updatedAt := now), faults))
      && (resolution == "merge" && (merged.None? || merged.value.id != id) ==> after == s && r == Err(BadRequest))
      && (resolution !in ["keep_local", "keep_central", "merge"] ==> after == s && r == Err(BadRequest))
  }

  lemma SavedIsStored(
    s: State, id: Id, saved: Config, faults: Faults, after: State, r: Result<Config, ApiError>)
    requires saved.id == id
    requires (after, r) ==
             if faults.save then (s, Err(StorageFailed))
             else if faults.delete then (s.(store := Saved(s.store, saved)), Err(StorageFailed))
             else (State(Saved(s.store, saved), s.queue - {id}), Ok(saved))
    ensures StoredAndSettled(s, after, r, id, saved, faults)
  {
  }

  lemma ResolveExactly(
    s: State, id: Id, resolution: string, merged: Option<Config>, freshId: Id, now: int, faults: Faults)
    requires id in s.queue ==> s.queue[id].local.id == id == s.queue[id].central.id
    ensures var (after, r) := Resolve(s, id, resolution, merged, freshId, now, faults);
            ResolvedAs(s, after, r, id, resolution, merged, freshId, now, faults)
  {
    assert "keep_central" != "keep_local" && "merge" != "keep_local" && "merge" != "keep_central";
    if !faults.find && id in s.queue {
      var c := Resolved(s.queue[id], id, resolution, merged, freshId);
      var (after, r) := Resolve(s, id, resolution, merged, freshId, now, faults);
      if c.Ok? {
        SavedIsStored(s, id, c.value.(updatedAt := now), faults, after, r);
      }
    }
  }

  // A dismissal drops the record and leaves the store.
  ghost predicate DismissedAs(s: State, after: State, r: Result<(), ApiError>, id: Id, faults: Faults) {
    && after.store == s.store
    && if faults.delete then after == s && r == Err(StorageFailed)
       else
         && r == (if id in s.queue then Ok(()) else Err(NotFound))
         && (forall i :: RecordAt(after.queue, i) == if i == id then None else RecordAt(s.queue, i))
  }

  lemma DismissExactly(s: State, id: Id, faults: Faults)
    ensures var (after, r) := Dismiss(s, id, faults); DismissedAs(s, after, r, id, faults)
  {
  }

  // An edit stores the configuration with the fields that were sent, the new hash, the editor's
  // counter raised and the new update time; identity and creation time stay. It is refused, and
  // changes nothing, when the client's vector is concurrent.
  ghost predicate UpdatedAs(
    s: State, after: State, r: Result<Config, ApiError>,
    id: Id, client: Option<Vector>, edit: Edit, instance: Id, now: int, faults: Faults)
  {
    && after.queue == s.queue
    && (forall i :: i != id ==> At(after.store, i) == At(s.store, i))
    && if r.Ok? then
         && !faults.find && !faults.save && id in s.store
         && (client.Some? ==> !Concurrent(s.store[id].vv, client.value))
         && At(after.store, id) == Some(r.value)
         && var c := s.store[id];
            && r.value.id == c.id && r.value.createdAt == c.createdAt
            && r.value.vv == Incremented(c.vv, instance)
            && r.value.hash == edit.hash && r.value.updatedAt == now
            && (edit.content == Some(r.value.content) || (edit.content.None? && r.value.content == c.content))
            && (edit.active == Some(r.value.active) || (edit.active.None? && r.value.active == c.active))
       else
         && after.store == s.store
         && r.error == (if faults.find then StorageFailed
                        else if id !in s.store then NotFound
                        else if client.Some? && Concurrent(s.store[id].vv, client.value) then Conflicting
                        else StorageFailed)
         && (r.error.StorageFailed? ==> faults.find || faults.save)
  }

  lemma UpdateExactly(
    s: State, id: Id, client: Option<Vector>, edit: Edit, instance: Id, now: int, faults: Faults)
    requires Keyed(s.store)
    ensures var (after, r) := Update(s, id, client, edit, instance, now, faults);
            UpdatedAs(s, after, r, id, client, edit, instance, now, faults)
  {
  }

  // Every request that can change the central state, one pushed configuration at a time.
  datatype Request =
    | PushRequest(decider: Decider, push: Push)
    | ImportRequest(config: Config)
    | UpdateRequest(id: Id, client: Option<Vector>, edit: Edit, instance: Id, now: int, faults: Faults)
    | DeleteRequest(id: Id)
    | ResolveRequest(
        id: Id, resolution: string, merged: Option<Config>, freshId: Id, now: int, faults: Faults)
    | DismissRequest(id: Id, faults: Faults)

  function Next(s: State, q: Request): State {
    match q
    case PushRequest(d, p) => State(StoreAfter(d, s.store, p), QueueAfter(d, s.store, s.queue, p))
    case ImportRequest(c) => s.(store := Saved(s.store, c))
    case UpdateRequest(id, client, edit, instance, now, faults) => Update(s, id, client, edit, instance, now, faults).0
    case DeleteRequest(id) => s.(store := s.store - {id})
    case ResolveRequest(id, resolution, merged, freshId, now, faults) =>
      Resolve(s, id, resolution, merged, freshId, now, faults).0
    case DismissRequest(id, faults) => Dismiss(s, id, faults).0
  }

  // Importing stores the configuration, deleting takes it out; neither touches the queue.
  lemma ImportAndDeleteExactly(s: State, c: Config, id: Id)
    ensures var after := Next(s, ImportRequest(c));
            after.queue == s.queue && At(after.store, id) == if id == c.id then Some(c) else At(s.store, id)
    ensures var after := Next(s, DeleteRequest(c.id));
            after.queue == s.queue && At(after.store, id) == if id == c.id then None else At(s.store, id)
  {
  }

  function Run(s: State, qs: seq<Request>): State {
    if qs == [] then s else Next(Run(s, qs[..|qs| - 1]), qs[|qs| - 1])
  }

  const EMPTY := State(map[], map[])

  // Each queued record holds two concurrent versions of its own configuration.
  ghost predicate Sound(s: State) {
    && Keyed(s.store)
    && forall id <- s.queue ::
      && s.queue[id].local.id == id == s.queue[id].central.id
      && Concurrent(s.queue[id].central.vv, s.queue[id].local.vv)
  }

  ghost predicate Clean(s: State) {
    && (forall id <- s.store :: ZeroFree(s.store[id].vv))
    && (forall id <- s.queue :: ZeroFree(s.queue[id].local.vv) && ZeroFree(s.queue[id].central.vv))
  }

  // A generated id occurs in none of the vectors it meets.
  predicate Unused(freshId: Id, r: ConflictRecord, merged: Option<Config>) {
    && freshId !in r.local.vv && freshId !in r.central.vv
    && (merged.Some? ==> freshId !in merged.value.vv)
  }

  // What keeps zero counters out: clients send none, new ids are new, no counter wraps.
  ghost predicate Admissible(s: State, q: Request) {
    match q
    case PushRequest(_, p) => ZeroFree(p.config.vv)
    case ImportRequest(c) => ZeroFree(c.vv)
    case UpdateRequest(id, _, _, instance, _, _) => id in s.store ==> Count(s.store[id].vv, instance) < U64_MAX
    case ResolveRequest(id, _, merged, freshId, _, _) =>
      && (merged.Some? ==> ZeroFree(merged.value.vv))
      && (id in s.queue ==> Unused(freshId, s.queue[id], merged))
    case DeleteRequest(_) => true
    case DismissRequest(_, _) => true
  }

  ghost predicate ZeroFreeParts(r: ConflictRecord, merged: Option<Config>) {
    ZeroFree(r.local.vv) && ZeroFree(r.central.vv) && (merged.Some? ==> ZeroFree(merged.value.vv))
  }

  lemma ResolvedIsSound(r: ConflictRecord, id: Id, resolution: string, merged: Option<Config>, freshId: Id)
    requires r.local.id == id == r.central.id
    ensures var c := Resolved(r, id, resolution, merged, freshId);
            && (c.Ok? ==> c.value.id == id)
            && (c.Ok? && ZeroFreeParts(r, merged) && Unused(freshId, r, merged) ==> ZeroFree(c.value.vv))
  {
    if ZeroFreeParts(r, merged) && Unused(freshId, r, merged) {
      ZeroFreeKept(r.local.vv, r.local.vv, freshId);
      if merged.Some? {
        ZeroFreeKept(merged.value.vv, r.local.vv, freshId);
        ZeroFreeKept(Merged(merged.value.vv, r.local.vv), r.central.vv, freshId);
        ZeroFreeKept(Merged(Merged(merged.value.vv, r.local.vv), r.central.vv), r.central.vv, freshId);
      }
    }
  }

  lemma NextSound(s: State, q: Request)
    requires Sound(s)
    ensures Sound(Next(s, q))
  {
    if q.ResolveRequest? && q.id in s.queue {
      ResolvedIsSound(s.queue[q.id], q.id, q.resolution, q.merged, q.freshId);
    }
  }

  lemma NextClean(s: State, q: Request)
    requires Sound(s) && Clean(s) && Admissible(s, q)
    ensures Clean(Next(s, q))
  {
    if q.ResolveRequest? && q.id in s.queue {
      ResolvedIsSound(s.queue[q.id], q.id, q.resolution, q.merged, q.freshId);
    } else if q.UpdateRequest? && q.id in s.store {
      ZeroFreeKept(s.store[q.id].vv, s.store[q.id].vv, q.instance);
    }
  }

  // In every run: the queue stays sound whatever is requested, and zero counters never
  // appear when no request brings one in.
  lemma {:induction false} EveryRunSound(s: State, qs: seq<Request>)
    requires Sound(s)
    ensures Sound(Run(s, qs))
    ensures Clean(s) && (forall k :: 0 <= k < |qs| ==> Admissible(Run(s, qs[..k]), qs[k])) ==> Clean(Run(s, qs))
  {
    if qs == [] {
    } else {
      var n := |qs| - 1;
      EveryRunSound(s, qs[..n]);
      NextSound(Run(s, qs[..n]), qs[n]);
      if Clean(s) && forall k :: 0 <= k < |qs| ==> Admissible(Run(s, qs[..k]), qs[k]) {
        forall k | 0 <= k < n
          ensures Admissible(Run(s, qs[..n][..k]), qs[..n][k])
        {
          assert qs[..n][..k] == qs[..k];
        }
        NextClean(Run(s, qs[..n]), qs[n]);
      }
    }
  }

  predicate Conflicts(store: Store, c: Config) {
    c.id in store && Concurrent(store[c.id].vv, c.vv)
  }

  // For both deciders, `Conflicts` is what a push of that version reports.
  lemma ConflictsIsReported(d: Decider, store: Store, c: Config)
    ensures Conflicts(store, c) <==> Decide(d, store, Pushed(c)).Reject?
  {
  }

  // keep_local leaves the central version in conflict unless the central version is the
  // local one stripped of zero counters.
  lemma KeepLocalExactly(local: Vector, central: Vector, freshId: Id)
    requires Concurrent(central, local) && freshId !in local && freshId !in central
    ensures Concurrent(Incremented(local, freshId), central) <==>
            !(central.Keys <= local.Keys && forall id <- local :: local[id] == Count(central, id))
  {
    var kept := Incremented(local, freshId);
    assert kept[freshId] == 1;
    assert forall id <- local :: kept[id] == local[id];
    if central.Keys <= local.Keys && forall id <- local :: local[id] == Count(central, id) {
      assert kept[freshId] > Count(central, freshId);
      assert Dominates(kept, central);
    }
  }

  lemma ZeroCounterIsConcurrent(local: Vector, central: Vector)
    requires Concurrent(central, local) && ZeroFree(local)
    ensures !(central.Keys <= local.Keys && forall id <- local :: local[id] == Count(central, id))
  {
    if central.Keys <= local.Keys && forall id <- local :: local[id] == Count(central, id) {
      assert forall id <- local :: id in central;
      assert central.Keys == local.Keys;
      SameVector(local, central);
    }
  }

  // A zero counter in the local version makes keep_local settle the central side too.
  lemma KeepLocalSettlesZeroCounters()
    ensures var local: Vector, central: Vector := map[1 := 1, 2 := 0], map[1 := 1];
            Concurrent(central, local) && Dominates(Incremented(local, 3), central)
  {
    var local: Vector, central: Vector := map[1 := 1, 2 := 0], map[1 := 1];
    assert 2 in local && 2 !in central;
    assert Incremented(local, 3)[3] == 1 > Count(central, 3);
  }

  lemma IncrementedStillAbove(v: Vector, above: Vector, freshId: Id)
    requires v.Keys <= above.Keys && (forall id <- v :: v[id] <= above[id])
    requires freshId !in above
    ensures Dominates(Incremented(above, freshId), v)
  {
    var w := Incremented(above, freshId);
    assert w[freshId] == 1 > Count(v, freshId);
    assert forall id <- w :: w[id] >= Count(v, id);
  }

  lemma MergeDominatesBoth(m: Vector, local: Vector, central: Vector, freshId: Id)
    requires freshId !in m && freshId !in local && freshId !in central
    ensures var v := Incremented(Merged(Merged(m, local), central), freshId);
            Dominates(v, local) && Dominates(v, central)
  {
    var both := Merged(Merged(m, local), central);
    IncrementedStillAbove(local, both, freshId);
    IncrementedStillAbove(central, both, freshId);
  }

  // The resolution table. After a queued conflict is resolved, which of its two sides
  // conflicts when pushed again, and what the stored vector has become.
  ghost predicate ResolvesAsTabled(s: State, id: Id, merged: Config, freshId: Id, now: int)
    requires id in s.queue
  {
    var r := s.queue[id];
    var keepLocal := Resolve(s, id, "keep_local", None, freshId, now, HEALTHY).0;
    var keepCentral := Resolve(s, id, "keep_central", None, freshId, now, HEALTHY).0;
    var merge := Resolve(s, id, "merge", Some(merged), freshId, now, HEALTHY).0;
    && !Conflicts(keepLocal.store, r.local) && Conflicts(keepLocal.store, r.central)
    && Conflicts(keepCentral.store, r.local) && !Conflicts(keepCentral.store, r.central)
    && !Conflicts(merge.store, r.local) && !Conflicts(merge.store, r.central)
    && id in merge.store
    && Dominates(merge.store[id].vv, r.local.vv) && Dominates(merge.store[id].vv, r.central.vv)
    && id !in keepLocal.queue && id !in keepCentral.queue && id !in merge.queue
  }

  lemma ResolutionTable(s: State, id: Id, merged: Config, freshId: Id, now: int)
    requires Sound(s) && id in s.queue && merged.id == id
    requires ZeroFree(s.queue[id].local.vv) && Unused(freshId, s.queue[id], Some(merged))
    ensures ResolvesAsTabled(s, id, merged, freshId, now)
  {
    var r := s.queue[id];
    assert "keep_central" != "keep_local" && "merge" != "keep_local" && "merge" != "keep_central";
    KeepLocalTabled(r, freshId);
    MergeDominatesBoth(merged.vv, r.local.vv, r.central.vv, freshId);
    StoredAfter(s, id, merged, freshId, now);
  }

  lemma KeepLocalTabled(r: ConflictRecord, freshId: Id)
    requires Concurrent(r.central.vv, r.local.vv) && freshId !in r.local.vv && freshId !in r.central.vv
    requires ZeroFree(r.local.vv)
    ensures Concurrent(Incremented(r.local.vv, freshId), r.central.vv)
    ensures Dominates(Incremented(r.local.vv, freshId), r.local.vv)
  {
    ZeroCounterIsConcurrent(r.local.vv, r.central.vv);
    KeepLocalExactly(r.local.vv, r.central.vv, freshId);
    IncrementAscends(r.local.vv, freshId);
  }

  // The vector each resolution stores.
  lemma StoredAfter(s: State, id: Id, merged: Config, freshId: Id, now: int)
    requires Sound(s) && id in s.queue && merged.id == id
    ensures var r := s.queue[id];
            var keepLocal := Resolve(s, id, "keep_local", None, freshId, now, HEALTHY).0;
            var keepCentral := Resolve(s, id, "keep_central", None, freshId, now, HEALTHY).0;
            var merge := Resolve(s, id, "merge", Some(merged), freshId, now, HEALTHY).0;
            && id in keepLocal.store && keepLocal.store[id].vv == Incremented(r.local.vv, freshId)
            && id in keepCentral.store && keepCentral.store[id].vv == r.central.vv
            && id in merge.store
            && merge.store[id].vv == Incremented(Merged(Merged(merged.vv, r.local.vv), r.central.vv), freshId)
  {
    assert "keep_central" != "keep_local" && "merge" != "keep_local" && "merge" != "keep_central";
  }

  // The table holds of every conflict queued in any admissible run from an empty server.
  lemma EveryQueuedConflictResolves(qs: seq<Request>, id: Id, merged: Config, freshId: Id, now: int)
    requires forall k :: 0 <= k < |qs| ==> Admissible(Run(EMPTY, qs[..k]), qs[k])
    requires var s := Run(EMPTY, qs);
             id in s.queue && merged.id == id && Unused(freshId, s.queue[id], Some(merged))
    ensures ResolvesAsTabled(Run(EMPTY, qs), id, merged, freshId, now)
  {
    EveryRunSound(EMPTY, qs);
    ResolutionTable(Run(EMPTY, qs), id, merged, freshId, now);
  }

  // While the stored version is still the queued central one, merge climbs, keep_central
  // stays, and keep_local leaves for a concurrent vector: it drops central's history.
  lemma OnlyMergeClimbs(s: State, id: Id, merged: Config, freshId: Id, now: int)
    requires Sound(s) && id in s.queue && merged.id == id && At(s.store, id) == Some(s.queue[id].central)
    requires ZeroFree(s.queue[id].local.vv) && Unused(freshId, s.queue[id], Some(merged))
    ensures var before := s.store[id].vv;
            && Concurrent(Resolve(s, id, "keep_local", None, freshId, now, HEALTHY).0.store[id].vv, before)
            && Resolve(s, id, "keep_central", None, freshId, now, HEALTHY).0.store[id].vv == before
            && Dominates(Resolve(s, id, "merge", Some(merged), freshId, now, HEALTHY).0.store[id].vv, before)
  {
    ResolutionTable(s, id, merged, freshId, now);
  }

  // An edit at the centre moves the stored vector strictly up exactly when the editor's
  // counter does not wrap; a client whose vector was not in conflict before it is behind after it.
  lemma UpdateClimbs(s: State, id: Id, client: Option<Vector>, edit: Edit, instance: Id, now: int)
    requires Sound(s)
    ensures var (after, r) := Update(s, id, client, edit, instance, now, HEALTHY);
            && (r.Ok? <==> id in s.store && (client.Some? ==> !Concurrent(s.store[id].vv, client.value)))
            && (r.Ok? ==>
                  var wraps := Count(s.store[id].vv, instance) == U64_MAX;
                  && (Dominates(after.store[id].vv, s.store[id].vv) <==> !wraps)
                  && (!wraps && client.Some? && AtMost(client.value, s.store[id].vv) ==>
                        Dominates(after.store[id].vv, client.value)))
  {
    if id in s.store {
      IncrementAscends(s.store[id].vv, instance);
      if client.Some? {
        StrictPartialOrder(Incremented(s.store[id].vv, instance), s.store[id].vv, client.value);
      }
    }
  }

  // Equal but for the update time, which every resolution stamps.
  predicate SameButTime(a: Option<Config>, b: Option<Config>) {
    && (a.Some? <==> b.Some?)
    && (a.Some? ==> a.value == b.value.(updatedAt := a.value.updatedAt))
  }

  // keep_central leaves the stored configuration of `id` as it is.
  ghost predicate KeepCentralKeeps(s: State, id: Id, freshId: Id, now: int) {
    SameButTime(At(Resolve(s, id, "keep_central", None, freshId, now, HEALTHY).0.store, id), At(s.store, id))
  }

  // It does exactly when the stored version is the queued central one.
  lemma KeepCentralExactly(s: State, id: Id, freshId: Id, now: int)
    requires Sound(s) && id in s.queue
    ensures KeepCentralKeeps(s, id, freshId, now) <==> SameButTime(At(s.store, id), Some(s.queue[id].central))
  {
    assert "keep_central" != "keep_local";
    assert Resolve(s, id, "keep_central", None, freshId, now, HEALTHY).0.store ==
           Saved(s.store, s.queue[id].central.(updatedAt := now));
  }

  // What one request does to the stored configuration of `id`, and to its conflict record.
  datatype Effect = Untouched | Recorded | Deleted | Stored(config: Config)

  function EffectOn(s: State, q: Request, id: Id): Effect {
    match q
    case PushRequest(d, p) =>
      if p.config.id != id then Untouched
      else if Decide(d, s.store, p).Save? then Stored(p.config)
      else if d.Handler? && Queues(s.store, p, id) then Recorded
      else Untouched
    case ImportRequest(c) => if c.id == id then Stored(c) else Untouched
    case UpdateRequest(i, client, edit, instance, now, faults) =>
      var r := Update(s, i, client, edit, instance, now, faults).1;
      if i == id && r.Ok? then Stored(r.value) else Untouched
    case DeleteRequest(i) => if i == id then Deleted else Untouched
    case ResolveRequest(i, resolution, merged, freshId, _, faults) =>
      if i != id || faults.find || faults.save || id !in s.queue then Untouched
      else
        var r := Resolved(s.queue[id], id, resolution, merged, freshId);
        if r.Ok? then Stored(r.value) else Untouched
    case DismissRequest(_, _) => Untouched
  }

  lemma EffectOnStore(s: State, q: Request, id: Id)
    requires Sound(s)
    ensures var e, after := EffectOn(s, q, id), At(Next(s, q).store, id);
            && (e.Untouched? || e.Recorded? ==> after == At(s.store, id))
            && (e.Deleted? ==> after == None)
            && (e.Stored? ==> SameButTime(after, Some(e.config)))
  {
    if q.ResolveRequest? && q.id in s.queue {
      ResolvedIsSound(s.queue[q.id], q.id, q.resolution, q.merged, q.freshId);
    }
  }

  lemma EffectOnQueue(s: State, q: Request, id: Id)
    ensures var e, after := EffectOn(s, q, id), Next(s, q).queue;
            && (e.Recorded? ==>
                  q.PushRequest? && id in s.store && id in after
                  && after[id] == ConflictRecord(q.push.config, s.store[id]))
            && (!e.Recorded? && id in after ==> id in s.queue && after[id] == s.queue[id])
  {
    if q.PushRequest? && q.decider.Handler? && q.push.config.id == id {
      QueueStep(Fresh(s.store, s.queue), q.push, id);
    }
  }

  // The state a run from the empty server is in when request `k` arrives.
  function Moment(qs: seq<Request>, k: nat): State
    requires k <= |qs|
  {
    Run(EMPTY, qs[..k])
  }

  function EffectAt(qs: seq<Request>, id: Id, k: nat): Effect
    requires k < |qs|
  {
    EffectOn(Moment(qs, k), qs[k], id)
  }

  lemma MomentStep(qs: seq<Request>, k: nat)
    requires k < |qs|
    ensures Moment(qs, k + 1) == Next(Moment(qs, k), qs[k]) && Sound(Moment(qs, k))
  {
    assert qs[..k + 1][..k] == qs[..k];
    EveryRunSound(EMPTY, qs[..k]);
  }

  // Request `k` queued the record of `id`, and no later one did.
  predicate LastRecordedAt(qs: seq<Request>, id: Id, k: nat) {
    && k < |qs| && EffectAt(qs, id, k).Recorded?
    && forall m :: k < m < |qs| ==> !EffectAt(qs, id, m).Recorded?
  }

  // Request `k` stored or deleted the configuration of `id`, and no later one did either.
  predicate LastChangedAt(qs: seq<Request>, id: Id, k: nat) {
    && k < |qs| && Changes(EffectAt(qs, id, k))
    && forall m :: k < m < |qs| ==> !Changes(EffectAt(qs, id, m))
  }

  predicate Changes(e: Effect) {
    e.Stored? || e.Deleted?
  }

  // What a request that changes the configuration leaves of it.
  function Left(e: Effect): Option<Config>
    requires Changes(e)
  {
    if e.Stored? then Some(e.config) else None
  }

  lemma {:induction false} StoreStays(qs: seq<Request>, id: Id, k: nat, n: nat)
    requires k <= n <= |qs|
    requires forall m :: k <= m < n ==> !Changes(EffectAt(qs, id, m))
    ensures At(Moment(qs, n).store, id) == At(Moment(qs, k).store, id)
    decreases n
  {
    if k == n {
    } else {
      StoreStays(qs, id, k, n - 1);
      MomentStep(qs, n - 1);
      EffectOnStore(Moment(qs, n - 1), qs[n - 1], id);
      assert !Changes(EffectAt(qs, id, n - 1));
    }
  }

  lemma {:induction false} RecordStays(qs: seq<Request>, id: Id, k: nat, n: nat)
    requires k <= n <= |qs|
    requires forall m :: k <= m < n ==> !EffectAt(qs, id, m).Recorded?
    requires id in Moment(qs, n).queue
    ensures id in Moment(qs, k).queue && Moment(qs, n).queue[id] == Moment(qs, k).queue[id]
    decreases n
  {
    if k == n {
    } else {
      MomentStep(qs, n - 1);
      EffectOnQueue(Moment(qs, n - 1), qs[n - 1], id);
      assert !EffectAt(qs, id, n - 1).Recorded?;
      RecordStays(qs, id, k, n - 1);
    }
  }

  lemma {:induction false} LastRecorded(qs: seq<Request>, id: Id, n: nat) returns (k: nat)
    requires n <= |qs| && id in Moment(qs, n).queue
    requires forall m :: n <= m < |qs| ==> !EffectAt(qs, id, m).Recorded?
    ensures LastRecordedAt(qs, id, k)
    decreases n
  {
    if n == 0 {
      assert false;
    } else if EffectAt(qs, id, n - 1).Recorded? {
      k := n - 1;
    } else {
      RecordStays(qs, id, n - 1, n);
      k := LastRecorded(qs, id, n - 1);
    }
  }

  lemma {:induction false} LastChanged(qs: seq<Request>, id: Id, from: nat, n: nat) returns (k: nat)
    requires from <= n <= |qs|
    requires exists m :: from <= m < n && Changes(EffectAt(qs, id, m))
    requires forall m :: n <= m < |qs| ==> !Changes(EffectAt(qs, id, m))
    ensures from <= k && LastChangedAt(qs, id, k)
    decreases n
  {
    if Changes(EffectAt(qs, id, n - 1)) {
      k := n - 1;
    } else {
      k := LastChanged(qs, id, from, n - 1);
    }
  }

  lemma ChangedAt(qs: seq<Request>, id: Id, k: nat)
    requires LastChangedAt(qs, id, k)
    ensures SameButTime(At(Moment(qs, |qs|).store, id), Left(EffectAt(qs, id, k)))
  {
    MomentStep(qs, k);
    EffectOnStore(Moment(qs, k), qs[k], id);
    StoreStays(qs, id, k + 1, |qs|);
  }

  lemma RecordedAt(qs: seq<Request>, id: Id, k: nat)
    requires LastRecordedAt(qs, id, k) && id in Moment(qs, |qs|).queue
    ensures id in Moment(qs, k).store
    ensures Moment(qs, |qs|).queue[id].central == Moment(qs, k).store[id]
    ensures At(Moment(qs, k + 1).store, id) == Some(Moment(qs, k).store[id])
  {
    MomentStep(qs, k);
    EffectOnQueue(Moment(qs, k), qs[k], id);
    EffectOnStore(Moment(qs, k), qs[k], id);
    RecordStays(qs, id, k + 1, |qs|);
  }

  lemma RewindsExactlyAt(qs: seq<Request>, id: Id, freshId: Id, now: int, k: nat)
    requires LastRecordedAt(qs, id, k) && id in Moment(qs, |qs|).queue
    ensures var t := Moment(qs, |qs|);
            !KeepCentralKeeps(t, id, freshId, now) <==>
            exists m :: && k < m < |qs| && LastChangedAt(qs, id, m)
                        && !SameButTime(Left(EffectAt(qs, id, m)), Some(t.queue[id].central))
  {
    var t := Moment(qs, |qs|);
    RecordedAt(qs, id, k);
    EveryRunSound(EMPTY, qs[..|qs|]);
    KeepCentralExactly(t, id, freshId, now);
    if exists m :: k + 1 <= m < |qs| && Changes(EffectAt(qs, id, m)) {
      var m := LastChanged(qs, id, k + 1, |qs|);
      ChangedAt(qs, id, m);
      assert forall j :: k < j < |qs| && LastChangedAt(qs, id, j) ==> j == m;
    } else {
      StoreStays(qs, id, k + 1, |qs|);
    }
  }

  // In every run from an empty server a queued record holds the version stored when its push
  // arrived. keep_central replaces the stored configuration by another exactly when, of the
  // requests after that push which stored or deleted it (a saved push, an import, an edit, a
  // delete, a resolution that kept the record), the last left something else than that version.
  lemma KeepCentralRewindsExactly(qs: seq<Request>, id: Id, freshId: Id, now: int)
    requires id in Run(EMPTY, qs).queue
    ensures exists k: nat :: LastRecordedAt(qs, id, k)
    ensures forall k: nat :: LastRecordedAt(qs, id, k) ==>
              var t := Run(EMPTY, qs);
              && At(Moment(qs, k).store, id) == Some(t.queue[id].central)
              && (!KeepCentralKeeps(t, id, freshId, now) <==>
                  exists m :: && k < m < |qs| && LastChangedAt(qs, id, m)
                              && !SameButTime(Left(EffectAt(qs, id, m)), Some(t.queue[id].central)))
  {
    assert qs[..|qs|] == qs;
    var last := LastRecorded(qs, id, |qs|);
    forall k: nat | LastRecordedAt(qs, id, k)
      ensures k == last
    {
    }
    RecordedAt(qs, id, last);
    RewindsExactlyAt(qs, id, freshId, now, last);
  }

  const C1 := Config(7, map[1 := 1], "c1", 0, 0, true, 1)
  const C2 := Config(7, map[1 := 2], "c2", 0, 0, true, 2)
  const L1 := Config(7, map[2 := 1], "l1", 0, 0, true, 3)

  // The stored version can move on while a conflict waits; keep_central then puts the
  // older version back, under a vector the replaced one dominates.
  lemma KeepCentralRewinds()
    ensures var requests :=
              [ImportRequest(C1), PushRequest(Handler, Pushed(L1)), PushRequest(Handler, Pushed(C2))];
            var before := Run(EMPTY, requests);
            var after := Resolve(before, 7, "keep_central", None, 9, 0, HEALTHY).0;
            && before.store[7] == C2 && after.store[7] == C1 && Dominates(C2.vv, C1.vv)
  {
    var qs := [ImportRequest(C1), PushRequest(Handler, Pushed(L1)), PushRequest(Handler, Pushed(C2))];
    assert qs[..2] == [ImportRequest(C1), PushRequest(Handler, Pushed(L1))];
    assert qs[..2][..1] == [ImportRequest(C1)] && qs[..2][..1][..0] == [];
    assert L1.vv[2] > Count(C1.vv, 2) && C1.vv[1] > Count(L1.vv, 1) && C2.vv[1] > C1.vv[1];
    assert Concurrent(C1.vv, L1.vv) && !Concurrent(C1.vv, C2.vv);
    var s1 := Run(EMPTY, qs[..2][..1]);
    var s2 := Run(EMPTY, qs[..2]);
    assert s1.store[7] == C1;
    assert s2.queue[7] == ConflictRecord(L1, C1) && s2.store[7] == C1;
  }
}
