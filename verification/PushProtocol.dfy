// The two push deciders: SyncService (mysticentral/src/services/sync_service.rs)
// and the live sync_push handler (mysticentral/src/handlers/routes.rs).
module PushProtocol {
  import opened Basics
  import opened VersionVectors

  // A mock configuration; `content` stands for all its other fields.
  datatype Config = Config(
    id: Id, vv: Vector, hash: string, createdAt: int, updatedAt: int, active: bool, content: int)

  type Store = map<Id, Config>

  predicate Keyed(store: Store) {
    forall id <- store :: store[id].id == id
  }

  function At(store: Store, id: Id): Option<Config> {
    if id in store then Some(store[id]) else None
  }

  datatype ConflictRecord = ConflictRecord(local: Config, central: Config)

  type ConflictQueue = map<Id, ConflictRecord>

  // One pushed configuration, with the storage calls that fail while it is processed.
  datatype Push = Push(config: Config, findFails: bool, saveFails: bool, upsertFails: bool) {
    predicate Healthy() {
      !findFails && !saveFails && !upsertFails
    }
  }

  function Pushed(config: Config): Push {
    Push(config, false, false, false)
  }

  datatype Reason = ConcurrentModification | VersionMismatch

  // `central` is None where the source reports a placeholder configuration.
  datatype SyncConflict = SyncConflict(configId: Id, reason: Reason, local: Config, central: Option<Config>)

  datatype Decider = Service | Handler

  // Keep: accepted without saving. Lose: logged on the server and reported to nobody.
  datatype Verdict = Save | Keep | Reject(conflict: SyncConflict) | Lose

  function ServiceVerdict(store: Store, p: Push): Verdict {
    var c := p.config;
    if p.findFails then
      Reject(SyncConflict(c.id, VersionMismatch, c, None))
    else if c.id in store then
      var existing := store[c.id];
      if Concurrent(existing.vv, c.vv) then
        Reject(SyncConflict(c.id, ConcurrentModification, c, Some(existing)))
      else if existing.hash != c.hash && Dominates(existing.vv, c.vv) then
        Keep
      else if p.saveFails then
        Reject(SyncConflict(c.id, VersionMismatch, c, Some(existing)))
      else
        Save
    else if p.saveFails then
      Reject(SyncConflict(c.id, VersionMismatch, c, None))
    else
      Save
  }

  function HandlerVerdict(store: Store, p: Push): Verdict {
    var c := p.config;
    if !p.findFails && c.id in store && Concurrent(store[c.id].vv, c.vv) then
      Reject(SyncConflict(c.id, ConcurrentModification, c, Some(store[c.id])))
    else if p.saveFails then
      Lose
    else
      Save
  }

  function Decide(d: Decider, store: Store, p: Push): Verdict {
    if d.Service? then ServiceVerdict(store, p) else HandlerVerdict(store, p)
  }

  function Saved(store: Store, config: Config): Store {
    store[config.id := config]
  }

  function StoreAfter(d: Decider, store: Store, p: Push): Store {
    if Decide(d, store, p).Save? then Saved(store, p.config) else store
  }

  // What a batch has done so far.
  datatype Tally = Tally(
    store: Store, queue: ConflictQueue, accepted: seq<Id>, conflicts: seq<SyncConflict>, lost: seq<Id>)

  // Only the handler persists conflicts for later resolution.
  function QueueAfter(d: Decider, store: Store, queue: ConflictQueue, p: Push): ConflictQueue {
    var v := Decide(d, store, p);
    if d.Handler? && v.Reject? && !p.upsertFails && v.conflict.central.Some? then
      queue[p.config.id := ConflictRecord(p.config, v.conflict.central.value)]
    else
      queue
  }

  function Step(d: Decider, t: Tally, p: Push): Tally {
    var v := Decide(d, t.store, p);
    Tally(
      StoreAfter(d, t.store, p),
      QueueAfter(d, t.store, t.queue, p),
      if v.Save? || v.Keep? then t.accepted + [p.config.id] else t.accepted,
      if v.Reject? then t.conflicts + [v.conflict] else t.conflicts,
      if v.Lose? then t.lost + [p.config.id] else t.lost)
  }

  function Batch(d: Decider, t: Tally, ps: seq<Push>): Tally {
    if ps == [] then t
    else Step(d, Batch(d, t, ps[..|ps| - 1]), ps[|ps| - 1])
  }

  lemma BatchOneMore(d: Decider, t: Tally, ps: seq<Push>, i: nat)
    requires i < |ps|
    ensures Batch(d, t, ps[..i + 1]) == Step(d, Batch(d, t, ps[..i]), ps[i])
  {
    assert ps[..i + 1][..i] == ps[..i];
  }

  function Fresh(store: Store, queue: ConflictQueue): Tally {
    Tally(store, queue, [], [], [])
  }

  function Ids(ps: seq<Push>): seq<Id> {
    seq(|ps|, i requires 0 <= i < |ps| => ps[i].config.id)
  }

  function ConflictIds(cs: seq<SyncConflict>): seq<Id> {
    seq(|cs|, i requires 0 <= i < |cs| => cs[i].configId)
  }

  ghost predicate DistinctIds(ps: seq<Push>) {
    forall i, j :: 0 <= i < j < |ps| ==> ps[i].config.id != ps[j].config.id
  }

  ghost predicate AllHealthy(ps: seq<Push>) {
    forall p <- ps :: p.Healthy()
  }

  function Reported(t: Tally): multiset<Id> {
    multiset(t.accepted) + multiset(ConflictIds(t.conflicts)) + multiset(t.lost)
  }

  lemma OneMoreReported(t: Tally, u: Tally, v: Verdict, id: Id)
    requires u.accepted == if v.Save? || v.Keep? then t.accepted + [id] else t.accepted
    requires u.conflicts == if v.Reject? then t.conflicts + [v.conflict] else t.conflicts
    requires u.lost == if v.Lose? then t.lost + [id] else t.lost
    requires v.Reject? ==> v.conflict.configId == id
    ensures Reported(u) == Reported(t) + multiset{id}
  {
    if v.Reject? {
      ConflictIdsOneMore(t.conflicts, v.conflict);
    }
  }

  lemma StepAccounts(d: Decider, t: Tally, p: Push)
    ensures Reported(Step(d, t, p)) == Reported(t) + multiset{p.config.id}
  {
    var v := Decide(d, t.store, p);
    assert v.Reject? ==> v.conflict.configId == p.config.id;
    OneMoreReported(t, Step(d, t, p), v, p.config.id);
  }

  lemma ConflictIdsOneMore(cs: seq<SyncConflict>, c: SyncConflict)
    ensures ConflictIds(cs + [c]) == ConflictIds(cs) + [c.configId]
  {
  }

  // Conservation, with any storage failures and repeated ids: every push is accounted
  // for exactly once.
  lemma {:induction false} EveryPushAccountedFor(d: Decider, t: Tally, ps: seq<Push>)
    ensures Reported(Batch(d, t, ps)) == Reported(t) + multiset(Ids(ps))
  {
    if ps == [] {
      assert Ids(ps) == [];
    } else {
      var n := |ps| - 1;
      EveryPushAccountedFor(d, t, ps[..n]);
      StepAccounts(d, Batch(d, t, ps[..n]), ps[n]);
      assert Ids(ps) == Ids(ps[..n]) + [ps[n].config.id];
    }
  }

  // The service loses no push whatever fails; the handler only where a save fails.
  lemma {:induction false} OnlyTheHandlerLoses(d: Decider, t: Tally, ps: seq<Push>)
    requires d.Service? || forall i :: 0 <= i < |ps| ==> !ps[i].saveFails
    ensures Batch(d, t, ps).lost == t.lost
  {
    if ps == [] {
    } else {
      OnlyTheHandlerLoses(d, t, ps[..|ps| - 1]);
    }
  }

  // A push that is a conflict for `id` and that the handler manages to queue.
  predicate Queues(met: Store, p: Push, id: Id) {
    && p.config.id == id && !p.findFails && !p.upsertFails
    && id in met && Concurrent(met[id].vv, p.config.vv)
  }

  // Where the deciders stand when push `k` of a batch arrives.
  function ServiceAt(store: Store, queue: ConflictQueue, ps: seq<Push>, k: nat): Tally
    requires k <= |ps|
  {
    Batch(Service, Fresh(store, queue), ps[..k])
  }

  function HandlerAt(store: Store, queue: ConflictQueue, ps: seq<Push>, k: nat): Tally
    requires k <= |ps|
  {
    Batch(Handler, Fresh(store, queue), ps[..k])
  }

  function RecordAt(queue: ConflictQueue, id: Id): Option<ConflictRecord> {
    if id in queue then Some(queue[id]) else None
  }

  lemma QueueStep(t: Tally, p: Push, id: Id)
    ensures RecordAt(Step(Handler, t, p).queue, id) ==
            if Queues(t.store, p, id) then Some(ConflictRecord(p.config, t.store[id])) else RecordAt(t.queue, id)
  {
  }

  // Push `k` of the batch puts a record for `id` in the queue.
  predicate QueuedAt(store: Store, queue: ConflictQueue, ps: seq<Push>, id: Id, k: nat)
    requires k < |ps|
  {
    Queues(HandlerAt(store, queue, ps, k).store, ps[k], id)
  }

  // Push `k` does, and none of the pushes after it and before `n`.
  predicate LastQueuedAt(store: Store, queue: ConflictQueue, ps: seq<Push>, id: Id, n: nat, k: nat)
    requires n <= |ps|
  {
    && k < n
    && QueuedAt(store, queue, ps, id, k)
    && forall m :: k < m < n ==> !QueuedAt(store, queue, ps, id, m)
  }

  lemma HandlerQueueGrows(store: Store, queue: ConflictQueue, ps: seq<Push>, id: Id, k: nat)
    requires k < |ps|
    ensures RecordAt(HandlerAt(store, queue, ps, k + 1).queue, id) ==
            if QueuedAt(store, queue, ps, id, k)
            then Some(ConflictRecord(ps[k].config, HandlerAt(store, queue, ps, k).store[id]))
            else RecordAt(HandlerAt(store, queue, ps, k).queue, id)
  {
    BatchOneMore(Handler, Fresh(store, queue), ps, k);
    QueueStep(HandlerAt(store, queue, ps, k), ps[k], id);
  }

  // From push `k` to push `n`, with nothing queued for `id` in between.
  lemma {:induction false} QueueStays(store: Store, queue: ConflictQueue, ps: seq<Push>, id: Id, k: nat, n: nat)
    requires k <= n <= |ps|
    requires forall m :: k <= m < n ==> !QueuedAt(store, queue, ps, id, m)
    ensures RecordAt(HandlerAt(store, queue, ps, n).queue, id) == RecordAt(HandlerAt(store, queue, ps, k).queue, id)
    decreases n
  {
    if k == n {
    } else {
      QueueStays(store, queue, ps, id, k, n - 1);
      HandlerQueueGrows(store, queue, ps, id, n - 1);
    }
  }

  // The handler's queue neither loses nor doubles a conflict: after a batch, with any failures
  // and repeated ids, it holds for each id the last conflict that could be queued, with the
  // version stored when it arrived, or else what it held before.
  lemma QueueHoldsLastConflict(store: Store, queue: ConflictQueue, ps: seq<Push>, id: Id)
    ensures var held := RecordAt(Batch(Handler, Fresh(store, queue), ps).queue, id);
            && (forall k: nat :: LastQueuedAt(store, queue, ps, id, |ps|, k) ==>
                  held == Some(ConflictRecord(ps[k].config, HandlerAt(store, queue, ps, k).store[id])))
            && ((forall k :: 0 <= k < |ps| ==> !QueuedAt(store, queue, ps, id, k)) ==> held == RecordAt(queue, id))
  {
    assert ps[..|ps|] == ps;
    forall k: nat | LastQueuedAt(store, queue, ps, id, |ps|, k)
      ensures RecordAt(Batch(Handler, Fresh(store, queue), ps).queue, id) ==
              Some(ConflictRecord(ps[k].config, HandlerAt(store, queue, ps, k).store[id]))
    {
      HandlerQueueGrows(store, queue, ps, id, k);
      QueueStays(store, queue, ps, id, k + 1, |ps|);
    }
    if forall k :: 0 <= k < |ps| ==> !QueuedAt(store, queue, ps, id, k) {
      QueueStays(store, queue, ps, id, 0, |ps|);
      assert HandlerAt(store, queue, ps, 0) == Fresh(store, queue);
    }
  }

  lemma {:induction false} BatchLeavesOthers(d: Decider, t: Tally, ps: seq<Push>, id: Id)
    requires forall i :: 0 <= i < |ps| ==> ps[i].config.id != id
    ensures At(Batch(d, t, ps).store, id) == At(t.store, id)
  {
    if ps == [] {
    } else {
      BatchLeavesOthers(d, t, ps[..|ps| - 1], id);
    }
  }

  // The stored vector strictly dominates the pushed one and the contents differ.
  predicate StaleContent(store: Store, c: Config) {
    && c.id in store
    && Dominates(store[c.id].vv, c.vv)
    && store[c.id].hash != c.hash
  }

  // The stored version that is in conflict with `c`, if it is.
  function InConflict(store: Store, c: Config): Option<Config> {
    if c.id in store && Concurrent(store[c.id].vv, c.vv) then Some(store[c.id]) else None
  }

  // Whether a push is stored, said of the store and the two vectors alone.
  predicate Stores(d: Decider, store: Store, p: Push) {
    var c := p.config;
    && !p.saveFails
    && match d
       case Service => !p.findFails && InConflict(store, c).None? && !StaleContent(store, c)
       case Handler => p.findFails || InConflict(store, c).None?
  }

  // Accepted: stored, or kept because the service holds a newer version.
  predicate Accepts(d: Decider, store: Store, p: Push) {
    Stores(d, store, p) || (d.Service? && !p.findFails && StaleContent(store, p.config))
  }

  // Dropped without a report: a handler's save fails.
  predicate Drops(d: Decider, store: Store, p: Push) {
    d.Handler? && p.saveFails && (p.findFails || InConflict(store, p.config).None?)
  }

  // What one push does to the store, for either decider and with any failures: it puts the
  // pushed configuration as it came under its id, or changes nothing.
  lemma PushStoresExactly(d: Decider, store: Store, p: Push, id: Id)
    ensures At(StoreAfter(d, store, p), id) ==
            if id == p.config.id && Stores(d, store, p) then Some(p.config) else At(store, id)
  {
  }

  // Without failures: a new configuration is stored; another one is unless it is in conflict
  // or, for the service, the stored version is newer.
  lemma HealthyPushStoresExactly(d: Decider, store: Store, p: Push)
    requires p.Healthy()
    ensures var c, after := p.config, At(StoreAfter(d, store, p), p.config.id);
            && (after == Some(c) <==>
                || c.id !in store || store[c.id] == c
                || (!Concurrent(store[c.id].vv, c.vv) &&
                    (d.Service? ==> store[c.id].hash == c.hash || !Dominates(store[c.id].vv, c.vv))))
            && (after == Some(c) || after == At(store, c.id))
  {
    PushStoresExactly(d, store, p, p.config.id);
  }

  // What one push adds to the report.
  lemma PushReportsExactly(d: Decider, t: Tally, p: Push)
    ensures var u, c := Step(d, t, p), p.config;
            && u.accepted == t.accepted + (if Accepts(d, t.store, p) then [c.id] else [])
            && u.lost == t.lost + (if Drops(d, t.store, p) then [c.id] else [])
            && u.conflicts == t.conflicts + if Accepts(d, t.store, p) || Drops(d, t.store, p) then []
                                            else [Refusal(t.store, p)]
  {
  }

  // The report of a push that is neither accepted nor dropped. A failing lookup hides the
  // stored version.
  function Refusal(store: Store, p: Push): SyncConflict {
    var c := p.config;
    if p.findFails then SyncConflict(c.id, VersionMismatch, c, None)
    else
      SyncConflict(
        c.id, if InConflict(store, c).Some? then ConcurrentModification else VersionMismatch, c, At(store, c.id))
  }

  lemma SameVerdict(d: Decider, s: Store, t: Store, p: Push)
    requires At(s, p.config.id) == At(t, p.config.id)
    ensures Decide(d, s, p) == Decide(d, t, p)
    ensures At(StoreAfter(d, s, p), p.config.id) == At(StoreAfter(d, t, p), p.config.id)
  {
  }

  // In a batch of distinct ids each push is judged against the store the batch started from.
  lemma {:induction false} BatchIsPointwise(d: Decider, t: Tally, ps: seq<Push>, i: nat)
    requires DistinctIds(ps) && i < |ps|
    ensures var id := ps[i].config.id; At(Batch(d, t, ps).store, id) == At(StoreAfter(d, t.store, ps[i]), id)
  {
    var front, before := ps[..|ps| - 1], Batch(d, t, ps[..|ps| - 1]).store;
    if i == |ps| - 1 {
      BatchLeavesOthers(d, t, front, ps[i].config.id);
      SameVerdict(d, before, t.store, ps[i]);
    } else {
      BatchIsPointwise(d, t, front, i);
    }
  }

  // A batch of distinct ids stores each pushed configuration that its starting store lets in,
  // and leaves every other id alone.
  lemma BatchStoresExactly(d: Decider, t: Tally, ps: seq<Push>, id: Id)
    requires DistinctIds(ps)
    ensures forall p <- ps :: p.config.id == id ==>
                                At(Batch(d, t, ps).store, id) ==
                                if Stores(d, t.store, p) then Some(p.config) else At(t.store, id)
    ensures (forall p <- ps :: p.config.id != id) ==> At(Batch(d, t, ps).store, id) == At(t.store, id)
  {
    forall p | p in ps && p.config.id == id
      ensures At(Batch(d, t, ps).store, id) == if Stores(d, t.store, p) then Some(p.config) else At(t.store, id)
    {
      var i: nat :| i < |ps| && ps[i] == p;
      BatchIsPointwise(d, t, ps, i);
      PushStoresExactly(d, t.store, p, id);
    }
    if forall p <- ps :: p.config.id != id {
      BatchLeavesOthers(d, t, ps, id);
    }
  }

  // It accepts exactly the pushes the starting store lets in or outdates, and refuses the
  // others, each with its own report.
  lemma {:induction false} BatchReportsExactly(d: Decider, store: Store, queue: ConflictQueue, ps: seq<Push>)
    requires DistinctIds(ps)
    ensures var u := Batch(d, Fresh(store, queue), ps);
            && (forall id :: id in u.accepted <==> exists p <- ps :: p.config.id == id && Accepts(d, store, p))
            && (forall c :: c in u.conflicts <==>
                  exists p <- ps :: c == Refusal(store, p) && !Accepts(d, store, p) && !Drops(d, store, p))
  {
    if ps == [] {
    } else {
      var n := |ps| - 1;
      BatchReportsExactly(d, store, queue, ps[..n]);
      BatchReportsOneMore(d, store, queue, ps);
      assert forall p :: p in ps <==> p in ps[..n] || p == ps[n];
    }
  }

  lemma BatchReportsOneMore(d: Decider, store: Store, queue: ConflictQueue, ps: seq<Push>)
    requires DistinctIds(ps) && ps != []
    ensures var n := |ps| - 1;
            var t, u := Batch(d, Fresh(store, queue), ps[..n]), Batch(d, Fresh(store, queue), ps);
            && u.accepted == t.accepted + (if Accepts(d, store, ps[n]) then [ps[n].config.id] else [])
            && u.conflicts == t.conflicts + if Accepts(d, store, ps[n]) || Drops(d, store, ps[n]) then []
                                            else [Refusal(store, ps[n])]
  {
    var n := |ps| - 1;
    var t := Batch(d, Fresh(store, queue), ps[..n]);
    BatchLeavesOthers(d, Fresh(store, queue), ps[..n], ps[n].config.id);
    PushReportsExactly(d, t, ps[n]);
  }

  lemma SameStep(s: Tally, h: Tally, p: Push)
    requires p.Healthy() && At(s.store, p.config.id) == At(h.store, p.config.id)
    requires s.accepted == h.accepted && s.conflicts == h.conflicts
    ensures Step(Service, s, p).accepted == Step(Handler, h, p).accepted
    ensures Step(Service, s, p).conflicts == Step(Handler, h, p).conflicts
  {
    var vs, vh := ServiceVerdict(s.store, p), HandlerVerdict(h.store, p);
    assert (vs.Reject? <==> vh.Reject?) && (vs.Reject? ==> vs == vh) && !vs.Lose? && !vh.Lose?;
  }

  lemma {:induction false} SameReport(store: Store, queue: ConflictQueue, ps: seq<Push>)
    requires DistinctIds(ps) && AllHealthy(ps)
    ensures var s := Batch(Service, Fresh(store, queue), ps);
            var h := Batch(Handler, Fresh(store, queue), ps);
            s.accepted == h.accepted && s.conflicts == h.conflicts
  {
    if ps == [] {
    } else {
      var n := |ps| - 1;
      var start, id := Fresh(store, queue), ps[n].config.id;
      assert ps[n] in ps && forall p <- ps[..n] :: p in ps;
      SameReport(store, queue, ps[..n]);
      var s, h := Batch(Service, start, ps[..n]), Batch(Handler, start, ps[..n]);
      BatchLeavesOthers(Service, start, ps[..n], id);
      BatchLeavesOthers(Handler, start, ps[..n], id);
      SameStep(s, h, ps[n]);
    }
  }

  // The deciders report the same outcome, and their stores differ at exactly the ids
  // pushed with stale content: there the service keeps and the handler overwrites.
  lemma DecidersCompared(store: Store, queue: ConflictQueue, ps: seq<Push>, id: Id)
    requires DistinctIds(ps) && AllHealthy(ps)
    ensures var s := Batch(Service, Fresh(store, queue), ps);
            var h := Batch(Handler, Fresh(store, queue), ps);
            && s.accepted == h.accepted && s.conflicts == h.conflicts
            && (At(s.store, id) != At(h.store, id) <==>
                exists p <- ps :: p.config.id == id && StaleContent(store, p.config))
            && (forall p <- ps :: p.config.id == id && StaleContent(store, p.config) ==>
                  At(s.store, id) == Some(store[id]) && At(h.store, id) == Some(p.config))
  {
    var start := Fresh(store, queue);
    SameReport(store, queue, ps);
    if i: nat :| i < |ps| && ps[i].config.id == id {
      BatchIsPointwise(Service, start, ps, i);
      BatchIsPointwise(Handler, start, ps, i);
      assert ps[i] in ps;
      ComparedOnOne(store, ps[i]);
      assert forall p <- ps :: p.config.id == id ==> p == ps[i];
    } else {
      BatchLeavesOthers(Service, start, ps, id);
      BatchLeavesOthers(Handler, start, ps, id);
    }
  }

  lemma ComparedOnOne(store: Store, p: Push)
    requires p.Healthy()
    ensures var id := p.config.id;
            At(StoreAfter(Service, store, p), id) != At(StoreAfter(Handler, store, p), id)
            <==> StaleContent(store, p.config)
  {
    if p.config.id in store {
      StrictPartialOrder(store[p.config.id].vv, p.config.vv, p.config.vv);
    }
  }

  ghost predicate SameReports(s: Tally, h: Tally) {
    s.accepted == h.accepted && s.conflicts == h.conflicts
  }

  ghost predicate SameOutcome(s: Tally, h: Tally) {
    s.store == h.store && SameReports(s, h)
  }

  lemma StepAgreesExactly(s: Tally, h: Tally, p: Push)
    requires p.Healthy() && s.store == h.store
    ensures Step(Service, s, p).store == Step(Handler, h, p).store <==> !StaleContent(s.store, p.config)
    ensures SameOutcome(s, h) && !StaleContent(s.store, p.config) ==>
              SameOutcome(Step(Service, s, p), Step(Handler, h, p))
  {
    ComparedOnOne(s.store, p);
    if SameOutcome(s, h) {
      SameStep(s, h, p);
    }
  }

  // None of the first `k` pushes is stale against the store it meets.
  predicate NoneStale(store: Store, queue: ConflictQueue, ps: seq<Push>, k: nat)
    requires k <= |ps|
  {
    forall j :: 0 <= j < k ==> !StaleContent(ServiceAt(store, queue, ps, j).store, ps[j].config)
  }

  lemma {:induction false} AgreeWhileNotStale(store: Store, queue: ConflictQueue, ps: seq<Push>, k: nat)
    requires AllHealthy(ps) && k <= |ps|
    requires NoneStale(store, queue, ps, k)
    ensures SameOutcome(ServiceAt(store, queue, ps, k), HandlerAt(store, queue, ps, k))
    decreases k
  {
    if k == 0 {
    } else {
      AgreeWhileNotStale(store, queue, ps, k - 1);
      BatchOneMore(Service, Fresh(store, queue), ps, k - 1);
      BatchOneMore(Handler, Fresh(store, queue), ps, k - 1);
      assert ps[k - 1] in ps;
      StepAgreesExactly(ServiceAt(store, queue, ps, k - 1), HandlerAt(store, queue, ps, k - 1), ps[k - 1]);
    }
  }

  // On any batch, repeated ids included: the two stores agree after every prefix exactly when
  // no push is stale against the store it meets, and then so do the reports.
  lemma StoresAgreeExactly(store: Store, queue: ConflictQueue, ps: seq<Push>)
    requires AllHealthy(ps)
    ensures NoneStale(store, queue, ps, |ps|) <==>
            forall k :: 0 <= k <= |ps| ==> ServiceAt(store, queue, ps, k).store == HandlerAt(store, queue, ps, k).store
    ensures NoneStale(store, queue, ps, |ps|) ==>
              forall k :: 0 <= k <= |ps| ==>
                            SameOutcome(ServiceAt(store, queue, ps, k), HandlerAt(store, queue, ps, k))
  {
    if NoneStale(store, queue, ps, |ps|) {
      forall k | 0 <= k <= |ps|
        ensures SameOutcome(ServiceAt(store, queue, ps, k), HandlerAt(store, queue, ps, k))
      {
        AgreeWhileNotStale(store, queue, ps, k);
      }
    }
    if forall k :: 0 <= k <= |ps| ==> ServiceAt(store, queue, ps, k).store == HandlerAt(store, queue, ps, k).store {
      forall k | 0 <= k < |ps|
        ensures !StaleContent(ServiceAt(store, queue, ps, k).store, ps[k].config)
      {
        BatchOneMore(Service, Fresh(store, queue), ps, k);
        BatchOneMore(Handler, Fresh(store, queue), ps, k);
        assert ps[k] in ps;
        assert ServiceAt(store, queue, ps, k + 1).store == HandlerAt(store, queue, ps, k + 1).store;
        StepAgreesExactly(ServiceAt(store, queue, ps, k), HandlerAt(store, queue, ps, k), ps[k]);
      }
    }
  }

  lemma HealthyReport(d: Decider, t: Tally, p: Push)
    requires p.Healthy()
    ensures var u, found := Step(d, t, p), InConflict(t.store, p.config);
            if found.Some? then
              && u.accepted == t.accepted
              && u.conflicts == t.conflicts + [SyncConflict(p.config.id, ConcurrentModification, p.config, found)]
            else u.accepted == t.accepted + [p.config.id] && u.conflicts == t.conflicts
  {
  }

  lemma StepReportsExactly(s: Tally, h: Tally, p: Push)
    requires p.Healthy() && SameReports(s, h)
    ensures SameReports(Step(Service, s, p), Step(Handler, h, p)) <==>
            InConflict(s.store, p.config) == InConflict(h.store, p.config)
  {
    HealthyReport(Service, s, p);
    HealthyReport(Handler, h, p);
    var s', h' := Step(Service, s, p), Step(Handler, h, p);
    if SameReports(s', h') && InConflict(s.store, p.config).Some? {
      assert s'.conflicts[|s.conflicts|] == h'.conflicts[|h.conflicts|];
    }
  }

  // Each of the first `k` pushes is in conflict with the same version, or with none, in both
  // running stores.
  predicate JudgedAlike(store: Store, queue: ConflictQueue, ps: seq<Push>, k: nat)
    requires k <= |ps|
  {
    forall j :: 0 <= j < k ==>
                  InConflict(ServiceAt(store, queue, ps, j).store, ps[j].config) ==
                  InConflict(HandlerAt(store, queue, ps, j).store, ps[j].config)
  }

  lemma OnePushReports(store: Store, queue: ConflictQueue, ps: seq<Push>, k: nat)
    requires AllHealthy(ps) && k < |ps|
    requires SameReports(ServiceAt(store, queue, ps, k), HandlerAt(store, queue, ps, k))
    ensures SameReports(ServiceAt(store, queue, ps, k + 1), HandlerAt(store, queue, ps, k + 1)) <==>
            InConflict(ServiceAt(store, queue, ps, k).store, ps[k].config) ==
            InConflict(HandlerAt(store, queue, ps, k).store, ps[k].config)
  {
    BatchOneMore(Service, Fresh(store, queue), ps, k);
    BatchOneMore(Handler, Fresh(store, queue), ps, k);
    assert ps[k] in ps;
    StepReportsExactly(ServiceAt(store, queue, ps, k), HandlerAt(store, queue, ps, k), ps[k]);
  }

  lemma {:induction false} ReportsWhileJudgedAlike(store: Store, queue: ConflictQueue, ps: seq<Push>, k: nat)
    requires AllHealthy(ps) && k <= |ps| && JudgedAlike(store, queue, ps, k)
    ensures SameReports(ServiceAt(store, queue, ps, k), HandlerAt(store, queue, ps, k))
    decreases k
  {
    if k == 0 {
    } else {
      ReportsWhileJudgedAlike(store, queue, ps, k - 1);
      OnePushReports(store, queue, ps, k - 1);
    }
  }

  // On any batch, repeated ids included: the reports agree after every prefix exactly when each
  // push meets the same conflicting version, or none, in both running stores.
  lemma ReportsAgreeExactly(store: Store, queue: ConflictQueue, ps: seq<Push>)
    requires AllHealthy(ps)
    ensures JudgedAlike(store, queue, ps, |ps|) <==>
            forall k :: 0 <= k <= |ps| ==> SameReports(ServiceAt(store, queue, ps, k), HandlerAt(store, queue, ps, k))
  {
    if JudgedAlike(store, queue, ps, |ps|) {
      forall k | 0 <= k <= |ps|
        ensures SameReports(ServiceAt(store, queue, ps, k), HandlerAt(store, queue, ps, k))
      {
        ReportsWhileJudgedAlike(store, queue, ps, k);
      }
    }
    if forall k :: 0 <= k <= |ps| ==> SameReports(ServiceAt(store, queue, ps, k), HandlerAt(store, queue, ps, k)) {
      forall k | 0 <= k < |ps|
        ensures InConflict(ServiceAt(store, queue, ps, k).store, ps[k].config) ==
                InConflict(HandlerAt(store, queue, ps, k).store, ps[k].config)
      {
        OnePushReports(store, queue, ps, k);
      }
    }
  }

  const NEWER := Config(7, map[1 := 2], "new", 0, 0, true, 0)
  const STALE := Config(7, map[1 := 1], "old", 0, 0, true, 0)
  const SIDE := Config(7, map[1 := 1, 2 := 1], "side", 0, 0, true, 0)

  // Without distinct ids the reports themselves come apart: a stale push followed by one
  // that is concurrent only with the version the handler has just overwritten.
  lemma RepeatedIdsSplitTheReports()
    ensures var t, ps := Fresh(map[7 := NEWER], map[]), [Pushed(STALE), Pushed(SIDE)];
            Batch(Service, t, ps).accepted == [7] && Batch(Handler, t, ps).accepted == [7, 7]
  {
    var t := Fresh(map[7 := NEWER], map[]);
    StaleThenSide();
    BatchOfTwo(Service, t, Pushed(STALE), Pushed(SIDE));
    BatchOfTwo(Handler, t, Pushed(STALE), Pushed(SIDE));
    assert NEWER.hash[0] != STALE.hash[0];
    assert ServiceVerdict(t.store, Pushed(STALE)) == Keep;
    assert HandlerVerdict(t.store, Pushed(STALE)) == Save;
    assert Step(Handler, t, Pushed(STALE)).store[7] == STALE;
  }

  lemma StaleThenSide()
    ensures Dominates(NEWER.vv, STALE.vv) && Concurrent(NEWER.vv, SIDE.vv) && Dominates(SIDE.vv, STALE.vv)
  {
    assert NEWER.vv[1] > STALE.vv[1];
    assert SIDE.vv[2] > Count(STALE.vv, 2) && SIDE.vv[2] > Count(NEWER.vv, 2);
    assert SIDE.vv[1] < NEWER.vv[1];
    StrictPartialOrder(SIDE.vv, STALE.vv, STALE.vv);
  }

  lemma BatchOfTwo(d: Decider, t: Tally, p: Push, q: Push)
    ensures Batch(d, t, [p, q]) == Step(d, Step(d, t, p), q)
  {
    assert [p, q][..1] == [p] && [p][..0] == [];
    assert Batch(d, t, [p]) == Step(d, t, p);
  }
}
