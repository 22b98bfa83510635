// Pulling from the central store into a replica: the checksum-filtered answer of
// SyncService::handle_pull, the plain one of sync_pull, and the client that applies them
// (mystiproxy/src/management/sync.rs, mystiproxy/src/management/repository.rs).
module PullProtocol {
  import opened Basics
  import opened VersionVectors
  import opened PushProtocol
  import opened MockRepository

  // The hashes a replica reports: active rows only.
  function KnownHashes(rows: Store): map<Id, string> {
    map id | id in rows && rows[id].active :: rows[id].hash
  }

  // Whether an answer carries `c`; without checksums only the modification time counts.
  predicate Carries(c: Config, since: int, known: Option<map<Id, string>>) {
    && c.updatedAt > since
    && (known.Some? && c.id in known.value ==> known.value[c.id] != c.hash)
  }

  function Answer(page: seq<Config>, since: int, known: Option<map<Id, string>>): seq<Config> {
    if page == [] then []
    else
      var c, front := page[|page| - 1], Answer(page[..|page| - 1], since, known);
      if Carries(c, since, known) then front + [c] else front
  }

  lemma AnswerOneMore(page: seq<Config>, i: nat, since: int, known: Option<map<Id, string>>)
    requires i < |page|
    ensures Answer(page[..i + 1], since, known) ==
            Answer(page[..i], since, known) + if Carries(page[i], since, known) then [page[i]] else []
  {
    assert page[..i + 1][..i] == page[..i];
  }

  // An answer read off a page: what was modified after `since` and is not known by its hash,
  // newest first.
  ghost predicate AnswersFrom(
    configs: seq<Config>, page: seq<Config>, since: int, known: Option<map<Id, string>>)
  {
    && NewestFirst(configs) && DistinctConfigs(configs)
    && forall c :: c in configs <==>
                     && c in page && c.updatedAt > since
                     && (known.Some? && c.id in known.value ==> c.hash != known.value[c.id])
  }

  lemma {:induction false} AnswerIsNewestFirst(page: seq<Config>, since: int, known: Option<map<Id, string>>)
    requires NewestFirst(page)
    ensures NewestFirst(Answer(page, since, known))
    ensures forall c <- Answer(page, since, known) :: c in page
  {
    if page == [] {
    } else {
      var front := page[..|page| - 1];
      AnswerIsNewestFirst(front, since, known);
      assert forall c <- front :: c.createdAt >= page[|page| - 1].createdAt && c in page;
    }
  }

  lemma AnswerExactly(page: seq<Config>, store: Store, since: int, known: Option<map<Id, string>>)
    requires Listing(page, store, DEFAULT_FILTER)
    ensures AnswersFrom(Answer(page, since, known), page, since, known)
  {
    PageShape(page, store, DEFAULT_FILTER);
    AnswerIsNewestFirst(page, since, known);
    AnswerContents(page, since, known);
  }

  // What the server may answer, in either order of ties.
  ghost predicate Answered(configs: seq<Config>, store: Store, since: int, known: Option<map<Id, string>>) {
    exists page :: && Listing(page, store, DEFAULT_FILTER)
                   && configs == Answer(page, since, known) && AnswersFrom(configs, page, since, known)
  }

  lemma AnsweredFrom(page: seq<Config>, store: Store, since: int, known: Option<map<Id, string>>)
    requires Listing(page, store, DEFAULT_FILTER)
    ensures Answered(Answer(page, since, known), store, since, known)
  {
    AnswerExactly(page, store, since, known);
  }

  // Saving over an existing row keeps the row's creation time.
  function Row(rows: Store, c: Config): Config {
    if c.id in rows then c.(createdAt := rows[c.id].createdAt) else c
  }

  function Applied(rows: Store, cs: seq<Config>): Store {
    if cs == [] then rows
    else
      var before := Applied(rows, cs[..|cs| - 1]);
      Saved(before, Row(before, cs[|cs| - 1]))
  }

  function HashAt(rows: Store, id: Id): Option<string> {
    if id in rows then Some(rows[id].hash) else None
  }

  function Pulled(rows: Store, page: seq<Config>, since: int, known: Option<map<Id, string>>): Store {
    Applied(rows, Answer(page, since, known))
  }

  lemma {:induction false} AnswerContents(page: seq<Config>, since: int, known: Option<map<Id, string>>)
    requires DistinctConfigs(page)
    ensures DistinctConfigs(Answer(page, since, known))
    ensures forall c :: c in Answer(page, since, known) <==> c in page && Carries(c, since, known)
  {
    if page == [] {
    } else {
      AnswerContents(page[..|page| - 1], since, known);
      assert forall x <- page[..|page| - 1] :: x.id != page[|page| - 1].id;
      assert forall c :: c in page <==> c in page[..|page| - 1] || c == page[|page| - 1];
    }
  }

  lemma {:induction false} AppliedAt(rows: Store, cs: seq<Config>, id: Id)
    requires DistinctConfigs(cs)
    ensures (forall c <- cs :: c.id != id) ==> At(Applied(rows, cs), id) == At(rows, id)
    ensures forall c <- cs :: c.id == id ==> At(Applied(rows, cs), id) == Some(Row(rows, c))
  {
    if cs == [] {
    } else {
      var n := |cs| - 1;
      AppliedAt(rows, cs[..n], id);
      assert forall c :: c in cs <==> c in cs[..n] || c == cs[n];
    }
  }

  // What a pull leaves at `id`, from the page the server looked at.
  lemma PulledAt(rows: Store, page: seq<Config>, since: int, known: Option<map<Id, string>>, id: Id)
    requires DistinctConfigs(page)
    ensures forall c <- page :: c.id == id ==>
                                  At(Pulled(rows, page, since, known), id) ==
                                  if Carries(c, since, known) then Some(Row(rows, c)) else At(rows, id)
    ensures (forall c <- page :: c.id != id) ==> At(Pulled(rows, page, since, known), id) == At(rows, id)
  {
    AnswerContents(page, since, known);
    AppliedAt(rows, Answer(page, since, known), id);
    forall c | c in page && c.id == id
      ensures At(Pulled(rows, page, since, known), id) ==
              if Carries(c, since, known) then Some(Row(rows, c)) else At(rows, id)
    {
      if !Carries(c, since, known) {
        forall x | x in Answer(page, since, known)
          ensures x.id != id
        {
          OneConfigPerId(page, x, c);
        }
      }
    }
  }

  lemma OneConfigPerId(page: seq<Config>, a: Config, b: Config)
    requires DistinctConfigs(page) && a in page && b in page
    ensures a.id == b.id ==> a == b
  {
  }

  // A configuration the checksums let the server skip although the replica's row differs
  // from it outside the hash.
  predicate SkippedDifference(rows: Store, c: Config, since: int) {
    && c.updatedAt > since
    && c.id in rows && rows[c.id].active && rows[c.id].hash == c.hash
    && rows[c.id] != Row(rows, c)
  }

  // The filtered answer refines the plain one: the same hash at every id. The rows
  // themselves differ exactly where a difference outside the hash was skipped.
  lemma FilteredPullRefinesPlain(rows: Store, page: seq<Config>, since: int, id: Id)
    requires DistinctConfigs(page)
    ensures var filtered := Pulled(rows, page, since, Some(KnownHashes(rows)));
            var plain := Pulled(rows, page, since, None);
            && HashAt(filtered, id) == HashAt(plain, id)
            && (At(filtered, id) != At(plain, id) <==>
                exists c <- page :: c.id == id && SkippedDifference(rows, c, since))
  {
    PulledAt(rows, page, since, Some(KnownHashes(rows)), id);
    PulledAt(rows, page, since, None, id);
    if c :| c in page && c.id == id {
      forall x | x in page && x.id == id
        ensures x == c
      {
        OneConfigPerId(page, x, c);
      }
    }
  }

  // The replica holds the central hash of every central configuration.
  predicate Matches(rows: Store, store: Store) {
    forall id <- store :: HashAt(rows, id) == Some(store[id].hash)
  }

  ghost predicate PageOf(page: seq<Config>, store: Store) {
    DistinctConfigs(page) && forall c <- page :: At(store, c.id) == Some(c)
  }

  // One round converges exactly when every central configuration outside the page, or not
  // modified since, was already matched.
  lemma PullConvergesExactly(rows: Store, store: Store, page: seq<Config>, since: int)
    requires PageOf(page, store) && Keyed(store)
    ensures Matches(Pulled(rows, page, since, Some(KnownHashes(rows))), store) <==>
            forall id <- store :: (store[id] in page && store[id].updatedAt > since)
                                  || HashAt(rows, id) == Some(store[id].hash)
  {
    var after := Pulled(rows, page, since, Some(KnownHashes(rows)));
    forall id | id in store
      ensures HashAt(after, id) == Some(store[id].hash) <==>
              (store[id] in page && store[id].updatedAt > since) || HashAt(rows, id) == Some(store[id].hash)
    {
      PulledAt(rows, page, since, Some(KnownHashes(rows)), id);
      if store[id] !in page {
        assert forall c <- page :: c.id != id;
      }
    }
  }

  lemma NoMoreThanStored(all: seq<Config>, store: Store, matches: Config -> bool)
    requires Lists(all, store, store.Keys, matches)
    ensures |all| <= |store|
  {
    DistinctCount(all);
    assert ListedIds(all) <= store.Keys;
    CardinalityMonotone(ListedIds(all), store.Keys);
    assert |store.Keys| == |store|;
  }

  lemma WindowOfListing(all: seq<Config>, store: Store, page: seq<Config>)
    requires Lists(all, store, store.Keys, DEFAULT_FILTER.matches) && page == Window(all, 0, 20)
    ensures PageOf(page, store) && |page| <= 20
  {
    assert forall c <- page :: c in all;
  }

  lemma SmallWindowIsAll(all: seq<Config>, store: Store, page: seq<Config>)
    requires Lists(all, store, store.Keys, DEFAULT_FILTER.matches) && page == Window(all, 0, 20)
    requires |store| <= 20
    ensures forall id <- store :: store[id] in page
  {
    NoMoreThanStored(all, store, DEFAULT_FILTER.matches);
    assert page == all;
  }

  lemma DefaultListing(page: seq<Config>, store: Store)
    requires Keyed(store) && Listing(page, store, DEFAULT_FILTER)
    ensures PageOf(page, store)
    ensures |store| <= 20 ==> forall id <- store :: store[id] in page
    ensures |page| <= 20
  {
    var all: seq<Config> :| Lists(all, store, store.Keys, DEFAULT_FILTER.matches) && page == Window(all, 0, 20);
    WindowOfListing(all, store, page);
    if |store| <= 20 {
      SmallWindowIsAll(all, store, page);
    }
  }

  lemma EitherPageGivesTheHashes(rows: Store, store: Store, page: seq<Config>, other: seq<Config>, since: int, id: Id)
    requires Keyed(store) && PageOf(page, store) && PageOf(other, store)
    requires forall id <- store :: store[id] in page && store[id] in other
    ensures HashAt(Pulled(rows, page, since, Some(KnownHashes(rows))), id) ==
            HashAt(Pulled(rows, other, since, None), id)
  {
    FilteredPullRefinesPlain(rows, page, since, id);
    PlainPullIgnoresOrder(rows, store, page, other, since, id);
  }

  // With at most 20 central configurations, whichever order ties come in: both answers
  // leave the same hashes, and a replica that was behind only on what was modified after
  // `since` has caught up.
  lemma SmallStorePullsConverge(rows: Store, store: Store, page: seq<Config>, other: seq<Config>, since: int)
    requires Keyed(store) && |store| <= 20
    requires Listing(page, store, DEFAULT_FILTER) && Listing(other, store, DEFAULT_FILTER)
    ensures var filtered := Pulled(rows, page, since, Some(KnownHashes(rows)));
            var plain := Pulled(rows, other, since, None);
            && (forall id :: HashAt(filtered, id) == HashAt(plain, id))
            && ((forall id <- store :: store[id].updatedAt <= since ==> HashAt(rows, id) == Some(store[id].hash)) ==>
                  Matches(filtered, store))
  {
    DefaultListing(page, store);
    DefaultListing(other, store);
    PullConvergesExactly(rows, store, page, since);
    forall id
      ensures HashAt(Pulled(rows, page, since, Some(KnownHashes(rows))), id) ==
              HashAt(Pulled(rows, other, since, None), id)
    {
      EitherPageGivesTheHashes(rows, store, page, other, since, id);
    }
  }

  lemma PlainPullIgnoresOrder(
    rows: Store, store: Store, page: seq<Config>, other: seq<Config>, since: int, id: Id)
    requires Keyed(store) && PageOf(page, store) && PageOf(other, store)
    requires forall id <- store :: store[id] in page && store[id] in other
    ensures At(Pulled(rows, page, since, None), id) == At(Pulled(rows, other, since, None), id)
  {
    PulledAt(rows, page, since, None, id);
    PulledAt(rows, other, since, None, id);
    if id in store {
      assert store[id].id == id;
    }
  }

  // No pull removes a row: ids the centre has deleted stay on the replica.
  lemma PullKeepsForeignRows(
    rows: Store, store: Store, page: seq<Config>, since: int, known: Option<map<Id, string>>, id: Id)
    requires PageOf(page, store) && id !in store
    ensures At(Pulled(rows, page, since, known), id) == At(rows, id)
  {
    PulledAt(rows, page, since, known, id);
    assert forall c <- page :: c.id != id;
  }

  lemma FilteredHashAt(rows: Store, page: seq<Config>, since: int, id: Id)
    requires DistinctConfigs(page)
    ensures var after := Pulled(rows, page, since, Some(KnownHashes(rows)));
            && (forall c <- page :: c.id == id ==>
                  HashAt(after, id) == if c.updatedAt > since then Some(c.hash) else HashAt(rows, id))
            && ((forall c <- page :: c.id != id) ==> HashAt(after, id) == HashAt(rows, id))
  {
    PulledAt(rows, page, since, Some(KnownHashes(rows)), id);
  }

  // A prefix of the answer can only have brought `id` to the hash the page holds for it.
  lemma PrefixHashAt(rows: Store, page: seq<Config>, since: int, known: Option<map<Id, string>>, k: nat, c: Config)
    requires DistinctConfigs(page) && c in page && k <= |Answer(page, since, known)|
    ensures var cut := Applied(rows, Answer(page, since, known)[..k]);
            HashAt(cut, c.id) == HashAt(rows, c.id) || (c.updatedAt > since && HashAt(cut, c.id) == Some(c.hash))
  {
    var prefix := Answer(page, since, known)[..k];
    AnswerContents(page, since, known);
    AppliedAt(rows, prefix, c.id);
    forall x | x in prefix && x.id == c.id
      ensures x == c && c.updatedAt > since
    {
      OneConfigPerId(page, x, c);
    }
  }

  // A pull cut short after `k` rows and then repeated, with the hashes the replica has by
  // then, ends with the hashes of an uninterrupted one.
  lemma RetryAbsorbsInterruption(rows: Store, page: seq<Config>, since: int, k: nat, id: Id)
    requires DistinctConfigs(page) && k <= |Answer(page, since, Some(KnownHashes(rows)))|
    ensures var answer := Answer(page, since, Some(KnownHashes(rows)));
            var cut := Applied(rows, answer[..k]);
            HashAt(Pulled(cut, page, since, Some(KnownHashes(cut))), id) == HashAt(Applied(rows, answer), id)
  {
    var answer := Answer(page, since, Some(KnownHashes(rows)));
    FilteredHashAt(Applied(rows, answer[..k]), page, since, id);
    FilteredHashAt(rows, page, since, id);
    if c :| c in page && c.id == id {
      PrefixHashAt(rows, page, since, Some(KnownHashes(rows)), k, c);
    } else {
      AnswerContents(page, since, Some(KnownHashes(rows)));
      AppliedAt(rows, answer[..k], id);
    }
  }

  lemma PageSize(page: seq<Config>, store: Store)
    requires Keyed(store) && PageOf(page, store)
    ensures (forall id <- store :: store[id] in page) ==> |store| <= |page|
  {
    DistinctCount(page);
    if forall id <- store :: store[id] in page {
      forall id | id in store.Keys
        ensures id in ListedIds(page)
      {
        assert store[id] in page && store[id].id == id;
      }
      CardinalityMonotone(store.Keys, ListedIds(page));
    }
  }

  // Beyond the default page of 20 a first pull always leaves something behind.
  lemma FirstPullConvergesExactly(store: Store, page: seq<Config>, since: int)
    requires Keyed(store) && Listing(page, store, DEFAULT_FILTER)
    ensures Matches(Pulled(map[], page, since, Some(KnownHashes(map[]))), store) <==>
            |store| <= 20 && forall id <- store :: store[id].updatedAt > since
  {
    DefaultListing(page, store);
    PageSize(page, store);
    PullConvergesExactly(map[], store, page, since);
  }

  function IdSet(ids: seq<Id>): set<Id> {
    set id | id in ids
  }

  // The rows after the first `n` storage calls that a reply asks for: saves, then deletions.
  function Reached(rows: Store, configs: seq<Config>, deletedIds: seq<Id>, n: nat): Store
    requires n <= |configs| + |deletedIds|
  {
    if n <= |configs| then Applied(rows, configs[..n])
    else Applied(rows, configs) - IdSet(deletedIds[..n - |configs|])
  }

  // How many of `total` storage calls succeed when call `failAt` fails.
  function Succeeding(total: nat, failAt: Option<nat>): (n: nat)
    ensures n <= total
  {
    if failAt.Some? && failAt.value < total then failAt.value else total
  }

  // The rows a reply leaves.
  function Left(rows: Store, reply: Reply, failAt: Option<nat>): Store {
    if reply.Body? then
      Reached(rows, reply.configs, reply.deletedIds, Succeeding(|reply.configs| + |reply.deletedIds|, failAt))
    else rows
  }

  // A row brought by `c`: every field but the creation time, which an existing row keeps.
  predicate Brought(before: Store, row: Config, c: Config) {
    row == c.(createdAt := if c.id in before then before[c.id].createdAt else c.createdAt)
  }

  // The rows once `saved` have been saved and `deletedIds` deleted.
  ghost predicate Synchronised(before: Store, after: Store, saved: seq<Config>, deletedIds: seq<Id>) {
    && (forall id <- deletedIds :: id !in after)
    && (forall c <- saved :: c.id !in deletedIds ==> c.id in after && Brought(before, after[c.id], c))
    && (forall id :: id !in deletedIds && (forall c <- saved :: c.id != id) ==> At(after, id) == At(before, id))
  }

  lemma ReachedExactly(rows: Store, configs: seq<Config>, deletedIds: seq<Id>, n: nat)
    requires DistinctConfigs(configs) && n <= |configs| + |deletedIds|
    ensures var saves := if n <= |configs| then n else |configs|;
            Synchronised(rows, Reached(rows, configs, deletedIds, n), configs[..saves], deletedIds[..n - saves])
  {
    var saves := if n <= |configs| then n else |configs|;
    var saved, gone := configs[..saves], deletedIds[..n - saves];
    assert saves == |configs| ==> saved == configs;
    assert Reached(rows, configs, deletedIds, n) == Applied(rows, saved) - IdSet(gone);
    AppliedExactly(rows, saved);
    forall c | c in saved && c.id !in gone
      ensures c.id in Reached(rows, configs, deletedIds, n)
      ensures Brought(rows, Reached(rows, configs, deletedIds, n)[c.id], c)
    {
      assert c.id in Applied(rows, saved);
    }
    forall id | id !in gone && forall c <- saved :: c.id != id
      ensures At(Reached(rows, configs, deletedIds, n), id) == At(rows, id)
    {
      assert At(Applied(rows, saved), id) == At(rows, id);
    }
  }

  lemma AppliedExactly(rows: Store, saved: seq<Config>)
    requires DistinctConfigs(saved)
    ensures Synchronised(rows, Applied(rows, saved), saved, [])
  {
    forall c | c in saved
      ensures c.id in Applied(rows, saved) && Brought(rows, Applied(rows, saved)[c.id], c)
    {
      AppliedAt(rows, saved, c.id);
    }
    forall id | forall c <- saved :: c.id != id
      ensures At(Applied(rows, saved), id) == At(rows, id)
    {
      AppliedAt(rows, saved, id);
    }
  }

  // What a reply with one configuration per id leaves of the rows: all of it, the part before
  // the failing storage call, or nothing when there is no reply.
  ghost predicate Pulls(before: Store, after: Store, reply: Reply, failAt: Option<nat>) {
    if !reply.Body? then after == before
    else if !DistinctConfigs(reply.configs) then true
    else
      var total := |reply.configs| + |reply.deletedIds|;
      var n := if failAt.Some? && failAt.value < total then failAt.value else total;
      var saves := if n <= |reply.configs| then n else |reply.configs|;
      Synchronised(before, after, reply.configs[..saves], reply.deletedIds[..n - saves])
  }

  lemma PullsExactly(rows: Store, reply: Reply, failAt: Option<nat>)
    ensures Pulls(rows, Left(rows, reply, failAt), reply, failAt)
  {
    if reply.Body? && DistinctConfigs(reply.configs) {
      var n := Succeeding(|reply.configs| + |reply.deletedIds|, failAt);
      ReachedExactly(rows, reply.configs, reply.deletedIds, n);
      assert Left(rows, reply, failAt) == Reached(rows, reply.configs, reply.deletedIds, n);
    }
  }

  datatype SyncStatus = Connected | Disconnected | Syncing | Conflict

  datatype Reply = Unreachable | Refused | Body(configs: seq<Config>, deletedIds: seq<Id>)

  // The proxy's side. `failAt` numbers the storage call, if any, that fails while a reply
  // is applied.
  class SyncClient {
    var rows: Store
    var status: SyncStatus
    var lastSync: Option<int>

    constructor ()
      ensures rows == map[] && status == Disconnected && lastSync == None
    {
      rows, status, lastSync := map[], Disconnected, None;
    }

    method AllHashes() returns (known: map<Id, string>)
      ensures forall id :: id in known <==> id in rows && rows[id].active
      ensures forall id <- known :: known[id] == rows[id].hash
    {
      known := map id | id in rows && rows[id].active :: rows[id].hash;
    }

    method Save(c: Config)
      modifies this`rows
      ensures rows == Saved(old(rows), Row(old(rows), c))
      ensures c.id in rows && Brought(old(rows), rows[c.id], c)
      ensures forall id :: id != c.id ==> At(rows, id) == At(old(rows), id)
    {
      var createdAt := if c.id in rows then rows[c.id].createdAt else c.createdAt;
      rows := rows[c.id := c.(createdAt := createdAt)];
    }

    // Saves in order until a storage call fails.
    method ApplyConfigs(configs: seq<Config>, failAt: Option<nat>) returns (ok: bool)
      modifies this`rows
      ensures ok <==> failAt.None? || failAt.value >= |configs|
      ensures rows == Applied(old(rows), if ok then configs else configs[..failAt.value])
    {
      for i := 0 to |configs|
        invariant rows == Applied(old(rows), configs[..i])
        invariant failAt.Some? ==> i <= failAt.value
      {
        if failAt == Some(i) {
          return false;
        }
        Save(configs[i]);
        assert configs[..i + 1][..i] == configs[..i];
      }
      assert configs[..|configs|] == configs;
      return true;
    }

    method ApplyDeletions(ids: seq<Id>, failAt: Option<nat>) returns (ok: bool)
      modifies this`rows
      ensures ok <==> failAt.None? || failAt.value >= |ids|
      ensures rows == old(rows) - IdSet(if ok then ids else ids[..failAt.value])
    {
      for i := 0 to |ids|
        invariant rows == old(rows) - IdSet(ids[..i])
        invariant failAt.Some? ==> i <= failAt.value
      {
        if failAt == Some(i) {
          return false;
        }
        rows := rows - {ids[i]};
      }
      assert ids[..|ids|] == ids;
      return true;
    }

    // Only a reply applied in full moves the last-sync time on; a failure part-way leaves
    // a prefix applied and the old time, so the next pull asks again.
    method Pull(reply: Reply, failAt: Option<nat>, now: int) returns (ok: bool)
      modifies this`rows, this`lastSync
      ensures ok <==> reply.Body? && (failAt.None? || failAt.value >= |reply.configs| + |reply.deletedIds|)
      ensures rows == Left(old(rows), reply, failAt)
      ensures Pulls(old(rows), rows, reply, failAt)
      ensures lastSync == if ok then Some(now) else old(lastSync)
    {
      PullsExactly(rows, reply, failAt);
      if !reply.Body? {
        return false;
      }
      ok := ApplyConfigs(reply.configs, failAt);
      if !ok {
        return;
      }
      assert reply.configs[..|reply.configs|] == reply.configs;
      ok := ApplyDeletions(reply.deletedIds,
                           if failAt.None? then None else Some(failAt.value - |reply.configs|));
      if ok {
        lastSync := Some(now);
      }
      assert reply.deletedIds[..|reply.deletedIds|] == reply.deletedIds && reply.deletedIds[..0] == [];
    }

    // The periodic round also keeps the status; only a refusal by the centre, not a
    // failure here, leaves it Disconnected.
    method PerformPeriodicSync(reply: Reply, failAt: Option<nat>, now: int) returns (ok: bool)
      modifies this
      ensures ok <==> reply.Body? && (failAt.None? || failAt.value >= |reply.configs| + |reply.deletedIds|)
      ensures rows == Left(old(rows), reply, failAt)
      ensures Pulls(old(rows), rows, reply, failAt)
      ensures lastSync == if ok then Some(now) else old(lastSync)
      ensures status == if ok then Connected else if reply.Refused? then Disconnected else Syncing
    {
      status := Syncing;
      ok := Pull(reply, failAt, now);
      if reply.Refused? {
        status := Disconnected;
      }
      if ok {
        status := Connected;
      }
    }
  }
}
