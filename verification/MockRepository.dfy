// The reference store of mock configurations: listing, filtering and paging
// (mysticentral/src/services/repository.rs, mysti-common/src/models.rs).
module MockRepository {
  import opened Basics
  import opened VersionVectors
  import opened PushProtocol

  // `matches` stands for the environment, team, path and method conditions.
  datatype Filter = Filter(matches: Config -> bool, page: Option<U32>, limit: Option<U32>, offset: Option<U32>) {
    function Page(): (p: U32)
      ensures page.Some? && page.value >= 1 ==> p == page.value
      ensures page.None? || page.value == 0 ==> p == 1
    {
      if page.None? || page.value == 0 then 1 else page.value
    }

    function Limit(): (l: U32)
      ensures 1 <= l <= 100
      ensures limit.None? ==> l == 20
      ensures limit.Some? && 1 <= limit.value <= 100 ==> l == limit.value
      ensures limit.Some? ==> (l == 1 <==> limit.value <= 1) && (l == 100 <==> limit.value >= 100)
    {
      if limit.None? then 20 else if limit.value == 0 then 1 else if limit.value > 100 then 100 else limit.value
    }

    // Unsigned multiplication wraps.
    function Offset(): (o: U32)
      ensures offset.Some? ==> o == offset.value
    {
      if offset.Some? then offset.value else (Page() - 1) * Limit() % U32_RANGE
    }
  }

  // Where a page starts: at the requested offset; without one, behind the pages before it, the
  // first page for no or a zero page number, as long as that fits 32 bits.
  lemma OffsetExactly(f: Filter)
    ensures f.offset.Some? ==> f.Offset() == f.offset.value
    ensures f.offset.None? && (f.page.None? || f.page.value <= 1) ==> f.Offset() == 0
    ensures f.offset.None? && f.page.Some? && f.page.value > 1 && (f.page.value - 1) * f.Limit() < U32_RANGE ==>
              f.Offset() == (f.page.value - 1) * f.Limit()
  {
    if f.offset.None? && f.page.Some? && f.page.value > 1 {
      assert f.Page() - 1 == f.page.value - 1;
    }
  }

  const DEFAULT_FILTER := Filter(_ => true, None, None, None)

  function Window<T>(all: seq<T>, offset: nat, limit: nat): seq<T> {
    if offset >= |all| then [] else if offset + limit >= |all| then all[offset..] else all[offset..offset + limit]
  }

  // A window holds what stands at the offset and after it, up to the limit or the end.
  lemma WindowExactly<T>(all: seq<T>, offset: nat, limit: nat)
    ensures var w := Window(all, offset, limit);
            && |w| <= limit && (|w| < limit ==> offset + |w| >= |all|) && (w != [] ==> offset + |w| <= |all|)
            && forall i :: 0 <= i < |w| ==> w[i] == all[offset + i]
  {
  }

  // Newest first; configurations created at the same time may come in either order.
  ghost predicate NewestFirst(s: seq<Config>) {
    forall i, j :: 0 <= i < j < |s| ==> s[i].createdAt >= s[j].createdAt
  }

  ghost predicate DistinctConfigs(s: seq<Config>) {
    forall i, j :: 0 <= i < j < |s| ==> s[i].id != s[j].id
  }

  // `s` lists the matching configurations stored under `ids`, each once, newest first.
  ghost predicate Lists(s: seq<Config>, store: Store, ids: set<Id>, matches: Config -> bool) {
    && NewestFirst(s)
    && DistinctConfigs(s)
    && (forall c <- s :: c.id in ids && At(store, c.id) == Some(c) && matches(c))
    && (forall id <- ids :: id in store && matches(store[id]) ==> store[id] in s)
  }

  // What `find_all` may return.
  ghost predicate Listing(result: seq<Config>, store: Store, f: Filter) {
    exists all: seq<Config> :: Lists(all, store, store.Keys, f.matches) && result == Window(all, f.Offset(), f.Limit())
  }

  // A page is newest first too, and shows nothing twice.
  lemma PageShape(page: seq<Config>, store: Store, f: Filter)
    requires Listing(page, store, f)
    ensures NewestFirst(page) && DistinctConfigs(page)
  {
  }

  function Older(s: seq<Config>, c: Config): (i: nat)
    ensures i <= |s|
    ensures forall j :: 0 <= j < i ==> s[j].createdAt >= c.createdAt
    ensures i < |s| ==> s[i].createdAt < c.createdAt
  {
    if s == [] || s[0].createdAt < c.createdAt then 0 else 1 + Older(s[1..], c)
  }

  function Inserted(s: seq<Config>, c: Config): seq<Config> {
    s[..Older(s, c)] + [c] + s[Older(s, c)..]
  }

  lemma InsertedAt(s: seq<Config>, c: Config)
    ensures var t, k := Inserted(s, c), Older(s, c);
            && |t| == |s| + 1 && t[k] == c
            && (forall i :: 0 <= i < k ==> t[i] == s[i])
            && (forall i :: k < i < |t| ==> t[i] == s[i - 1])
            && (forall x :: x in t <==> x == c || x in s)
  {
    InsertedMembers(s, c);
  }

  lemma InsertedMembers(s: seq<Config>, c: Config)
    ensures forall x :: x in Inserted(s, c) <==> x == c || x in s
  {
    var k := Older(s, c);
    assert multiset(Inserted(s, c)) == multiset(s[..k]) + multiset{c} + multiset(s[k..]);
    assert s == s[..k] + s[k..];
    forall x
      ensures x in Inserted(s, c) <==> x == c || x in s
    {
      assert x in Inserted(s, c) <==> x in multiset(Inserted(s, c));
      assert x in s <==> x in multiset(s);
    }
  }

  lemma InsertedNewestFirst(s: seq<Config>, c: Config)
    requires NewestFirst(s)
    ensures NewestFirst(Inserted(s, c))
  {
    InsertedAt(s, c);
  }

  lemma InsertedDistinct(s: seq<Config>, c: Config)
    requires DistinctConfigs(s) && forall x <- s :: x.id != c.id
    ensures DistinctConfigs(Inserted(s, c))
  {
    InsertedAt(s, c);
  }

  lemma InsertedLists(s: seq<Config>, store: Store, ids: set<Id>, matches: Config -> bool, id: Id)
    requires Keyed(store) && id in store && id !in ids && Lists(s, store, ids, matches) && matches(store[id])
    ensures Lists(Inserted(s, store[id]), store, ids + {id}, matches)
  {
    InsertedNewestFirst(s, store[id]);
    InsertedDistinct(s, store[id]);
    InsertedAt(s, store[id]);
  }

  function Collected(s: seq<Config>, c: Config, matches: Config -> bool): seq<Config> {
    if matches(c) then Inserted(s, c) else s
  }

  lemma CollectedLists(s: seq<Config>, store: Store, pending: set<Id>, matches: Config -> bool, id: Id)
    requires Keyed(store) && id in pending && pending <= store.Keys && Lists(s, store, store.Keys - pending, matches)
    ensures Lists(Collected(s, store[id], matches), store, store.Keys - (pending - {id}), matches)
  {
    assert store.Keys - (pending - {id}) == store.Keys - pending + {id};
    if matches(store[id]) {
      InsertedLists(s, store, store.Keys - pending, matches, id);
    }
  }

  class InMemoryMockRepository {
    var configs: Store

    constructor ()
      ensures configs == map[]
    {
      configs := map[];
    }

    method FindById(id: Id) returns (r: Option<Config>)
      ensures r == At(configs, id)
    {
      r := if id in configs then Some(configs[id]) else None;
    }

    method Save(config: Config)
      modifies this
      ensures configs == old(configs)[config.id := config]
    {
      configs := configs[config.id := config];
    }

    method Delete(id: Id) returns (found: bool)
      modifies this
      ensures configs == old(configs) - {id}
      ensures found <==> id in old(configs)
    {
      found := id in configs;
      configs := configs - {id};
    }

    // Collects the matching values in whatever order the map yields them, sorts them
    // by creation time, and cuts the window.
    method FindAll(f: Filter) returns (r: seq<Config>)
      requires Keyed(configs)
      ensures Listing(r, configs, f)
    {
      var sorted: seq<Config> := [];
      var pending := configs.Keys;
      while exists id :: id in pending
        invariant pending <= configs.Keys
        invariant Lists(sorted, configs, configs.Keys - pending, f.matches)
        decreases |pending|
      {
        var id :| id in pending;
        CollectedLists(sorted, configs, pending, f.matches, id);
        if f.matches(configs[id]) {
          sorted := Inserted(sorted, configs[id]);
        }
        pending := pending - {id};
      }
      assert configs.Keys - pending == configs.Keys;
      r := Window(sorted, f.Offset(), f.Limit());
    }

    method CountMatching(f: Filter) returns (count: U32)
      requires Keyed(configs)
      ensures exists all: seq<Config> :: Lists(all, configs, configs.Keys, f.matches) && count == |all| % 0x1_0000_0000
    {
      var n: nat := 0;
      ghost var all: seq<Config> := [];
      var pending := configs.Keys;
      while exists id :: id in pending
        invariant pending <= configs.Keys
        invariant Lists(all, configs, configs.Keys - pending, f.matches) && n == |all|
        decreases |pending|
      {
        var id :| id in pending;
        CollectedLists(all, configs, pending, f.matches, id);
        if f.matches(configs[id]) {
          all := Inserted(all, configs[id]);
          n := n + 1;
        }
        pending := pending - {id};
      }
      assert configs.Keys - pending == configs.Keys;
      count := n % U32_RANGE;
    }
  }

  ghost predicate DistinctTimes(store: Store, matches: Config -> bool) {
    forall a, b :: a in store && b in store && a != b && matches(store[a]) && matches(store[b]) ==>
                     store[a].createdAt != store[b].createdAt
  }

  function ListedIds(s: seq<Config>): set<Id> {
    set c <- s :: c.id
  }

  lemma ListsHaveOneLength(s: seq<Config>, t: seq<Config>, store: Store, matches: Config -> bool)
    requires Lists(s, store, store.Keys, matches) && Lists(t, store, store.Keys, matches)
    ensures |s| <= |t|
  {
    assert ListedIds(s) <= ListedIds(t);
    DistinctCount(s);
    DistinctCount(t);
    CardinalityMonotone(ListedIds(s), ListedIds(t));
  }

  lemma CardinalityMonotone(a: set<Id>, b: set<Id>)
    requires a <= b
    ensures |a| <= |b|
  {
    assert b == a + (b - a);
  }

  lemma {:induction false} DistinctCount(s: seq<Config>)
    requires DistinctConfigs(s)
    ensures |ListedIds(s)| == |s|
  {
    if s == [] {
    } else {
      var last, front := s[|s| - 1], s[..|s| - 1];
      DistinctCount(front);
      assert s == front + [last];
      assert ListedIds(s) == ListedIds(front) + {last.id};
    }
  }

  lemma {:induction false} SameDescending(s: seq<Config>, t: seq<Config>)
    requires |s| == |t|
    requires forall i, j :: 0 <= i < j < |s| ==> s[i].createdAt > s[j].createdAt
    requires forall i, j :: 0 <= i < j < |t| ==> t[i].createdAt > t[j].createdAt
    requires forall c :: c in s <==> c in t
    ensures s == t
  {
    if s == [] {
    } else {
      assert s[0] in t && t[0] in s;
      assert s[0] == t[0];
      forall c
        ensures c in s[1..] <==> c in t[1..]
      {
        assert c in s <==> c == s[0] || c in s[1..];
        assert c in t <==> c == t[0] || c in t[1..];
      }
      SameDescending(s[1..], t[1..]);
    }
  }

  // With distinct creation times `find_all` has one possible order.
  lemma ListingIsUnique(s: seq<Config>, t: seq<Config>, store: Store, matches: Config -> bool)
    requires DistinctTimes(store, matches)
    requires Lists(s, store, store.Keys, matches) && Lists(t, store, store.Keys, matches)
    ensures s == t
  {
    StrictlyDescending(s, store, matches);
    StrictlyDescending(t, store, matches);
    ListsHaveOneLength(s, t, store, matches);
    ListsHaveOneLength(t, s, store, matches);
    SameDescending(s, t);
  }

  lemma StrictlyDescending(s: seq<Config>, store: Store, matches: Config -> bool)
    requires DistinctTimes(store, matches) && Lists(s, store, store.Keys, matches)
    ensures forall i, j :: 0 <= i < j < |s| ==> s[i].createdAt > s[j].createdAt
  {
    forall i, j | 0 <= i < j < |s|
      ensures s[i].createdAt > s[j].createdAt
    {
      assert s[i] in s && s[j] in s;
      assert store[s[i].id] == s[i] && store[s[j].id] == s[j];
    }
  }

  function Concatenated(pages: seq<seq<Config>>): seq<Config> {
    if pages == [] then [] else Concatenated(pages[..|pages| - 1]) + pages[|pages| - 1]
  }

  function Prefix<T>(all: seq<T>, n: nat): seq<T> {
    if n >= |all| then all else all[..n]
  }

  lemma WindowExtendsPrefix<T>(all: seq<T>, n: nat, limit: nat)
    ensures Prefix(all, n) + Window(all, n, limit) == Prefix(all, n + limit)
  {
  }

  function Start(k: nat, limit: nat): nat {
    if k == 0 then 0 else Start(k - 1, limit) + limit
  }

  lemma {:induction false} StartIsProduct(k: nat, limit: nat)
    ensures Start(k, limit) == k * limit
  {
    if k == 0 {
    } else {
      StartIsProduct(k - 1, limit);
      assert k * limit == (k - 1) * limit + limit;
    }
  }

  function PageCount(count: nat, limit: nat): nat
    requires limit > 0
  {
    (count + limit - 1) / limit
  }

  lemma PageCountBounds(count: nat, limit: nat)
    requires limit > 0
    ensures PageCount(count, limit) * limit >= count
    ensures PageCount(count, limit) > 0 ==> (PageCount(count, limit) - 1) * limit < count
    ensures PageCount(count, limit) <= count
  {
  }

  lemma PageInRange(k: nat, pages: nat, limit: nat, count: nat)
    requires k < pages && 0 < limit && (pages - 1) * limit < count < U32_RANGE
    ensures k * limit % U32_RANGE == k * limit && k + 1 < U32_RANGE
  {
    assert k * limit <= (pages - 1) * limit;
  }

  // What a client may get that asks for pages 1 to ceil(count / limit), one after another.
  ghost predicate Pages(pages: seq<seq<Config>>, store: Store, f: Filter, count: nat) {
    && |pages| == PageCount(count, f.Limit()) < U32_RANGE
    && forall k: U32 :: k < |pages| ==> Listing(pages[k], store, f.(page := Some(k + 1)))
  }

  lemma PageIsWindow(store: Store, f: Filter, page: seq<Config>, k: U32, count: nat) returns (all: seq<Config>)
    requires f.offset.None? && count < U32_RANGE && k < PageCount(count, f.Limit())
    requires Listing(page, store, f.(page := Some(k + 1)))
    ensures Lists(all, store, store.Keys, f.matches) && page == Window(all, Start(k, f.Limit()), f.Limit())
  {
    var g := f.(page := Some(k + 1));
    PageCountBounds(count, f.Limit());
    PageInRange(k, PageCount(count, f.Limit()), f.Limit(), count);
    StartIsProduct(k, f.Limit());
    all :| Lists(all, store, store.Keys, g.matches) && page == Window(all, g.Offset(), g.Limit());
  }

  // Any two listings agree on the creation time at each position.
  lemma SameTimes(s: seq<Config>, t: seq<Config>, store: Store, matches: Config -> bool, i: nat)
    requires Lists(s, store, store.Keys, matches) && Lists(t, store, store.Keys, matches)
    requires i < |s| && i < |t|
    ensures s[i].createdAt >= t[i].createdAt
  {
    if s[i].createdAt < t[i].createdAt {
      var early, late := s[..i], t[..i + 1];
      forall c | c in late
        ensures c in early
      {
        assert c.createdAt >= t[i].createdAt && c in t && c in s;
        var j :| 0 <= j < |s| && s[j] == c;
        assert j < i;
      }
      assert ListedIds(late) <= ListedIds(early);
      DistinctCount(early);
      DistinctCount(late);
      CardinalityMonotone(ListedIds(late), ListedIds(early));
    }
  }

  ghost predicate StrictAt(s: seq<Config>, b: nat) {
    0 < b < |s| ==> s[b - 1].createdAt > s[b].createdAt
  }

  lemma StrictInAll(s: seq<Config>, t: seq<Config>, store: Store, matches: Config -> bool, b: nat)
    requires Lists(s, store, store.Keys, matches) && Lists(t, store, store.Keys, matches) && |s| == |t|
    requires StrictAt(s, b)
    ensures StrictAt(t, b)
    ensures b < |s| ==> s[b].createdAt == t[b].createdAt
  {
    if b < |s| {
      SameTimes(s, t, store, matches, b);
      SameTimes(t, s, store, matches, b);
      if b > 0 {
        SameTimes(t, s, store, matches, b - 1);
      }
    }
  }

  lemma SpliceOrdered(s: seq<Config>, t: seq<Config>, cut: int)
    requires NewestFirst(s) && NewestFirst(t) && DistinctConfigs(s) && DistinctConfigs(t)
    requires (forall c <- s :: c.createdAt > cut) && (forall c <- t :: c.createdAt <= cut)
    requires forall c <- s, d <- t :: c.id == d.id ==> c == d
    ensures NewestFirst(s + t) && DistinctConfigs(s + t)
  {
    var u := s + t;
    forall i, j | 0 <= i < j < |u|
      ensures u[i].createdAt >= u[j].createdAt && u[i].id != u[j].id
    {
      if i < |s| <= j {
        assert u[i] in s && u[j] in t;
      }
    }
  }

  lemma SpliceCovers(s: seq<Config>, t: seq<Config>, b: nat, c: Config)
    requires NewestFirst(t) && c in s && c in t && b < |s| == |t|
    requires b > 0 ==> t[b - 1].createdAt > t[b].createdAt
    requires (forall x <- s[b..] :: x.createdAt <= t[b].createdAt)
    ensures c in s[..b] + t[b..]
  {
    if c.createdAt > t[b].createdAt {
      assert c !in s[b..];
      assert s == s[..b] + s[b..];
    } else {
      assert forall x <- t[..b] :: x.createdAt >= t[b - 1].createdAt;
      assert t == t[..b] + t[b..];
    }
  }

  function Spliced(s: seq<Config>, t: seq<Config>, b: nat): seq<Config>
    requires b <= |s| && b <= |t|
  {
    s[..b] + t[b..]
  }

  // Where no tie straddles the cut, the start of one listing and the rest of another are a listing.
  lemma Splice(s: seq<Config>, t: seq<Config>, store: Store, matches: Config -> bool, b: nat)
    requires Lists(s, store, store.Keys, matches) && Lists(t, store, store.Keys, matches) && |s| == |t|
    requires StrictAt(s, b) && b < |s|
    ensures Lists(Spliced(s, t, b), store, store.Keys, matches)
  {
    StrictInAll(s, t, store, matches, b);
    CutAt(s, b);
    CutAt(t, b);
    SpliceOrdered(s[..b], t[b..], s[b].createdAt);
    forall id <- store.Keys | matches(store[id])
      ensures store[id] in s[..b] + t[b..]
    {
      SpliceCovers(s, t, b, store[id]);
    }
  }

  lemma CutAt(s: seq<Config>, b: nat)
    requires NewestFirst(s) && DistinctConfigs(s) && b < |s| && StrictAt(s, b)
    ensures NewestFirst(s[..b]) && DistinctConfigs(s[..b]) && NewestFirst(s[b..]) && DistinctConfigs(s[b..])
    ensures forall c <- s[..b] :: c in s && c.createdAt > s[b].createdAt
    ensures forall c <- s[b..] :: c in s && c.createdAt <= s[b].createdAt
  {
  }

  lemma SplicedPages(s: seq<Config>, t: seq<Config>, b: nat, limit: nat)
    requires b <= |s| == |t|
    ensures Prefix(s, b) + Window(t, b, limit) == Prefix(Spliced(s, t, b), b + limit)
  {
  }

  // The boundaries between pages separate creation times: no tie straddles one.
  ghost predicate NoTieStraddles(all: seq<Config>, limit: nat) {
    forall k: nat :: StrictAt(all, Start(k, limit))
  }

  lemma PageSpliced(
    pages: seq<seq<Config>>, store: Store, matches: Config -> bool, s: seq<Config>, t: seq<Config>, k: nat, limit: nat)
    requires Lists(s, store, store.Keys, matches) && Lists(t, store, store.Keys, matches) && |s| == |t|
    requires Start(k, limit) < |s| && StrictAt(s, Start(k, limit)) && k < |pages|
    requires Concatenated(pages[..k]) == Prefix(s, Start(k, limit)) && pages[k] == Window(t, Start(k, limit), limit)
    ensures var now := Spliced(s, t, Start(k, limit));
            && Lists(now, store, store.Keys, matches)
            && Concatenated(pages[..k + 1]) == Prefix(now, Start(k + 1, limit))
  {
    Splice(s, t, store, matches, Start(k, limit));
    SplicedPages(s, t, Start(k, limit), limit);
    OnePageMore(pages, k);
  }

  lemma {:induction false} PagesSplice(
    pages: seq<seq<Config>>, store: Store, f: Filter, all: seq<Config>, n: nat) returns (now: seq<Config>)
    requires f.offset.None? && Lists(all, store, store.Keys, f.matches) && |all| < U32_RANGE
    requires Pages(pages, store, f, |all|) && n <= |pages| && NoTieStraddles(all, f.Limit())
    ensures Lists(now, store, store.Keys, f.matches)
    ensures Concatenated(pages[..n]) == Prefix(now, Start(n, f.Limit()))
    decreases n
  {
    if n == 0 {
      now := all;
    } else {
      var k, limit := n - 1, f.Limit();
      var b := Start(k, limit);
      var before := PagesSplice(pages, store, f, all, k);
      var other := PageIsWindow(store, f, pages[k], k, |all|);
      SameLengths(all, before, store, f.matches);
      SameLengths(all, other, store, f.matches);
      PageStarts(k, |all|, limit);
      StrictInAll(all, before, store, f.matches, b);
      PageSpliced(pages, store, f.matches, before, other, k, limit);
      now := Spliced(before, other, b);
    }
  }

  lemma OnePageMore(pages: seq<seq<Config>>, k: nat)
    requires k < |pages|
    ensures Concatenated(pages[..k + 1]) == Concatenated(pages[..k]) + pages[k]
  {
    assert pages[..k + 1][..k] == pages[..k];
  }

  lemma ProductsOrdered(a: nat, b: nat, c: nat)
    requires a <= b
    ensures a * c <= b * c
  {
  }

  lemma PageStarts(k: nat, count: nat, limit: nat)
    requires limit > 0 && k < PageCount(count, limit)
    ensures Start(k, limit) < count
  {
    PageCountBounds(count, limit);
    StartIsProduct(k, limit);
    ProductsOrdered(k, PageCount(count, limit) - 1, limit);
  }

  lemma SameLengths(s: seq<Config>, t: seq<Config>, store: Store, matches: Config -> bool)
    requires Lists(s, store, store.Keys, matches) && Lists(t, store, store.Keys, matches)
    ensures |s| == |t|
  {
    ListsHaveOneLength(s, t, store, matches);
    ListsHaveOneLength(t, s, store, matches);
  }

  lemma PagesList(pages: seq<seq<Config>>, store: Store, f: Filter, all: seq<Config>)
    requires f.offset.None? && Lists(all, store, store.Keys, f.matches) && |all| < U32_RANGE
    requires Pages(pages, store, f, |all|) && NoTieStraddles(all, f.Limit())
    ensures Lists(Concatenated(pages), store, store.Keys, f.matches)
  {
    var now := PagesSplice(pages, store, f, all, |pages|);
    SameLengths(all, now, store, f.matches);
    StartIsProduct(|pages|, f.Limit());
    PageCountBounds(|all|, f.Limit());
    assert pages[..|pages|] == pages;
  }

  // Pages 1 to ceil(count / limit) put together are the whole filtered listing: nothing
  // skipped, nothing twice. `all` is the listing, in its one order.
  lemma PagesTile(store: Store, f: Filter, all: seq<Config>, pages: seq<seq<Config>>)
    requires DistinctTimes(store, f.matches) && f.offset.None?
    requires Lists(all, store, store.Keys, f.matches) && |all| < U32_RANGE
    requires Pages(pages, store, f, |all|)
    ensures Concatenated(pages) == all
  {
    StrictlyDescending(all, store, f.matches);
    PagesList(pages, store, f, all);
    ListingIsUnique(all, Concatenated(pages), store, f.matches);
  }

  function Swapped(s: seq<Config>, b: nat): seq<Config>
    requires 0 < b < |s|
  {
    s[b - 1 := s[b]][b := s[b - 1]]
  }

  lemma SwappedLists(s: seq<Config>, store: Store, matches: Config -> bool, b: nat)
    requires Lists(s, store, store.Keys, matches) && 0 < b < |s| && !StrictAt(s, b)
    ensures Lists(Swapped(s, b), store, store.Keys, matches)
  {
    var t := Swapped(s, b);
    assert t[b - 1] == s[b] && t[b] == s[b - 1];
    SwappedMembers(s, b);
  }

  lemma SwappedMembers(s: seq<Config>, b: nat)
    requires 0 < b < |s|
    ensures forall c :: c in s <==> c in Swapped(s, b)
  {
    assert multiset(s) == multiset(Swapped(s, b));
    assert forall c :: c in s <==> c in multiset(s);
    assert forall c :: c in Swapped(s, b) <==> c in multiset(Swapped(s, b));
  }

  // The pages of two listings, changing over at page `k`.
  function Mixed(s: seq<Config>, t: seq<Config>, k: nat, limit: nat, n: nat): seq<seq<Config>> {
    seq(n, i requires 0 <= i < n => Window(if i < k then s else t, Start(i, limit), limit))
  }

  lemma MixedArePages(s: seq<Config>, t: seq<Config>, k: nat, store: Store, f: Filter)
    requires f.offset.None? && |s| < U32_RANGE
    requires Lists(s, store, store.Keys, f.matches) && Lists(t, store, store.Keys, f.matches)
    ensures Pages(Mixed(s, t, k, f.Limit(), PageCount(|s|, f.Limit())), store, f, |s|)
  {
    var limit, n := f.Limit(), PageCount(|s|, f.Limit());
    PageCountBounds(|s|, limit);
    forall i: U32 | i < n
      ensures Listing(Mixed(s, t, k, limit, n)[i], store, f.(page := Some(i + 1)))
    {
      PageInRange(i, n, limit, |s|);
      StartIsProduct(i, limit);
      assert f.(page := Some(i + 1)).Offset() == Start(i, limit);
    }
  }

  lemma MixedPage(s: seq<Config>, t: seq<Config>, k: nat, limit: nat, n: nat, i: nat)
    requires i < n
    ensures Mixed(s, t, k, limit, n)[i] == Window(if i < k then s else t, Start(i, limit), limit)
  {
  }

  lemma NoPages(pages: seq<seq<Config>>, s: seq<Config>, limit: nat)
    ensures Concatenated(pages[..0]) == Prefix(s, Start(0, limit))
  {
    assert pages[..0] == [] && Prefix(s, 0) == [];
  }

  lemma NextPage(pages: seq<seq<Config>>, s: seq<Config>, limit: nat, i: nat)
    requires i < |pages| && pages[i] == Window(s, Start(i, limit), limit)
    requires Concatenated(pages[..i]) == Prefix(s, Start(i, limit))
    ensures Concatenated(pages[..i + 1]) == Prefix(s, Start(i + 1, limit))
  {
    var b := Start(i, limit);
    calc {
      Concatenated(pages[..i + 1]);
      { OnePageMore(pages, i); }
      Concatenated(pages[..i]) + pages[i];
      Prefix(s, b) + Window(s, b, limit);
      { WindowExtendsPrefix(s, b, limit); }
      Prefix(s, b + limit);
    }
  }

  // Consecutive windows of one listing put together are its start.
  lemma {:induction false} WindowsTile(pages: seq<seq<Config>>, s: seq<Config>, limit: nat, i: nat)
    requires i <= |pages| && forall j :: 0 <= j < i ==> pages[j] == Window(s, Start(j, limit), limit)
    ensures Concatenated(pages[..i]) == Prefix(s, Start(i, limit))
    decreases i
  {
    if i == 0 {
      NoPages(pages, s, limit);
    } else {
      WindowsTile(pages, s, limit, i - 1);
      NextPage(pages, s, limit, i - 1);
    }
  }

  lemma {:induction false} ConcatenationGrows(pages: seq<seq<Config>>, i: nat)
    requires i <= |pages|
    ensures Concatenated(pages[..i]) <= Concatenated(pages)
  {
    if i == |pages| {
      assert pages[..i] == pages;
    } else {
      ConcatenationGrows(pages[..|pages| - 1], i);
      assert pages[..|pages| - 1][..i] == pages[..i];
    }
  }

  // A tie that straddles a boundary lets its newer neighbour show on both pages.
  lemma StraddlingTieRepeats(store: Store, f: Filter, all: seq<Config>, k: nat)
    requires f.offset.None? && Lists(all, store, store.Keys, f.matches) && |all| < U32_RANGE
    requires !StrictAt(all, Start(k, f.Limit()))
    ensures exists pages :: && Pages(pages, store, f, |all|)
                            && !Lists(Concatenated(pages), store, store.Keys, f.matches)
  {
    var limit := f.Limit();
    var b, n := Start(k, limit), PageCount(|all|, limit);
    var swapped := Swapped(all, b);
    SwappedLists(all, store, f.matches, b);
    MixedArePages(all, swapped, k, store, f);
    StartsBelowCount(k, |all|, limit);
    ChangeOverRepeats(all, k, limit, n);
    assert Pages(Mixed(all, swapped, k, limit, n), store, f, |all|);
  }

  lemma ChangeOverRepeats(all: seq<Config>, k: nat, limit: nat, n: nat)
    requires k < n && 0 < Start(k, limit) < |all| && limit > 0
    ensures !DistinctConfigs(Concatenated(Mixed(all, Swapped(all, Start(k, limit)), k, limit, n)))
  {
    var swapped := Swapped(all, Start(k, limit));
    var pages := Mixed(all, swapped, k, limit, n);
    forall j | 0 <= j < k
      ensures pages[j] == Window(all, Start(j, limit), limit)
    {
      MixedPage(all, swapped, k, limit, n, j);
    }
    WindowsTile(pages, all, limit, k);
    MixedPage(all, swapped, k, limit, n, k);
    TwoPagesRepeat(pages, all, Start(k, limit), k, limit);
  }

  lemma TwoPagesRepeat(pages: seq<seq<Config>>, all: seq<Config>, b: nat, k: nat, limit: nat)
    requires k < |pages| && 0 < b < |all| && limit > 0
    requires Concatenated(pages[..k]) == Prefix(all, b) && pages[k] == Window(Swapped(all, b), b, limit)
    ensures !DistinctConfigs(Concatenated(pages))
  {
    OnePageMore(pages, k);
    ConcatenationGrows(pages, k + 1);
    NeighbourRepeats(all, b, limit);
    RepeatIsNoListing(Prefix(all, b) + Window(Swapped(all, b), b, limit), Concatenated(pages), b);
  }

  lemma RepeatIsNoListing(start: seq<Config>, whole: seq<Config>, b: nat)
    requires start <= whole && 0 < b < |start| && start[b - 1] == start[b]
    ensures !DistinctConfigs(whole)
  {
    assert whole[b - 1].id == whole[b].id;
  }

  lemma StartsBelowCount(k: nat, count: nat, limit: nat)
    requires limit > 0 && Start(k, limit) < count
    ensures k < PageCount(count, limit)
  {
    PageCountBounds(count, limit);
    StartIsProduct(k, limit);
    if k >= PageCount(count, limit) {
      ProductsOrdered(PageCount(count, limit), k, limit);
    }
  }

  lemma NeighbourRepeats(all: seq<Config>, b: nat, limit: nat)
    requires 0 < b < |all| && limit > 0
    ensures var two := Prefix(all, b) + Window(Swapped(all, b), b, limit);
            b < |two| && two[b - 1] == two[b] == all[b - 1]
  {
  }

  // Whatever orders the single answers use for ties, the pages put together are a listing
  // exactly when no tie straddles a boundary between two pages.
  lemma PagesTileExactly(store: Store, f: Filter, all: seq<Config>)
    requires f.offset.None? && Lists(all, store, store.Keys, f.matches) && |all| < U32_RANGE
    ensures NoTieStraddles(all, f.Limit()) <==>
            forall pages :: Pages(pages, store, f, |all|) ==>
                              Lists(Concatenated(pages), store, store.Keys, f.matches)
  {
    if NoTieStraddles(all, f.Limit()) {
      forall pages | Pages(pages, store, f, |all|)
        ensures Lists(Concatenated(pages), store, store.Keys, f.matches)
      {
        PagesList(pages, store, f, all);
      }
    } else {
      var k: nat :| !StrictAt(all, Start(k, f.Limit()));
      StraddlingTieRepeats(store, f, all, k);
    }
  }

  const TIE_A := Config(1, map[], "a", 5, 0, true, 0)
  const TIE_B := Config(2, map[], "b", 5, 0, true, 0)

  lemma TieIsListed(matches: Config -> bool)
    requires matches(TIE_A) && matches(TIE_B)
    ensures var store: Store := map[1 := TIE_A, 2 := TIE_B]; Lists([TIE_A, TIE_B], store, store.Keys, matches)
  {
    var s := [TIE_A, TIE_B];
    assert s[0] in s && s[1] in s;
  }

  // With a shared creation time two pages of one may both show the same configuration: in the
  // SQL listing, which leaves the order of ties open, or when the map changes in between.
  lemma TiedPagesMayRepeat()
    ensures var store: Store := map[1 := TIE_A, 2 := TIE_B];
            var f := DEFAULT_FILTER.(limit := Some(1));
            Listing([TIE_A], store, f.(page := Some(1))) && Listing([TIE_A], store, f.(page := Some(2)))
  {
    var store: Store := map[1 := TIE_A, 2 := TIE_B];
    var all := [TIE_A, TIE_B];
    TieIsListed(DEFAULT_FILTER.matches);
    SwappedLists(all, store, DEFAULT_FILTER.matches, 1);
    TieWindows();
  }

  lemma TieWindows()
    ensures Window([TIE_A, TIE_B], 0, 1) == [TIE_A] && Window(Swapped([TIE_A, TIE_B], 1), 1, 1) == [TIE_A]
  {
  }
}
