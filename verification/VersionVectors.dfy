// Vector clocks: one u64 counter per instance (mysti-common/src/models.rs).
module VersionVectors {
  import opened Basics

  type Id = int

  type Counter = n: int | 0 <= n <= U64_MAX

  type Vector = map<Id, Counter>

  function Count(v: Vector, id: Id): Counter {
    if id in v then v[id] else 0
  }

  function Max(a: Counter, b: Counter): Counter {
    if a < b then b else a
  }

  function InstanceVector(id: Id): Vector {
    map[id := 1]
  }

  // `+= 1` on a u64: past the maximum a release build wraps to zero.
  function Incremented(v: Vector, id: Id): Vector {
    v[id := if Count(v, id) == U64_MAX then 0 else Count(v, id) + 1]
  }

  function Merged(a: Vector, b: Vector): Vector {
    map id | id in a.Keys + b.Keys :: Max(Count(a, id), Count(b, id))
  }

  predicate Dominates(a: Vector, b: Vector) {
    && (forall id <- a :: a[id] >= Count(b, id))
    && b.Keys <= a.Keys
    && (exists id <- a :: a[id] > Count(b, id))
  }

  predicate Concurrent(a: Vector, b: Vector) {
    !Dominates(a, b) && !Dominates(b, a) && a != b
  }

  predicate AtMost(a: Vector, b: Vector) {
    a == b || Dominates(b, a)
  }

  predicate ZeroFree(v: Vector) {
    forall id <- v :: v[id] > 0
  }

  // The order on histories that a vector clock stands for: absent means zero.
  ghost predicate PointwiseAtMost(a: Vector, b: Vector) {
    forall id: Id :: Count(a, id) <= Count(b, id)
  }

  // The counter of `id` once every entry of `b` outside `pending` is merged into `a`.
  ghost function MergedExcept(a: Vector, b: Vector, pending: set<Id>, id: Id): Counter {
    if id in pending then Count(a, id) else Max(Count(a, id), Count(b, id))
  }

  // The vector as the source updates it, in place.
  class VersionVector {
    var counters: Vector

    constructor WithInstance(id: Id)
      ensures counters == InstanceVector(id) && counters.Keys == {id} && counters[id] == 1
    {
      counters := map[id := 1];
    }

    constructor From(v: Vector)
      ensures counters == v
    {
      counters := v;
    }

    method Increment(id: Id)
      modifies this
      ensures counters == Incremented(old(counters), id)
      ensures id in counters && counters[id] == (Count(old(counters), id) + 1) % 0x1_0000_0000_0000_0000
      ensures forall i :: i != id ==>
                            (i in counters <==> i in old(counters)) && Count(counters, i) == Count(old(counters), i)
    {
      var c := if id in counters then counters[id] else 0;
      counters := counters[id := if c == U64_MAX then 0 else c + 1];
    }

    // The hash map yields its entries in any order.
    method Merge(other: Vector)
      modifies this
      ensures counters == Merged(old(counters), other)
      ensures counters.Keys == old(counters).Keys + other.Keys
      ensures forall id <- counters :: counters[id] >= Count(old(counters), id) && counters[id] >= Count(other, id)
      ensures forall id <- counters :: counters[id] == Count(old(counters), id) || counters[id] == Count(other, id)
    {
      var pending := other.Keys;
      while exists id :: id in pending
        invariant pending <= other.Keys
        invariant forall id :: id in counters <==> id in old(counters) || (id in other && id !in pending)
        invariant forall id <- counters :: counters[id] == MergedExcept(old(counters), other, pending, id)
        decreases |pending|
      {
        var id :| id in pending;
        var entry := Count(counters, id);
        counters := counters[id := Max(entry, other[id])];
        pending := pending - {id};
      }
      assert forall id :: id in counters.Keys <==> id in Merged(old(counters), other).Keys;
      SameVector(counters, Merged(old(counters), other));
    }

    method DominatesOther(other: Vector) returns (dominates: bool)
      ensures dominates == Dominates(counters, other)
    {
      var hasGreater := false;
      var pending := counters.Keys;
      while exists id :: id in pending
        invariant pending <= counters.Keys
        invariant forall id <- counters :: id in pending || counters[id] >= Count(other, id)
        invariant hasGreater <==> exists id <- counters :: id !in pending && counters[id] > Count(other, id)
        decreases |pending|
      {
        var id :| id in pending;
        var otherCounter := Count(other, id);
        if counters[id] < otherCounter {
          return false;
        }
        if counters[id] > otherCounter {
          hasGreater := true;
        }
        pending := pending - {id};
      }
      var unseen := other.Keys;
      while exists id :: id in unseen
        invariant unseen <= other.Keys
        invariant forall id <- other :: id in unseen || id in counters
        decreases |unseen|
      {
        var id :| id in unseen;
        if id !in counters {
          return false;
        }
        unseen := unseen - {id};
      }
      assert forall id <- other :: id !in unseen && id in counters;
      return hasGreater;
    }
  }

  // On all vectors, zero counters included.
  lemma StrictPartialOrder(a: Vector, b: Vector, c: Vector)
    ensures !Dominates(a, a)
    ensures Dominates(a, b) ==> !Dominates(b, a)
    ensures Dominates(a, b) && Dominates(b, c) ==> Dominates(a, c)
  {
    if Dominates(a, b) && Dominates(b, c) {
      var id :| id in b && b[id] > Count(c, id);
      assert a[id] > Count(c, id);
      forall id | id in a
        ensures a[id] >= Count(c, id)
      {
        assert id in c ==> id in b && b[id] >= c[id];
      }
    }
  }

  // The loops decide the history order except when the other side keeps a zero
  // under a key this side lacks.
  lemma DominatesExactly(a: Vector, b: Vector)
    ensures Dominates(a, b) <==>
            PointwiseAtMost(b, a) && !PointwiseAtMost(a, b) && b.Keys <= a.Keys
    ensures ZeroFree(a) && ZeroFree(b) ==>
              (Dominates(a, b) <==> PointwiseAtMost(b, a) && a != b)
  {
    if PointwiseAtMost(b, a) && ZeroFree(a) && ZeroFree(b) {
      forall id | id in b
        ensures id in a
      {
        assert Count(b, id) <= Count(a, id);
      }
      if PointwiseAtMost(a, b) {
        forall id | id in a
          ensures id in b && a[id] == b[id]
        {
          assert Count(a, id) <= Count(b, id) <= Count(a, id);
        }
        assert a == b;
      }
    }
    if PointwiseAtMost(b, a) && !PointwiseAtMost(a, b) {
      var id: Id :| Count(a, id) > Count(b, id);
      assert id in a;
      forall id | id in a
        ensures a[id] >= Count(b, id)
      {
        assert Count(b, id) <= Count(a, id);
      }
    }
  }

  // A zero counter hides domination: every entry is at least as large and one is larger.
  lemma ZeroCounterHidesDomination()
    ensures var a: Vector, b: Vector := map[1 := 5], map[1 := 4, 2 := 0];
            PointwiseAtMost(b, a) && !PointwiseAtMost(a, b) && Concurrent(a, b)
  {
    var a: Vector, b: Vector := map[1 := 5], map[1 := 4, 2 := 0];
    assert Count(a, 1) > Count(b, 1);
    assert 2 in b && 2 !in a;
  }

  lemma ExactlyOneRelation(a: Vector, b: Vector)
    ensures multiset{a == b, Dominates(a, b), Dominates(b, a), Concurrent(a, b)}[true] == 1
  {
    StrictPartialOrder(a, b, a);
    StrictPartialOrder(b, a, b);
  }

  lemma AtMostIsPointwise(a: Vector, b: Vector)
    requires ZeroFree(a) && ZeroFree(b)
    ensures AtMost(a, b) <==> PointwiseAtMost(a, b)
  {
    DominatesExactly(b, a);
  }

  lemma AtMostTransitive(a: Vector, b: Vector, c: Vector)
    requires AtMost(a, b) && AtMost(b, c)
    ensures AtMost(a, c)
  {
    StrictPartialOrder(c, b, a);
  }

  lemma ZeroFreeKept(a: Vector, b: Vector, id: Id)
    ensures ZeroFree(InstanceVector(id))
    ensures ZeroFree(a) ==> (ZeroFree(Incremented(a, id)) <==> Count(a, id) < U64_MAX)
    ensures ZeroFree(a) && ZeroFree(b) ==> ZeroFree(Merged(a, b))
  {
    assert Incremented(a, id)[id] == if Count(a, id) == U64_MAX then 0 else Count(a, id) + 1;
  }

  // Incrementing moves strictly up exactly when the counter does not wrap.
  lemma IncrementAscends(v: Vector, id: Id)
    ensures Dominates(Incremented(v, id), v) <==> Count(v, id) < U64_MAX
  {
    var w := Incremented(v, id);
    assert w[id] > Count(v, id) <==> Count(v, id) < U64_MAX;
  }

  lemma MergeIsLeastUpperBound(a: Vector, b: Vector, c: Vector)
    requires ZeroFree(a) && ZeroFree(b) && ZeroFree(c)
    ensures AtMost(a, Merged(a, b)) && AtMost(b, Merged(a, b))
    ensures AtMost(a, c) && AtMost(b, c) ==> AtMost(Merged(a, b), c)
  {
    var m := Merged(a, b);
    ZeroFreeKept(a, b, 0);
    assert forall id: Id :: Count(m, id) == Max(Count(a, id), Count(b, id));
    AtMostIsPointwise(a, m);
    AtMostIsPointwise(b, m);
    AtMostIsPointwise(a, c);
    AtMostIsPointwise(b, c);
    AtMostIsPointwise(m, c);
  }

  // On all vectors, the merge is above its first argument unless the second only adds keys
  // that hold zero.
  lemma MergeBoundsExactly(a: Vector, b: Vector)
    ensures AtMost(a, Merged(a, b)) <==> b.Keys <= a.Keys || exists id <- b :: b[id] > Count(a, id)
  {
    var m := Merged(a, b);
    if id :| id in b && b[id] > Count(a, id) {
      assert m[id] > Count(a, id);
      assert Dominates(m, a);
    } else if b.Keys <= a.Keys {
      SameVector(m, a);
    } else {
      assert m.Keys != a.Keys;
      assert forall id <- m :: m[id] == Count(a, id);
    }
  }

  // Without the zero-free assumption the merge is not even an upper bound.
  lemma MergeWithZeroIsNoBound()
    ensures var a: Vector, b: Vector := map[], map[1 := 0]; !AtMost(a, Merged(a, b))
  {
    var a: Vector, b: Vector := map[], map[1 := 0];
    assert 1 in Merged(a, b);
    assert Merged(a, b) == b;
  }

  lemma MergeCommutes(a: Vector, b: Vector)
    ensures Merged(a, b) == Merged(b, a)
    ensures Merged(a, a) == a
  {
    SameVector(Merged(a, b), Merged(b, a));
    SameVector(Merged(a, a), a);
  }

  lemma MergeAssociates(a: Vector, b: Vector, c: Vector)
    ensures Merged(Merged(a, b), c) == Merged(a, Merged(b, c))
  {
    var left, right := Merged(Merged(a, b), c), Merged(a, Merged(b, c));
    forall id: Id
      ensures Count(left, id) == Count(right, id)
    {
      MergedCount(a, b, id);
      MergedCount(b, c, id);
      MergedCount(Merged(a, b), c, id);
      MergedCount(a, Merged(b, c), id);
    }
    SameVector(left, right);
  }

  lemma MergedCount(a: Vector, b: Vector, id: Id)
    ensures Count(Merged(a, b), id) == Max(Count(a, id), Count(b, id))
  {
  }

  lemma SameVector(a: Vector, b: Vector)
    requires a.Keys == b.Keys
    requires forall id: Id :: Count(a, id) == Count(b, id)
    ensures a == b
  {
    forall id | id in a
      ensures a[id] == b[id]
    {
      assert Count(a, id) == Count(b, id);
    }
  }
}
