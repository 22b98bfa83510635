// Whole runs of pushes and deletions against the central store.
module PushRuns {
  import opened Basics
  import opened VersionVectors
  import opened PushProtocol

  datatype Event = Arrival(push: Push) | Removal(id: Id, fails: bool)

  function After(d: Decider, store: Store, e: Event): Store {
    match e
    case Arrival(p) => StoreAfter(d, store, p)
    case Removal(id, fails) => if fails then store else store - {id}
  }

  function Run(d: Decider, store: Store, es: seq<Event>): Store {
    if es == [] then store
    else After(d, Run(d, store, es[..|es| - 1]), es[|es| - 1])
  }

  // A deletion takes its id out of the store, unless the storage call fails.
  lemma RemovalExactly(d: Decider, store: Store, id: Id, fails: bool, other: Id)
    ensures At(After(d, store, Removal(id, fails)), other) == if other == id && !fails then None else At(store, other)
  {
  }

  function Pushes(ps: seq<Push>): seq<Event> {
    seq(|ps|, i requires 0 <= i < |ps| => Arrival(ps[i]))
  }

  // A batch changes the store as the run of its pushes does.
  lemma {:induction false} BatchIsARun(d: Decider, t: Tally, ps: seq<Push>)
    ensures Batch(d, t, ps).store == Run(d, t.store, Pushes(ps))
  {
    if ps == [] {
    } else {
      var n := |ps| - 1;
      BatchIsARun(d, t, ps[..n]);
      assert Pushes(ps)[..n] == Pushes(ps[..n]);
    }
  }

  // The guard under which a push moves the stored vector down or sideways. The service
  // saves a dominated vector only under an unchanged hash; the handler always saves it,
  // and also overwrites a concurrent version when its lookup fails.
  predicate Regresses(d: Decider, store: Store, p: Push) {
    && p.config.id in store
    && !p.saveFails
    && var existing := store[p.config.id];
       match d
       case Service => !p.findFails && Dominates(existing.vv, p.config.vv) && existing.hash == p.config.hash
       case Handler => Dominates(existing.vv, p.config.vv) || (p.findFails && Concurrent(existing.vv, p.config.vv))
  }

  lemma StepAscendsExactly(d: Decider, store: Store, p: Push, id: Id)
    requires id in store
    ensures var after := StoreAfter(d, store, p);
            && id in after
            && (AtMost(store[id].vv, after[id].vv) <==> !(p.config.id == id && Regresses(d, store, p)))
  {
    StrictPartialOrder(store[id].vv, p.config.vv, store[id].vv);
  }

  ghost predicate NoRemoval(es: seq<Event>, id: Id) {
    forall e <- es :: e.Removal? ==> e.id != id
  }

  ghost predicate NoRegression(d: Decider, store: Store, es: seq<Event>, id: Id, from: nat, to: nat)
    requires from <= to <= |es|
  {
    forall k :: from <= k < to && es[k].Arrival? && es[k].push.config.id == id ==>
                  !Regresses(d, Run(d, store, es[..k]), es[k].push)
  }

  // Between any two moments of a run without deletion of an id and without a regressing
  // push of it, its stored vector only climbs.
  lemma {:induction false} VectorsClimb(d: Decider, store: Store, es: seq<Event>, id: Id, i: nat, j: nat)
    requires i <= j <= |es| && NoRemoval(es, id)
    requires id in Run(d, store, es[..i])
    requires NoRegression(d, store, es, id, i, j)
    ensures id in Run(d, store, es[..j])
    ensures AtMost(Run(d, store, es[..i])[id].vv, Run(d, store, es[..j])[id].vv)
    decreases j
  {
    if i == j {
    } else {
      VectorsClimb(d, store, es, id, i, j - 1);
      OneMore(d, store, es, j - 1);
      var before, after := Run(d, store, es[..j - 1]), Run(d, store, es[..j]);
      assert es[j - 1] in es;
      if es[j - 1].Arrival? {
        StepAscendsExactly(d, before, es[j - 1].push, id);
      }
      AtMostTransitive(Run(d, store, es[..i])[id].vv, before[id].vv, after[id].vv);
    }
  }

  lemma OneMore(d: Decider, store: Store, es: seq<Event>, k: nat)
    requires k < |es|
    ensures Run(d, store, es[..k + 1]) == After(d, Run(d, store, es[..k]), es[k])
  {
    assert es[..k + 1][..k] == es[..k];
  }

  ghost predicate Ascending(d: Decider, store: Store, es: seq<Event>, id: Id) {
    forall i, j :: 0 <= i <= j <= |es| && id in Run(d, store, es[..i]) ==>
                     && id in Run(d, store, es[..j])
                     && AtMost(Run(d, store, es[..i])[id].vv, Run(d, store, es[..j])[id].vv)
  }

  // The vectors stored for an id form an ascending chain, each above every one saved
  // before it, exactly when no push of that id regresses when it arrives.
  lemma ChainExactly(d: Decider, store: Store, es: seq<Event>, id: Id)
    requires NoRemoval(es, id)
    ensures Ascending(d, store, es, id) <==> NoRegression(d, store, es, id, 0, |es|)
  {
    if NoRegression(d, store, es, id, 0, |es|) {
      forall i, j | 0 <= i <= j <= |es| && id in Run(d, store, es[..i])
        ensures && id in Run(d, store, es[..j])
                && AtMost(Run(d, store, es[..i])[id].vv, Run(d, store, es[..j])[id].vv)
      {
        VectorsClimb(d, store, es, id, i, j);
      }
    }
    if Ascending(d, store, es, id) {
      forall k | 0 <= k < |es| && es[k].Arrival? && es[k].push.config.id == id
        ensures !Regresses(d, Run(d, store, es[..k]), es[k].push)
      {
        OneMore(d, store, es, k);
        if id in Run(d, store, es[..k]) {
          StepAscendsExactly(d, Run(d, store, es[..k]), es[k].push, id);
          assert es[..k + 1] == es[..k] + [es[k]];
        }
      }
    }
  }

  // In every run of the service, regressing pushes and failures included, stored content
  // changes only together with an equal or dominating vector.
  lemma ContentChangesWithTheVector(store: Store, es: seq<Event>, id: Id, k: nat)
    requires k < |es|
    ensures var before, after := Run(Service, store, es[..k]), Run(Service, store, es[..k + 1]);
            id in before && id in after && before[id].hash != after[id].hash ==>
              AtMost(before[id].vv, after[id].vv)
  {
    OneMore(Service, store, es, k);
    var before := Run(Service, store, es[..k]);
    if id in before && es[k].Arrival? {
      StepAscendsExactly(Service, before, es[k].push, id);
    }
  }

  const REWOUND := NEWER.(vv := STALE.vv)

  // The guard does not compose: two pushes, the first under the stored hash, replace a
  // version by other content under a vector the replaced one dominates.
  lemma TwoPushesRewindTheService()
    ensures var after := Run(Service, map[7 := NEWER], [Arrival(Pushed(REWOUND)), Arrival(Pushed(STALE))]);
            && after[7] == STALE && STALE.hash != NEWER.hash && Dominates(NEWER.vv, STALE.vv)
  {
    StaleThenSide();
    assert NEWER.hash[0] != STALE.hash[0];
    var es := [Arrival(Pushed(REWOUND)), Arrival(Pushed(STALE))];
    assert es[..1] == [Arrival(Pushed(REWOUND))];
    OneMore(Service, map[7 := NEWER], es, 0);
    OneMore(Service, map[7 := NEWER], es, 1);
    StrictPartialOrder(NEWER.vv, STALE.vv, STALE.vv);
    assert es[..2] == es;
    assert Run(Service, map[7 := NEWER], es[..1])[7] == REWOUND;
  }

  // The handler needs one push.
  lemma OnePushRewindsTheHandler()
    ensures After(Handler, map[7 := NEWER], Arrival(Pushed(STALE)))[7] == STALE
    ensures STALE.hash != NEWER.hash && Dominates(NEWER.vv, STALE.vv)
  {
    StaleThenSide();
    assert NEWER.hash[0] != STALE.hash[0];
  }
}
