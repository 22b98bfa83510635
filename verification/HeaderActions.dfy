// Header actions applied in hash-map order: apply_header_actions
// (mystiproxy/src/http/handler.rs) and HeaderTransformer (mystiproxy/src/http/header.rs).
module HeaderActions {
  import opened Basics
  import opened Text

  // The HTTP library: the normalised form of a header name, None when it is no name; whether
  // a text is a header value; a value read back as text.
  datatype Http = Http(name: string -> Option<string>, valid: string -> bool, text: string -> Option<string>)

  datatype Kind = Overwrite | Missed | ForceDelete

  datatype HeaderAction = HeaderAction(value: string, kind: Kind, condition: Option<string>)

  type Actions = map<string, HeaderAction>

  // Normalised names, each with its values in order.
  type Headers = map<string, seq<string>>

  function At(h: Headers, n: string): Option<seq<string>> {
    if n in h then Some(h[n]) else None
  }

  // What an action makes of the values of its header.
  function Effect(http: Http, a: HeaderAction, values: Option<seq<string>>): Option<seq<string>> {
    match a.kind
    case Overwrite => if http.valid(a.value) then Some([a.value]) else values
    case Missed => if values.None? && http.valid(a.value) then Some([a.value]) else values
    case ForceDelete => None
  }

  function Put(h: Headers, n: string, values: Option<seq<string>>): Headers {
    if values.Some? then h[n := values.value] else h - {n}
  }

  function Acted(http: Http, h: Headers, key: string, a: HeaderAction): Headers {
    match http.name(key)
    case None => h
    case Some(n) => Put(h, n, Effect(http, a, At(h, n)))
  }

  // The header a condition looks at, as written: all of it, or the part before `=`.
  function ConditionName(cond: string): string {
    match SplitOnce(cond, '=')
    case Some((n, _)) => n
    case None => cond
  }

  predicate Holds(http: Http, condition: Option<string>, h: Headers) {
    if condition.None? || condition.value == "" then true
    else
      match http.name(ConditionName(condition.value))
      case None => false
      case Some(n) =>
        match SplitOnce(condition.value, '=')
        case None => n in h
        case Some((_, expected)) =>
          n in h && h[n] != [] && (var t := http.text(h[n][0]); (if t.Some? then t.value else "") == expected)
  }

  // When a condition holds: always when it is absent or empty; as a bare name when the header is
  // there; as a name and a value when the first value of the header reads as that value, one
  // that is no text reading as empty.
  lemma HoldsExactly(http: Http, name: string, expected: string, h: Headers)
    ensures Holds(http, None, h) && Holds(http, Some(""), h)
    ensures '=' !in name && name != "" ==>
              (Holds(http, Some(name), h) <==> http.name(name).Some? && http.name(name).value in h)
    ensures '=' !in name ==>
              (Holds(http, Some(name + "=" + expected), h) <==>
               && http.name(name).Some? && http.name(name).value in h
               && var values := h[http.name(name).value];
                  && values != []
                  && (http.text(values[0]) == Some(expected) || (http.text(values[0]).None? && expected == "")))
  {
    if '=' !in name {
      SplitOnceIsFirst(name, '=');
      SplitAtFirst(name, expected, '=');
      assert name + ['='] + expected == name + "=" + expected;
    }
  }

  // One action; only the transformer looks at conditions.
  function Step(http: Http, conditional: bool, h: Headers, key: string, a: HeaderAction): Headers {
    if conditional && !Holds(http, a.condition, h) then h else Acted(http, h, key, a)
  }

  function Folded(http: Http, conditional: bool, actions: Actions, order: seq<string>, h: Headers): Headers
    requires forall k <- order :: k in actions
  {
    if order == [] then h
    else
      var k := order[|order| - 1];
      Step(http, conditional, Folded(http, conditional, actions, order[..|order| - 1], h), k, actions[k])
  }

  // An order in which the hash map may yield its entries.
  ghost predicate Ordering(order: seq<string>, keys: set<string>) {
    && (forall k :: k in order <==> k in keys)
    && (forall i, j :: 0 <= i < j < |order| ==> order[i] != order[j])
  }

  // No two names are equal ignoring case.
  ghost predicate DistinctNames(http: Http, keys: set<string>) {
    forall k, l :: k in keys && l in keys && k != l && http.name(k).Some? ==> http.name(k) != http.name(l)
  }

  // No condition looks at a header that some action touches.
  ghost predicate ConditionsApart(http: Http, actions: Actions) {
    forall k, l :: k in actions && l in actions && actions[k].condition.Some? && http.name(l).Some? ==>
                     http.name(ConditionName(actions[k].condition.value)) != http.name(l)
  }

  // The outcome, free of any order: each header is changed by its own action only, judged
  // against the headers as they came in.
  function Outcome(http: Http, conditional: bool, a: HeaderAction, h: Headers, n: string): Option<seq<string>> {
    if conditional && !Holds(http, a.condition, h) then At(h, n) else Effect(http, a, At(h, n))
  }

  lemma SameHeaders(g: Headers, h: Headers)
    requires forall n :: At(g, n) == At(h, n)
    ensures g == h
  {
    forall n
      ensures n in g <==> n in h
      ensures n in g ==> g[n] == h[n]
    {
      assert At(g, n) == At(h, n);
    }
    assert g.Keys == h.Keys;
  }

  lemma HoldsDependsOnItsHeader(http: Http, condition: Option<string>, g: Headers, h: Headers)
    requires condition.Some? ==>
               var n := http.name(ConditionName(condition.value)); n.Some? ==> At(g, n.value) == At(h, n.value)
    ensures Holds(http, condition, g) <==> Holds(http, condition, h)
  {
  }

  lemma {:induction false} UntouchedStays(
    http: Http, conditional: bool, actions: Actions, order: seq<string>, h: Headers, n: string)
    requires forall k <- order :: k in actions && http.name(k) != Some(n)
    ensures At(Folded(http, conditional, actions, order, h), n) == At(h, n)
  {
    if order == [] {
    } else {
      assert order[|order| - 1] in order;
      UntouchedStays(http, conditional, actions, order[..|order| - 1], h, n);
    }
  }

  lemma StepKeepsConditions(
    http: Http, conditional: bool, actions: Actions, front: seq<string>, h: Headers, k: string)
    requires k in actions && forall l <- front :: l in actions
    requires conditional ==> ConditionsApart(http, actions)
    ensures var before := Folded(http, conditional, actions, front, h);
            conditional ==> (Holds(http, actions[k].condition, before) <==> Holds(http, actions[k].condition, h))
  {
    if conditional && actions[k].condition.Some? {
      var before := Folded(http, conditional, actions, front, h);
      var c := http.name(ConditionName(actions[k].condition.value));
      if c.Some? {
        assert forall l <- front :: http.name(l) != c;
        UntouchedStays(http, conditional, actions, front, h, c.value);
      }
      HoldsDependsOnItsHeader(http, actions[k].condition, before, h);
    }
  }

  // What an action makes of the values of its header, case by case.
  lemma EffectExactly(http: Http, a: HeaderAction, values: Option<seq<string>>)
    ensures Effect(http, a, values) ==
            if a.kind == ForceDelete then None
            else if http.valid(a.value) && (a.kind == Overwrite || values == None) then Some([a.value])
            else values
  {
  }

  // The action under `k` really changes header `n`: its condition holds of the incoming
  // headers, and its value, where it has one to set, is valid.
  predicate Does(kind: Kind, http: Http, conditional: bool, actions: Actions, h: Headers, k: string, n: string)
    requires k in actions
  {
    && http.name(k) == Some(n)
    && (conditional ==> Holds(http, actions[k].condition, h))
    && actions[k].kind == kind
    && (kind.ForceDelete? || http.valid(actions[k].value))
  }

  predicate Overwritten(http: Http, conditional: bool, actions: Actions, h: Headers, n: string) {
    exists k <- actions :: Does(Overwrite, http, conditional, actions, h, k, n)
  }

  // Two actions on one header, spelled differently, whose effects depend on which comes first:
  // a deletion and a setting, two overwriting values, or two values for a header that is
  // missing and that nothing overwrites.
  predicate Clash(http: Http, conditional: bool, actions: Actions, h: Headers, k: string, l: string, n: string)
    requires k in actions && l in actions
  {
    || (&& Does(ForceDelete, http, conditional, actions, h, k, n)
        && (Does(Overwrite, http, conditional, actions, h, l, n) || Does(Missed, http, conditional, actions, h, l, n)))
    || (&& Does(Overwrite, http, conditional, actions, h, k, n) && Does(Overwrite, http, conditional, actions, h, l, n)
        && actions[k].value != actions[l].value)
    || (&& Does(Missed, http, conditional, actions, h, k, n) && Does(Missed, http, conditional, actions, h, l, n)
        && actions[k].value != actions[l].value
        && n !in h && !Overwritten(http, conditional, actions, h, n))
  }

  ghost predicate ClashFree(http: Http, conditional: bool, actions: Actions, h: Headers) {
    forall k, l, n :: k in actions && l in actions ==> !Clash(http, conditional, actions, h, k, l, n)
  }

  // What the actions of `order` have made of header `n`, whatever their order.
  ghost predicate Explained(
    http: Http, conditional: bool, actions: Actions, order: seq<string>, h: Headers, n: string,
    now: Option<seq<string>>)
    requires forall k <- order :: k in actions
  {
    && ((forall k <- order, kind :: !Does(kind, http, conditional, actions, h, k, n)) ==> now == At(h, n))
    && (forall k <- order :: Does(ForceDelete, http, conditional, actions, h, k, n) ==> now == None)
    && (forall k <- order :: Does(Overwrite, http, conditional, actions, h, k, n) ==> now == Some([actions[k].value]))
    && (forall k <- order :: Does(Missed, http, conditional, actions, h, k, n)
                             && !Overwritten(http, conditional, actions, h, n) ==>
                               now == if n in h then At(h, n) else Some([actions[k].value]))
  }

  lemma ExplainedIdle(
    http: Http, conditional: bool, actions: Actions, front: seq<string>, k: string, h: Headers, n: string,
    now: Option<seq<string>>)
    requires k in actions && forall l <- front :: l in actions
    requires Explained(http, conditional, actions, front, h, n, now)
    requires forall kind :: !Does(kind, http, conditional, actions, h, k, n)
    ensures Explained(http, conditional, actions, front + [k], h, n, now)
  {
    assert forall l <- front + [k] :: l in front || l == k;
    assert forall l <- front :: l in front + [k];
  }

  lemma ExplainedActing(
    http: Http, conditional: bool, actions: Actions, front: seq<string>, k: string, h: Headers, n: string,
    before: Option<seq<string>>)
    requires k in actions && forall l <- front :: l in actions
    requires ClashFree(http, conditional, actions, h) && Explained(http, conditional, actions, front, h, n, before)
    requires Does(actions[k].kind, http, conditional, actions, h, k, n)
    ensures Explained(http, conditional, actions, front + [k], h, n, Effect(http, actions[k], before))
  {
    assert forall l <- front + [k] :: l in front || l == k;
    assert k in front + [k];
    forall l | l in front
      ensures !Clash(http, conditional, actions, h, k, l, n) && !Clash(http, conditional, actions, h, l, k, n)
    {
    }
  }

  lemma ExplainedOneMore(
    http: Http, conditional: bool, actions: Actions, front: seq<string>, k: string, h: Headers, n: string,
    before: Option<seq<string>>, now: Option<seq<string>>)
    requires k in actions && forall l <- front :: l in actions
    requires ClashFree(http, conditional, actions, h) && Explained(http, conditional, actions, front, h, n, before)
    requires now == if http.name(k) == Some(n) && (conditional ==> Holds(http, actions[k].condition, h))
                    then Effect(http, actions[k], before) else before
    ensures Explained(http, conditional, actions, front + [k], h, n, now)
  {
    if Does(actions[k].kind, http, conditional, actions, h, k, n) {
      ExplainedActing(http, conditional, actions, front, k, h, n, before);
    } else {
      ExplainedIdle(http, conditional, actions, front, k, h, n, before);
    }
  }

  lemma {:induction false} FoldIsExplained(
    http: Http, conditional: bool, actions: Actions, order: seq<string>, h: Headers, n: string)
    requires forall k <- order :: k in actions
    requires ClashFree(http, conditional, actions, h) && (conditional ==> ConditionsApart(http, actions))
    ensures Explained(http, conditional, actions, order, h, n, At(Folded(http, conditional, actions, order, h), n))
  {
    if order == [] {
    } else {
      var front, k := order[..|order| - 1], order[|order| - 1];
      var before, now := Folded(http, conditional, actions, front, h), Folded(http, conditional, actions, order, h);
      FoldIsExplained(http, conditional, actions, front, h, n);
      StepKeepsConditions(http, conditional, actions, front, h, k);
      ExplainedOneMore(http, conditional, actions, front, k, h, n, At(before, n), At(now, n));
      assert order == front + [k];
    }
  }

  lemma DistinctNamesDoNotClash(http: Http, conditional: bool, actions: Actions, h: Headers)
    requires DistinctNames(http, actions.Keys)
    ensures ClashFree(http, conditional, actions, h)
  {
  }

  // With names distinct ignoring case each header ends as its own action makes it.
  lemma FoldedAt(http: Http, conditional: bool, actions: Actions, order: seq<string>, h: Headers, n: string)
    requires forall k <- order :: k in actions
    requires DistinctNames(http, actions.Keys) && (conditional ==> ConditionsApart(http, actions))
    ensures var f := Folded(http, conditional, actions, order, h);
            && ((forall k <- order :: http.name(k) != Some(n)) ==> At(f, n) == At(h, n))
            && forall k <- order :: http.name(k) == Some(n) ==>
                                      At(f, n) == Outcome(http, conditional, actions[k], h, n)
  {
    DistinctNamesDoNotClash(http, conditional, actions, h);
    FoldIsExplained(http, conditional, actions, order, h, n);
    forall k <- order | http.name(k) == Some(n)
      ensures At(Folded(http, conditional, actions, order, h), n) == Outcome(http, conditional, actions[k], h, n)
    {
      assert forall l <- order :: http.name(l) == Some(n) ==> l == k;
      if !Does(actions[k].kind, http, conditional, actions, h, k, n) {
        assert forall l <- order, kind :: !Does(kind, http, conditional, actions, h, l, n);
      }
    }
  }

  lemma ExplainedOnce(
    http: Http, conditional: bool, actions: Actions, o: seq<string>, p: seq<string>, h: Headers, n: string,
    x: Option<seq<string>>, y: Option<seq<string>>)
    requires forall k :: k in o <==> k in actions
    requires forall k :: k in p <==> k in actions
    requires Explained(http, conditional, actions, o, h, n, x) && Explained(http, conditional, actions, p, h, n, y)
    ensures x == y
  {
    if k :| k in actions && Does(ForceDelete, http, conditional, actions, h, k, n) {
      assert k in o && k in p;
    } else if Overwritten(http, conditional, actions, h, n) {
      var k :| k in actions && Does(Overwrite, http, conditional, actions, h, k, n);
      assert k in o && k in p;
    } else if k :| k in actions && Does(Missed, http, conditional, actions, h, k, n) {
      assert k in o && k in p;
    }
  }

  // Confluence: without a clash every iteration order gives the same headers.
  lemma EveryOrderAgrees(http: Http, conditional: bool, actions: Actions, o: seq<string>, p: seq<string>, h: Headers)
    requires Ordering(o, actions.Keys) && Ordering(p, actions.Keys)
    requires ClashFree(http, conditional, actions, h) && (conditional ==> ConditionsApart(http, actions))
    ensures Folded(http, conditional, actions, o, h) == Folded(http, conditional, actions, p, h)
  {
    var f, g := Folded(http, conditional, actions, o, h), Folded(http, conditional, actions, p, h);
    forall n
      ensures At(f, n) == At(g, n)
    {
      FoldIsExplained(http, conditional, actions, o, h, n);
      FoldIsExplained(http, conditional, actions, p, h, n);
      ExplainedOnce(http, conditional, actions, o, p, h, n, At(f, n), At(g, n));
    }
    SameHeaders(f, g);
  }

  lemma {:induction false} SomeOrdering(keys: set<string>) returns (order: seq<string>)
    ensures Ordering(order, keys)
    decreases |keys|
  {
    if keys == {} {
      order := [];
    } else {
      var k :| k in keys;
      var rest := SomeOrdering(keys - {k});
      order := rest + [k];
    }
  }

  lemma TwoMore(rest: seq<string>, k: string, l: string, keys: set<string>)
    requires k in keys && l in keys && k != l && Ordering(rest, keys - {k, l})
    ensures Ordering(rest + [k, l], keys) && Ordering([k, l] + rest, keys)
  {
    assert forall m :: m in rest + [k, l] <==> m in rest || m == k || m == l;
    assert forall m :: m in [k, l] + rest <==> m in rest || m == k || m == l;
    assert k !in rest && l !in rest;
  }

  // Two more actions after any others.
  lemma LastTwo(
    http: Http, conditional: bool, actions: Actions, rest: seq<string>, k: string, l: string, h: Headers, n: string)
    requires k in actions && l in actions && forall m <- rest :: m in actions
    requires http.name(k) == Some(n) && (conditional ==> Holds(http, actions[k].condition, h))
    requires http.name(l) == Some(n) && (conditional ==> Holds(http, actions[l].condition, h))
    requires conditional ==> ConditionsApart(http, actions)
    ensures At(Folded(http, conditional, actions, rest + [k, l], h), n) ==
            Effect(http, actions[l], Effect(http, actions[k], At(Folded(http, conditional, actions, rest, h), n)))
  {
    var one, two := rest + [k], rest + [k, l];
    assert one[..|one| - 1] == rest && two[..|two| - 1] == one;
    StepKeepsConditions(http, conditional, actions, rest, h, k);
    StepKeepsConditions(http, conditional, actions, one, h, l);
  }

  // When nothing deletes or overwrites a missing header, the first value set stays.
  lemma {:induction false} FirstStays(
    http: Http, conditional: bool, actions: Actions, order: seq<string>, k: string, h: Headers, n: string)
    requires (forall m <- order :: m in actions) && order != [] && order[0] == k
    requires Does(Missed, http, conditional, actions, h, k, n) && n !in h
    requires forall m <- order :: !Does(ForceDelete, http, conditional, actions, h, m, n)
                                  && !Does(Overwrite, http, conditional, actions, h, m, n)
    requires conditional ==> ConditionsApart(http, actions)
    ensures At(Folded(http, conditional, actions, order, h), n) == Some([actions[k].value])
  {
    var front, last := order[..|order| - 1], order[|order| - 1];
    StepKeepsConditions(http, conditional, actions, front, h, last);
    if front != [] {
      assert forall m <- front :: m in order;
      FirstStays(http, conditional, actions, front, k, h, n);
      assert last in order;
    }
  }

  lemma FirstMatters(
    http: Http, conditional: bool, actions: Actions, h: Headers, k: string, l: string, n: string)
    returns (o: seq<string>, p: seq<string>)
    requires k in actions && l in actions && Clash(http, conditional, actions, h, k, l, n)
    requires Does(Missed, http, conditional, actions, h, k, n)
    requires forall d <- actions :: !Does(ForceDelete, http, conditional, actions, h, d, n)
    requires conditional ==> ConditionsApart(http, actions)
    ensures Ordering(o, actions.Keys) && Ordering(p, actions.Keys)
    ensures Folded(http, conditional, actions, o, h) != Folded(http, conditional, actions, p, h)
  {
    var rest := SomeOrdering(actions.Keys - {k, l});
    TwoMore(rest, k, l, actions.Keys);
    assert {k, l} == {l, k};
    TwoMore(rest, l, k, actions.Keys);
    o, p := [k, l] + rest, [l, k] + rest;
    FirstStays(http, conditional, actions, o, k, h, n);
    FirstStays(http, conditional, actions, p, l, h, n);
  }

  lemma LastMatters(
    http: Http, conditional: bool, actions: Actions, h: Headers, k: string, l: string, n: string)
    returns (o: seq<string>, p: seq<string>)
    requires k in actions && l in actions && Clash(http, conditional, actions, h, k, l, n)
    requires !Does(Missed, http, conditional, actions, h, k, n)
    requires conditional ==> ConditionsApart(http, actions)
    ensures Ordering(o, actions.Keys) && Ordering(p, actions.Keys)
    ensures Folded(http, conditional, actions, o, h) != Folded(http, conditional, actions, p, h)
  {
    var rest := SomeOrdering(actions.Keys - {k, l});
    TwoMore(rest, k, l, actions.Keys);
    assert {k, l} == {l, k};
    TwoMore(rest, l, k, actions.Keys);
    o, p := rest + [k, l], rest + [l, k];
    LastTwo(http, conditional, actions, rest, k, l, h, n);
    LastTwo(http, conditional, actions, rest, l, k, h, n);
    var x := At(Folded(http, conditional, actions, rest, h), n);
    assert Effect(http, actions[l], Effect(http, actions[k], x)) !=
           Effect(http, actions[k], Effect(http, actions[l], x));
  }

  lemma ClashMatters(
    http: Http, conditional: bool, actions: Actions, h: Headers, k: string, l: string, n: string)
    returns (o: seq<string>, p: seq<string>)
    requires k in actions && l in actions && Clash(http, conditional, actions, h, k, l, n)
    requires conditional ==> ConditionsApart(http, actions)
    ensures Ordering(o, actions.Keys) && Ordering(p, actions.Keys)
    ensures Folded(http, conditional, actions, o, h) != Folded(http, conditional, actions, p, h)
    decreases Does(Missed, http, conditional, actions, h, k, n)
  {
    if Does(Missed, http, conditional, actions, h, k, n) {
      if d :| d in actions && Does(ForceDelete, http, conditional, actions, h, d, n) {
        o, p := ClashMatters(http, conditional, actions, h, d, k, n);
      } else {
        o, p := FirstMatters(http, conditional, actions, h, k, l, n);
      }
    } else {
      o, p := LastMatters(http, conditional, actions, h, k, l, n);
    }
  }

  // The result is free of the iteration order exactly when no two actions clash.
  lemma OrderIrrelevantExactly(http: Http, conditional: bool, actions: Actions, h: Headers)
    requires conditional ==> ConditionsApart(http, actions)
    ensures ClashFree(http, conditional, actions, h) <==>
            forall o, p :: Ordering(o, actions.Keys) && Ordering(p, actions.Keys) ==>
                             Folded(http, conditional, actions, o, h) == Folded(http, conditional, actions, p, h)
  {
    if ClashFree(http, conditional, actions, h) {
      forall o, p | Ordering(o, actions.Keys) && Ordering(p, actions.Keys)
        ensures Folded(http, conditional, actions, o, h) == Folded(http, conditional, actions, p, h)
      {
        EveryOrderAgrees(http, conditional, actions, o, p, h);
      }
    } else {
      var k, l, n :| k in actions && l in actions && Clash(http, conditional, actions, h, k, l, n);
      var o, p := ClashMatters(http, conditional, actions, h, k, l, n);
    }
  }

  lemma DoneIsClashFree(http: Http, conditional: bool, actions: Actions, o: seq<string>, h: Headers)
    requires Ordering(o, actions.Keys) && (conditional ==> ConditionsApart(http, actions))
    requires ClashFree(http, conditional, actions, h)
    ensures ClashFree(http, conditional, actions, Folded(http, conditional, actions, o, h))
  {
    var once := Folded(http, conditional, actions, o, h);
    DoneKeepsDoes(http, conditional, actions, o, h);
    forall k, l, n | k in actions && l in actions
      ensures !Clash(http, conditional, actions, once, k, l, n)
    {
      assert !Clash(http, conditional, actions, h, k, l, n);
      FoldIsExplained(http, conditional, actions, o, h, n);
      assert k in o && l in o;
    }
  }

  // The outcome explains itself: applying the actions to it changes nothing.
  lemma ExplainedTwice(
    http: Http, conditional: bool, actions: Actions, o: seq<string>, h: Headers, once: Headers, n: string)
    requires Ordering(o, actions.Keys)
    requires Explained(http, conditional, actions, o, h, n, At(once, n))
    requires forall kind, k, n :: k in actions ==>
      (Does(kind, http, conditional, actions, once, k, n) <==> Does(kind, http, conditional, actions, h, k, n))
    ensures Explained(http, conditional, actions, o, once, n, At(once, n))
  {
  }

  // Applying clash-free actions twice, in two orders, is applying them once.
  lemma TwiceIsOnce(http: Http, conditional: bool, actions: Actions, o: seq<string>, p: seq<string>, h: Headers)
    requires Ordering(o, actions.Keys) && Ordering(p, actions.Keys)
    requires ClashFree(http, conditional, actions, h) && (conditional ==> ConditionsApart(http, actions))
    ensures var once := Folded(http, conditional, actions, o, h);
            Folded(http, conditional, actions, p, once) == once
  {
    var once := Folded(http, conditional, actions, o, h);
    var twice := Folded(http, conditional, actions, p, once);
    DoneKeepsDoes(http, conditional, actions, o, h);
    forall n
      ensures At(once, n) == At(twice, n)
    {
      FoldIsExplained(http, conditional, actions, o, h, n);
      DoneIsClashFree(http, conditional, actions, o, h);
      FoldIsExplained(http, conditional, actions, p, once, n);
      ExplainedTwice(http, conditional, actions, o, h, once, n);
      ExplainedOnce(http, conditional, actions, o, p, once, n, At(once, n), At(twice, n));
    }
    SameHeaders(once, twice);
  }

  // The same actions take effect on the outcome as on the incoming headers.
  lemma DoneKeepsDoes(http: Http, conditional: bool, actions: Actions, o: seq<string>, h: Headers)
    requires Ordering(o, actions.Keys) && (conditional ==> ConditionsApart(http, actions))
    ensures var once := Folded(http, conditional, actions, o, h);
            forall kind, k, n :: k in actions ==>
              (Does(kind, http, conditional, actions, once, k, n) <==> Does(kind, http, conditional, actions, h, k, n))
  {
    forall k | k in actions
      ensures conditional ==> (Holds(http, actions[k].condition, Folded(http, conditional, actions, o, h)) <==>
                               Holds(http, actions[k].condition, h))
    {
      StepKeepsConditions(http, conditional, actions, o, h, k);
    }
  }

  // With empty conditions the transformer and the handler do the same, in any orders.
  lemma TransformerIsHandler(http: Http, actions: Actions, o: seq<string>, p: seq<string>, h: Headers)
    requires Ordering(o, actions.Keys) && Ordering(p, actions.Keys) && ClashFree(http, false, actions, h)
    requires forall k <- actions :: actions[k].condition in [None, Some("")]
    ensures Folded(http, true, actions, o, h) == Folded(http, false, actions, p, h)
  {
    AlwaysHolds(http, actions, o, h);
    EveryOrderAgrees(http, false, actions, o, p, h);
  }

  lemma {:induction false} AlwaysHolds(http: Http, actions: Actions, order: seq<string>, h: Headers)
    requires forall k <- order :: k in actions && actions[k].condition in [None, Some("")]
    ensures Folded(http, true, actions, order, h) == Folded(http, false, actions, order, h)
  {
    if order == [] {
    } else {
      assert order[|order| - 1] in order;
      AlwaysHolds(http, actions, order[..|order| - 1], h);
    }
  }

  // Two spellings of one name: overwriting with two valid values, the last one wins.
  lemma SpellingsCollide(http: Http, k: string, l: string, v: string, w: string, h: Headers)
    requires k != l && http.name(k).Some? && http.name(k) == http.name(l)
    requires v != w && http.valid(v) && http.valid(w)
    ensures var actions := map[k := HeaderAction(v, Overwrite, None), l := HeaderAction(w, Overwrite, None)];
            Folded(http, false, actions, [k, l], h) != Folded(http, false, actions, [l, k], h)
  {
    var actions := map[k := HeaderAction(v, Overwrite, None), l := HeaderAction(w, Overwrite, None)];
    var n := http.name(k).value;
    assert [k, l][..1] == [k] && [l, k][..1] == [l] && [k][..0] == [] && [l][..0] == [];
    assert Folded(http, false, actions, [k, l], h)[n] == [w];
    assert Folded(http, false, actions, [l, k], h)[n] == [v];
  }

  // A condition that looks at a header another action sets makes the order visible too:
  // overwrite `x`, and overwrite `y` where `x` is present.
  lemma ConditionsCollide(http: Http, x: string, y: string, v: string, h: Headers)
    requires http.name(x).Some? && http.name(y).Some? && http.name(x) != http.name(y)
    requires x != "" && '=' !in x && http.valid(v)
    requires http.name(x).value !in h && http.name(y).value !in h
    ensures var actions := map[x := HeaderAction(v, Overwrite, None), y := HeaderAction(v, Overwrite, Some(x))];
            && ClashFree(http, true, actions, h)
            && Folded(http, true, actions, [x, y], h) != Folded(http, true, actions, [y, x], h)
  {
    var actions := map[x := HeaderAction(v, Overwrite, None), y := HeaderAction(v, Overwrite, Some(x))];
    var n := http.name(y).value;
    SplitOnceIsFirst(x, '=');
    assert [x, y][..1] == [x] && [y, x][..1] == [y] && [x][..0] == [] && [y][..0] == [];
    assert n in Folded(http, true, actions, [x, y], h);
    assert Folded(http, true, actions, [y], h) == h;
    assert n !in Folded(http, true, actions, [y, x], h);
  }

  class HeaderMap {
    var entries: Headers

    constructor (entries: Headers)
      ensures this.entries == entries
    {
      this.entries := entries;
    }

    method ApplyOne(http: Http, key: string, a: HeaderAction)
      modifies this
      ensures entries == Acted(http, old(entries), key, a)
      ensures http.name(key).None? ==> entries == old(entries)
      ensures http.name(key).Some? ==>
                var n := http.name(key).value;
                && (forall m :: m != n ==> At(entries, m) == At(old(entries), m))
                && (a.kind.ForceDelete? ==> n !in entries)
                && (a.kind.Overwrite? && http.valid(a.value) ==> At(entries, n) == Some([a.value]))
                && (a.kind.Missed? && http.valid(a.value) && n !in old(entries) ==> At(entries, n) == Some([a.value]))
                && (a.kind.Missed? && n in old(entries) ==> At(entries, n) == At(old(entries), n))
                && (!a.kind.ForceDelete? && !http.valid(a.value) ==> At(entries, n) == At(old(entries), n))
    {
      var name := http.name(key);
      if name.None? {
        return;
      }
      match a.kind
      case Overwrite =>
        if http.valid(a.value) {
          entries := entries[name.value := [a.value]];
        }
      case Missed =>
        if name.value !in entries && http.valid(a.value) {
          entries := entries[name.value := [a.value]];
        }
      case ForceDelete =>
        entries := entries - {name.value};
    }

    // evaluate_condition.
    method EvaluateCondition(http: Http, condition: Option<string>) returns (holds: bool)
      ensures holds <==> Holds(http, condition, entries)
    {
      if condition.None? || condition.value == "" {
        return true;
      }
      var pair := SplitOnce(condition.value, '=');
      if pair.None? {
        var name := http.name(condition.value);
        return name.Some? && name.value in entries;
      }
      var (key, expected) := pair.value;
      var name := http.name(key);
      if name.None? || name.value !in entries || entries[name.value] == [] {
        return false;
      }
      var text := http.text(entries[name.value][0]);
      return (if text.Some? then text.value else "") == expected;
    }

    // Both loops: whichever order the map yields, the result is the fold over that order,
    // which the lemmas above show not to matter.
    method Apply(http: Http, conditional: bool, actions: Actions) returns (ghost order: seq<string>)
      modifies this
      ensures Ordering(order, actions.Keys)
      ensures entries == Folded(http, conditional, actions, order, old(entries))
    {
      order := [];
      var pending := actions.Keys;
      while exists k :: k in pending
        invariant pending <= actions.Keys
        invariant forall k :: k in order <==> k in actions && k !in pending
        invariant forall i, j :: 0 <= i < j < |order| ==> order[i] != order[j]
        invariant entries == Folded(http, conditional, actions, order, old(entries))
        decreases |pending|
      {
        var k :| k in pending;
        ghost var next := order + [k];
        assert next[..|next| - 1] == order;
        var applies := true;
        if conditional {
          applies := EvaluateCondition(http, actions[k].condition);
        }
        if applies {
          ApplyOne(http, k, actions[k]);
        }
        order := next;
        pending := pending - {k};
      }
    }
  }
}
