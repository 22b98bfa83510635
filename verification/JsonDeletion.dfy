// What deleting a path means, and its laws (mystiproxy/src/http/body.rs).
module JsonDeletion {
  import opened Basics
  import opened JsonPaths

  // What the last part of a path names: an object field, or indices into one array.
  datatype Target = FieldTarget(name: string) | ArrayTarget(pieces: seq<Step>)

  function WithoutItem(items: seq<Json>, i: nat): seq<Json>
    requires i < |items|
  {
    items[..i] + items[i + 1..]
  }

  // Every index removes from the same array; out of range removes nothing.
  function RemoveItems(d: Json, pieces: seq<Step>): Outcome
    decreases |pieces|
  {
    if pieces == [] then Outcome(d, None)
    else
      match pieces[0]
      case Index(i) =>
        if !d.Arr? then Outcome(d, Some(NotAnArray))
        else RemoveItems(if i < |d.items| then Arr(WithoutItem(d.items, i)) else d, pieces[1..])
      case _ => Outcome(d, Some(InvalidIndex))
  }

  function DeleteHere(d: Json, t: Target): Outcome {
    match t
    case FieldTarget(n) => Outcome(if d.Obj? then Obj(d.fields - {n}) else d, None)
    case ArrayTarget(pieces) => RemoveItems(d, pieces)
  }

  function Delete(d: Json, parent: Path, t: Target): Outcome {
    match Get(d, parent)
    case Err(e) => Outcome(d, Some(e))
    case Ok(x) =>
      var r := DeleteHere(x, t);
      Outcome(Set(d, parent, r.doc).doc, r.error)
  }

  lemma SamePathReflexive(p: Path)
    ensures SamePath(p, p)
  {
  }

  lemma DeleteAtParent(d: Json, parent: Path, t: Target, same: Path)
    requires Get(d, parent).Ok? && SamePath(parent, same)
    ensures Get(Delete(d, parent, t).doc, same) == Ok(DeleteHere(Get(d, parent).value, t).doc)
  {
    var x := DeleteHere(Get(d, parent).value, t).doc;
    SetSucceedsWhereGetDoes(d, parent, x);
    SetThenGet(d, parent, x, same);
  }

  // Where a field is deleted: out of its parent when that is an object, and nowhere, without
  // an error, when it is not. A parent that does not resolve is the only error.
  lemma FieldDeleteExactly(d: Json, parent: Path, n: string)
    ensures var r := Delete(d, parent, FieldTarget(n));
            match Get(d, parent)
            case Err(e) => r == Outcome(d, Some(e))
            case Ok(x) =>
              && r.error == None
              && Get(r.doc, parent) ==
                 Ok(if x.Obj? then Obj(map m | m in x.fields && m != n :: x.fields[m]) else x)
  {
    if Get(d, parent).Ok? {
      var x := Get(d, parent).value;
      SamePathReflexive(parent);
      DeleteAtParent(d, parent, FieldTarget(n), parent);
      assert x.Obj? ==> x.fields - {n} == map m | m in x.fields && m != n :: x.fields[m];
    }
  }

  // What one bracket deletes: the element, or nothing when it is out of range; no array and no
  // index are errors.
  lemma BracketDeleteExactly(d: Json, parent: Path, s: Step)
    requires !s.Field? && Get(d, parent).Ok?
    ensures var r, x := Delete(d, parent, ArrayTarget([s])), Get(d, parent).value;
            if s.BadIndex? then r == Outcome(d, Some(InvalidIndex))
            else if !x.Arr? then r == Outcome(d, Some(NotAnArray))
            else
              r.error == None
              && Get(r.doc, parent) == Ok(if s.i < |x.items| then Arr(x.items[..s.i] + x.items[s.i + 1..]) else x)
  {
    var x := Get(d, parent).value;
    SamePathReflexive(parent);
    DeleteAtParent(d, parent, ArrayTarget([s]), parent);
    SetWhatIsThere(d, parent);
    OneBracketRemoves(x, s);
  }

  lemma OneBracketRemoves(x: Json, s: Step)
    requires !s.Field?
    ensures RemoveItems(x, [s]) ==
            if s.BadIndex? then Outcome(x, Some(InvalidIndex))
            else if !x.Arr? then Outcome(x, Some(NotAnArray))
            else Outcome(if s.i < |x.items| then Arr(x.items[..s.i] + x.items[s.i + 1..]) else x, None)
  {
    assert [s][1..] == [];
  }

  lemma {:induction false} RemoveInTurn(x: Json, a: seq<Step>, b: seq<Step>)
    ensures var first := RemoveItems(x, a);
            RemoveItems(x, a + b) == if first.error.Some? then first else RemoveItems(first.doc, b)
    decreases |a|
  {
    if a == [] {
      assert a + b == b;
    } else {
      assert (a + b)[1..] == a[1..] + b;
      if a[0].Index? && x.Arr? {
        RemoveInTurn(if a[0].i < |x.items| then Arr(WithoutItem(x.items, a[0].i)) else x, a[1..], b);
      }
    }
  }

  // Several brackets delete one after the other, each from what the ones before have left,
  // until one fails. A parent that does not resolve is an error before any of them.
  lemma BracketsDeleteInTurn(d: Json, parent: Path, a: seq<Step>, b: seq<Step>)
    ensures var first := Delete(d, parent, ArrayTarget(a));
            Delete(d, parent, ArrayTarget(a + b)) ==
            if first.error.Some? then first else Delete(first.doc, parent, ArrayTarget(b))
    ensures Get(d, parent).Err? ==> Delete(d, parent, ArrayTarget(a)) == Outcome(d, Some(Get(d, parent).error))
    ensures Delete(d, parent, ArrayTarget([])).doc == d
  {
    if Get(d, parent).Ok? {
      var x := Get(d, parent).value;
      RemoveInTurn(x, a, b);
      SamePathReflexive(parent);
      DeleteAtParent(d, parent, ArrayTarget(a), parent);
      SetWhatIsThere(d, parent);
      SetTwice(d, parent, RemoveItems(x, a).doc, RemoveItems(x, a + b).doc);
    }
  }

  // After a successful field delete the field does not resolve.
  lemma FieldIsGone(d: Json, parent: Path, n: string, k: Kind)
    requires Delete(d, parent, FieldTarget(n)).error.None?
    ensures ValueAt(Delete(d, parent, FieldTarget(n)).doc, parent + [Field(n, k)]) == None
  {
    var e := Delete(d, parent, FieldTarget(n)).doc;
    SamePathReflexive(parent);
    DeleteAtParent(d, parent, FieldTarget(n), parent);
    GetThrough(e, parent, [Field(n, k)]);
  }

  lemma {:induction false} GetOnSamePath(d: Json, p: Path, q: Path)
    requires SamePath(p, q)
    ensures Get(d, p) == Get(d, q)
  {
    if p == [] {
    } else {
      assert SamePlace(p[0], q[0]);
      match p[0] {
        case Field(n, _) => if d.Obj? && n in d.fields { GetOnSamePath(d.fields[n], p[1..], q[1..]); }
        case Index(i) => if d.Arr? && i < |d.items| { GetOnSamePath(d.items[i], p[1..], q[1..]); }
        case BadIndex =>
      }
    }
  }

  // A path that diverges from one step below a parent either diverges from the parent or
  // leaves it by another step.
  lemma {:induction false} DivergeBelow(parent: Path, s: Step, q: Path)
    requires Diverge(parent + [s], q)
    ensures Diverge(parent, q) ||
            (|q| > |parent| && SamePath(parent, q[..|parent|]) && !SamePlace(s, q[|parent|]))
  {
    if parent == [] {
    } else {
      assert (parent + [s])[1..] == parent[1..] + [s];
      if SamePlace(parent[0], q[0]) {
        DivergeBelow(parent[1..], s, q[1..]);
        if !Diverge(parent[1..], q[1..]) {
          assert q[1..][..|parent| - 1] == q[..|parent|][1..];
          forall i | 0 <= i < |parent|
            ensures SamePlace(parent[i], q[i])
          {
            if i > 0 {
              assert SamePlace(parent[1..][i - 1], q[1..][i - 1]);
            }
          }
        }
      }
    }
  }

  // Frame of a field delete: every path that diverges from the deleted field.
  lemma FieldDeleteLeavesDivergingPaths(d: Json, parent: Path, n: string, k: Kind, q: Path)
    requires Diverge(parent + [Field(n, k)], q)
    ensures ValueAt(Delete(d, parent, FieldTarget(n)).doc, q) == ValueAt(d, q)
  {
    if Get(d, parent).Ok? {
      var e := Delete(d, parent, FieldTarget(n)).doc;
      DivergeBelow(parent, Field(n, k), q);
      if Diverge(parent, q) {
        SetLeavesDivergingPaths(d, parent, DeleteHere(Get(d, parent).value, FieldTarget(n)).doc, q);
      } else {
        var head, tail := q[..|parent|], q[|parent|..];
        assert q == head + tail;
        DeleteAtParent(d, parent, FieldTarget(n), head);
        GetOnSamePath(d, parent, head);
        GetThrough(d, head, tail);
        GetThrough(e, head, tail);
      }
    }
  }

  // Frame of an array delete, whatever its indices: every path that diverges from the array.
  lemma ArrayDeleteLeavesDivergingPaths(d: Json, parent: Path, pieces: seq<Step>, q: Path)
    requires Diverge(parent, q)
    ensures ValueAt(Delete(d, parent, ArrayTarget(pieces)).doc, q) == ValueAt(d, q)
  {
    if Get(d, parent).Ok? {
      SetLeavesDivergingPaths(d, parent, DeleteHere(Get(d, parent).value, ArrayTarget(pieces)).doc, q);
    }
  }

  // Deleting one index in range removes that element and shifts the later ones down by
  // one: below the array, place j is afterwards what place j or j + 1 was before.
  lemma ElementIsRemovedAndOthersShift(d: Json, parent: Path, i: nat, j: nat, below: Path)
    requires Get(d, parent).Ok? && Get(d, parent).value.Arr? && i < |Get(d, parent).value.items|
    ensures var r := Delete(d, parent, ArrayTarget([Index(i)]));
            && r.error == None
            && ValueAt(r.doc, parent + [Index(j)] + below) ==
               ValueAt(d, parent + [Index(if j < i then j else j + 1)] + below)
  {
    var t, x := ArrayTarget([Index(i)]), Get(d, parent).value;
    RemoveOne(x, i);
    SamePathReflexive(parent);
    DeleteAtParent(d, parent, t, parent);
    ValueBelow(Delete(d, parent, t).doc, parent, j, below);
    ValueBelow(d, parent, if j < i then j else j + 1, below);
  }

  lemma RemoveOne(x: Json, i: nat)
    requires x.Arr? && i < |x.items|
    ensures RemoveItems(x, [Index(i)]) == Outcome(Arr(WithoutItem(x.items, i)), None)
  {
    assert [Index(i)][1..] == [];
  }

  lemma ValueBelow(d: Json, parent: Path, j: nat, below: Path)
    requires Get(d, parent).Ok? && Get(d, parent).value.Arr?
    ensures var items := Get(d, parent).value.items;
            ValueAt(d, parent + [Index(j)] + below) == if j < |items| then ValueAt(items[j], below) else None
  {
    assert parent + [Index(j)] + below == parent + ([Index(j)] + below);
    GetThrough(d, parent, [Index(j)] + below);
    assert ([Index(j)] + below)[1..] == below;
  }

  // An index of the last part that is in range before any bracket of it is invalid.
  predicate RemovesBeforeFailing(x: Json, t: Target) {
    && t.ArrayTarget? && x.Arr?
    && exists j :: && 0 <= j < |t.pieces|
                   && (forall m :: 0 <= m <= j ==> t.pieces[m].Index?)
                   && t.pieces[j].i < |x.items|
  }

  lemma {:induction false} RemovalShrinks(d: Json, pieces: seq<Step>)
    requires d.Arr?
    ensures RemoveItems(d, pieces).doc.Arr? && |RemoveItems(d, pieces).doc.items| <= |d.items|
    ensures |RemoveItems(d, pieces).doc.items| < |d.items| <==> RemovesBeforeFailing(d, ArrayTarget(pieces))
    ensures |RemoveItems(d, pieces).doc.items| == |d.items| ==> RemoveItems(d, pieces).doc == d
    decreases |pieces|
  {
    if pieces == [] {
    } else if pieces[0].Index? {
      var i, rest := pieces[0].i, pieces[1..];
      if i < |d.items| {
        RemovalShrinks(Arr(WithoutItem(d.items, i)), rest);
        assert RemovesBeforeFailing(d, ArrayTarget(pieces)) by {
          assert pieces[0].i < |d.items|;
        }
      } else {
        RemovalShrinks(d, rest);
        if RemovesBeforeFailing(d, ArrayTarget(pieces)) {
          var j :| 0 <= j < |pieces| && (forall m :: 0 <= m <= j ==> pieces[m].Index?) && pieces[j].i < |d.items|;
          assert forall m :: 0 <= m <= j - 1 ==> rest[m] == pieces[m + 1];
          assert rest[j - 1].i < |d.items|;
        }
        if RemovesBeforeFailing(d, ArrayTarget(rest)) {
          var j :| 0 <= j < |rest| && (forall m :: 0 <= m <= j ==> rest[m].Index?) && rest[j].i < |d.items|;
          assert forall m :: 1 <= m <= j + 1 ==> pieces[m] == rest[m - 1];
          assert pieces[j + 1].i < |d.items|;
        }
      }
    } else {
      assert !RemovesBeforeFailing(d, ArrayTarget(pieces));
    }
  }

  // A failed delete leaves the document as it was exactly when no earlier index of its
  // last part was in range; with at most one index that is always so.
  lemma FailedDeleteChangesExactly(d: Json, parent: Path, t: Target)
    requires Delete(d, parent, t).error.Some?
    ensures Delete(d, parent, t).doc == d <==>
            !(Get(d, parent).Ok? && RemovesBeforeFailing(Get(d, parent).value, t))
    ensures t.ArrayTarget? && |t.pieces| <= 1 ==> Delete(d, parent, t).doc == d
  {
    if Get(d, parent).Ok? {
      var x := Get(d, parent).value;
      SamePathReflexive(parent);
      DeleteAtParent(d, parent, t, parent);
      SetWhatIsThere(d, parent);
      if t.ArrayTarget? && x.Arr? {
        RemovalShrinks(x, t.pieces);
        assert |t.pieces| == 1 ==> t.pieces[1..] == [];
      }
    }
  }

  lemma TwoIndicesFailAfterRemoving()
    ensures var d := Arr([Null]);
            Delete(d, [], ArrayTarget([Index(0), BadIndex])) == Outcome(Arr([]), Some(InvalidIndex))
  {
    var pieces := [Index(0), BadIndex];
    assert pieces[1..] == [BadIndex];
    assert WithoutItem([Null], 0) == [];
  }

  // Deleting undoes the set that created the field.
  lemma DeleteUndoesSet(d: Json, parent: Path, n: string, k: Kind, v: Json)
    requires Get(d, parent).Ok? && Get(d, parent).value.Obj? && n !in Get(d, parent).value.fields
    ensures Delete(Set(d, parent + [Field(n, k)], v).doc, parent, FieldTarget(n)) == Outcome(d, None)
  {
    var x := Get(d, parent).value;
    var y := Obj(x.fields[n := v]);
    assert Set(x, [Field(n, k)], v) == Outcome(y, None) by {
      assert [Field(n, k)][1..] == [];
    }
    SetThrough(d, parent, [Field(n, k)], v);
    SamePathReflexive(parent);
    SetSucceedsWhereGetDoes(d, parent, y);
    SetThenGet(d, parent, y, parent);
    assert y.fields - {n} == x.fields;
    SetTwice(d, parent, y, x);
    SetWhatIsThere(d, parent);
  }
}
