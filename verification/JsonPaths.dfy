// JSON documents and the path operations on them: what get, set and delete mean once a
// path is normalised to steps (mystiproxy/src/http/body.rs, mystiproxy/src/mock/mod.rs).
module JsonPaths {
  import opened Basics

  datatype Json =
    | Null
    | Bool(b: bool)
    | Num(text: string)
    | Str(s: string)
    | Arr(items: seq<Json>)
    | Obj(fields: map<string, Json>)
  {
    predicate Scalar() {
      !Arr? && !Obj?
    }
  }

  // The container a set creates for a field that is missing.
  datatype Kind = ObjectKind | ArrayKind

  // BadIndex stands for a bracket whose text is no array index.
  datatype Step = Field(name: string, creates: Kind) | Index(i: nat) | BadIndex

  type Path = seq<Step>

  datatype JsonError = NotAnObject | NoSuchField(name: string) | InvalidIndex | OutOfBounds(i: nat) | NotAnArray
    | MalformedPath

  function Empty(k: Kind): Json {
    if k == ObjectKind then Obj(map[]) else Arr([])
  }

  // The reader: the first failing step decides.
  function Get(d: Json, p: Path): Result<Json, JsonError> {
    if p == [] then Ok(d)
    else
      match p[0]
      case Field(n, _) =>
        if !d.Obj? then Err(NotAnObject)
        else if n !in d.fields then Err(NoSuchField(n))
        else Get(d.fields[n], p[1..])
      case Index(i) =>
        if !d.Arr? then Err(NotAnArray)
        else if i >= |d.items| then Err(OutOfBounds(i))
        else Get(d.items[i], p[1..])
      case BadIndex => Err(InvalidIndex)
  }

  // `x` stands one step below `d`.
  predicate Below(d: Json, s: Step, x: Json) {
    match s
    case Field(n, _) => d.Obj? && n in d.fields && d.fields[n] == x
    case Index(i) => d.Arr? && i < |d.items| && d.items[i] == x
    case BadIndex => false
  }

  // The values met on the way from `d` along `p`, both ends included.
  predicate Walk(ds: seq<Json>, d: Json, p: Path) {
    && |ds| == |p| + 1 && ds[0] == d
    && forall i :: 0 <= i < |p| ==> Below(ds[i], p[i], ds[i + 1])
  }

  lemma {:induction false} WalkReads(ds: seq<Json>, d: Json, p: Path)
    requires Walk(ds, d, p)
    ensures Get(d, p) == Ok(ds[|p|])
  {
    if p == [] {
    } else {
      assert Below(ds[0], p[0], ds[1]);
      WalkReads(ds[1..], ds[1], p[1..]);
    }
  }

  lemma {:induction false} ReadWalks(d: Json, p: Path) returns (ds: seq<Json>)
    requires Get(d, p).Ok?
    ensures Walk(ds, d, p) && ds[|p|] == Get(d, p).value
  {
    if p == [] {
      ds := [d];
    } else {
      var x := match p[0] case Field(n, _) => d.fields[n] case Index(i) => d.items[i] case BadIndex => d;
      var rest := ReadWalks(x, p[1..]);
      ds := [d] + rest;
      forall i | 0 <= i < |p|
        ensures Below(ds[i], p[i], ds[i + 1])
      {
        if i > 0 {
          assert Below(rest[i - 1], p[1..][i - 1], rest[i]);
        }
      }
    }
  }

  // The reader finds a value exactly where a walk of single steps leads to it.
  lemma GetIsAWalk(d: Json, p: Path, v: Json)
    ensures Get(d, p) == Ok(v) <==> exists ds :: Walk(ds, d, p) && ds[|p|] == v
  {
    if Get(d, p) == Ok(v) {
      var ds := ReadWalks(d, p);
    }
    forall ds | Walk(ds, d, p)
      ensures Get(d, p) == Ok(ds[|p|])
    {
      WalkReads(ds, d, p);
    }
  }

  // Why one step fails.
  predicate Fails(d: Json, s: Step, e: JsonError) {
    match s
    case Field(n, _) => if d.Obj? then n !in d.fields && e == NoSuchField(n) else e == NotAnObject
    case Index(i) => if d.Arr? then i >= |d.items| && e == OutOfBounds(i) else e == NotAnArray
    case BadIndex => e == InvalidIndex
  }

  predicate FailsAt(d: Json, p: Path, j: nat, e: JsonError)
    requires j < |p|
  {
    Get(d, p[..j]).Ok? && Fails(Get(d, p[..j]).value, p[j], e)
  }

  // Its error is that of the first step that leads nowhere.
  lemma {:induction false} GetFailsExactly(d: Json, p: Path, e: JsonError)
    ensures Get(d, p) == Err(e) <==> exists j :: 0 <= j < |p| && FailsAt(d, p, j, e)
    decreases |p|
  {
    if p == [] {
    } else {
      assert p[..0] == [] && FailsAt(d, p, 0, e) == Fails(d, p[0], e);
      assert p[..1][1..] == [];
      if Get(d, p[..1]).Ok? {
        var x := Get(d, p[..1]).value;
        GetFailsExactly(x, p[1..], e);
        FailsBelow(d, p, e);
      } else {
        FirstStepBlocks(d, p);
        assert Get(d, p) == Err(e) <==> FailsAt(d, p, 0, e);
      }
    }
  }

  lemma FirstStepBlocks(d: Json, p: Path)
    requires p != [] && Get(d, p[..1]).Err?
    ensures forall j :: 0 < j <= |p| ==> Get(d, p[..j]) == Get(d, p[..1])
    ensures Get(d, p) == Get(d, p[..1])
  {
    assert p[..1][1..] == [];
    forall j | 0 < j <= |p|
      ensures Get(d, p[..j]) == Get(d, p[..1])
    {
      assert p[..j][0] == p[0];
    }
    assert p[..|p|] == p;
  }

  lemma FailsBelow(d: Json, p: Path, e: JsonError)
    requires p != [] && Get(d, p[..1]).Ok?
    ensures var x := Get(d, p[..1]).value;
            && Get(d, p) == Get(x, p[1..])
            && ((exists j :: 0 <= j < |p| && FailsAt(d, p, j, e)) <==>
                exists j :: 0 <= j < |p| - 1 && FailsAt(x, p[1..], j, e))
  {
    var x, q := Get(d, p[..1]).value, p[1..];
    assert p[..1][1..] == [] && p[..0] == [];
    assert !FailsAt(d, p, 0, e);
    forall j | 0 < j < |p|
      ensures FailsAt(d, p, j, e) <==> FailsAt(x, q, j - 1, e)
    {
      assert p[..j][1..] == q[..j - 1];
    }
    if j :| 0 <= j < |q| && FailsAt(x, q, j, e) {
      assert FailsAt(d, p, j + 1, e);
    }
  }

  // The document a mutation leaves, and its error; an error may come after a change.
  datatype Outcome = Outcome(doc: Json, error: Option<JsonError>)

  function Set(d: Json, p: Path, v: Json): Outcome
    decreases |p|
  {
    if p == [] then Outcome(v, None)
    else
      match p[0]
      case Field(n, k) =>
        if !d.Obj? then Outcome(d, Some(NotAnObject))
        else
          var child := if n in d.fields then d.fields[n] else Empty(k);
          var r := Set(child, p[1..], v);
          Outcome(Obj(d.fields[n := r.doc]), r.error)
      case Index(i) =>
        if !d.Arr? then Outcome(d, Some(NotAnArray))
        else if i >= |d.items| then Outcome(d, Some(OutOfBounds(i)))
        else
          var r := Set(d.items[i], p[1..], v);
          Outcome(Arr(d.items[i := r.doc]), r.error)
      case BadIndex => Outcome(d, Some(InvalidIndex))
  }

  // Two steps name the same place; what a field creates when missing does not matter.
  predicate SamePlace(a: Step, b: Step) {
    match a
    case Field(n, _) => b.Field? && b.name == n
    case Index(i) => b.Index? && b.i == i
    case BadIndex => b.BadIndex?
  }

  // The paths part ways at some step before either ends.
  predicate Diverge(p: Path, q: Path) {
    p != [] && q != [] && (!SamePlace(p[0], q[0]) || Diverge(p[1..], q[1..]))
  }

  predicate SamePath(p: Path, q: Path) {
    |p| == |q| && forall i :: 0 <= i < |p| ==> SamePlace(p[i], q[i])
  }

  // Put-get: what a successful set stored, the reader finds.
  lemma {:induction false} SetThenGet(d: Json, p: Path, v: Json, q: Path)
    requires Set(d, p, v).error.None? && SamePath(p, q)
    ensures Get(Set(d, p, v).doc, q) == Ok(v)
    decreases |p|
  {
    if p == [] {
    } else {
      match p[0] {
        case Field(n, k) =>
          assert SamePlace(p[0], q[0]);
          SetThenGet(if n in d.fields then d.fields[n] else Empty(k), p[1..], v, q[1..]);
        case Index(i) =>
          assert SamePlace(p[0], q[0]);
          SetThenGet(d.items[i], p[1..], v, q[1..]);
        case BadIndex =>
      }
    }
  }

  // Put-put: the second set gives the document and the error it would have given alone,
  // whether or not the first one succeeded.
  lemma {:induction false} SetTwice(d: Json, p: Path, v: Json, w: Json)
    ensures Set(Set(d, p, v).doc, p, w) == Set(d, p, w)
    decreases |p|
  {
    if p == [] {
    } else {
      match p[0] {
        case Field(n, k) =>
          if d.Obj? {
            var child := if n in d.fields then d.fields[n] else Empty(k);
            SetTwice(child, p[1..], v, w);
            assert d.fields[n := Set(child, p[1..], v).doc][n := Set(child, p[1..], w).doc] ==
                   d.fields[n := Set(child, p[1..], w).doc];
          }
        case Index(i) =>
          if d.Arr? && i < |d.items| {
            SetTwice(d.items[i], p[1..], v, w);
            assert d.items[i := Set(d.items[i], p[1..], v).doc][i := Set(d.items[i], p[1..], w).doc] ==
                   d.items[i := Set(d.items[i], p[1..], w).doc];
          }
        case BadIndex =>
      }
    }
  }

  // Get-put: setting a place to the value it has changes nothing.
  lemma {:induction false} SetWhatIsThere(d: Json, p: Path)
    requires Get(d, p).Ok?
    ensures Set(d, p, Get(d, p).value) == Outcome(d, None)
  {
    if p == [] {
    } else {
      match p[0] {
        case Field(n, _) =>
          SetWhatIsThere(d.fields[n], p[1..]);
          assert d.fields[n := d.fields[n]] == d.fields;
        case Index(i) =>
          SetWhatIsThere(d.items[i], p[1..]);
        case BadIndex =>
      }
    }
  }

  // Whether a set succeeds does not depend on the value, and it succeeds wherever the
  // reader does.
  lemma {:induction false} SetSucceedsWhereGetDoes(d: Json, p: Path, v: Json)
    ensures Get(d, p).Ok? ==> Set(d, p, v).error.None?
  {
    if p == [] {
    } else if Get(d, p).Ok? {
      match p[0] {
        case Field(n, _) => SetSucceedsWhereGetDoes(d.fields[n], p[1..], v);
        case Index(i) => SetSucceedsWhereGetDoes(d.items[i], p[1..], v);
        case BadIndex =>
      }
    }
  }

  // Plain object fields from here to the end.
  predicate PlainTail(p: Path) {
    p != [] && p[0].Field? && (|p| == 1 || (p[0].creates == ObjectKind && PlainTail(p[1..])))
  }

  lemma {:induction false} SetInEmpty(k: Kind, p: Path, v: Json)
    ensures Set(Empty(k), p, v).error.None? <==> p == [] || (k == ObjectKind && PlainTail(p))
    decreases |p|
  {
    if p != [] && p[0].Field? && k == ObjectKind {
      SetInEmpty(p[0].creates, p[1..], v);
    }
  }

  // The first missing place of `p` is step `j`: an absent field of an object.
  predicate MissingFieldAt(d: Json, p: Path, j: nat)
    requires j < |p|
  {
    && p[j].Field? && Get(d, p[..j]).Ok?
    && Get(d, p[..j]).value.Obj? && p[j].name !in Get(d, p[..j]).value.fields
  }

  // A set succeeds exactly where the path resolves, or where what is missing of it starts
  // at an absent field and is plain object fields to the end.
  lemma {:induction false} SetSucceedsExactly(d: Json, p: Path, v: Json)
    ensures Set(d, p, v).error.None? <==>
            Get(d, p).Ok? || exists j :: 0 <= j < |p| && MissingFieldAt(d, p, j) && PlainTail(p[j..])
    decreases |p|
  {
    if p == [] {
    } else if p[0].Field? && d.Obj? && p[0].name !in d.fields {
      SetInEmpty(p[0].creates, p[1..], v);
      assert MissingFieldAt(d, p, 0) && p[0..] == p;
      OnlyFirstMissing(d, p);
    } else if Get(d, p[..1]).Ok? {
      var x := Get(d, p[..1]).value;
      assert p[..1][1..] == [];
      SetSucceedsExactly(x, p[1..], v);
      MissingBelow(d, p);
    } else {
      OnlyFirstMissing(d, p);
    }
  }

  lemma OnlyFirstMissing(d: Json, p: Path)
    requires p != [] && Get(d, p[..1]).Err?
    ensures forall j :: 0 < j < |p| ==> !MissingFieldAt(d, p, j)
    ensures Get(d, p).Err?
  {
    forall j | 0 < j < |p|
      ensures Get(d, p[..j]).Err?
    {
      assert p[..j][0] == p[0];
    }
  }

  // Below a first step that resolves, the same places are missing.
  lemma MissingBelow(d: Json, p: Path)
    requires p != [] && Get(d, p[..1]).Ok?
    ensures var x := Get(d, p[..1]).value;
            && Get(d, p) == Get(x, p[1..]) && !MissingFieldAt(d, p, 0)
            && forall j :: 0 < j < |p| ==>
                 (MissingFieldAt(d, p, j) <==> MissingFieldAt(x, p[1..], j - 1)) && p[j..] == p[1..][j - 1..]
  {
    assert p[..1][1..] == [];
    forall j | 0 < j < |p|
      ensures MissingFieldAt(d, p, j) <==> MissingFieldAt(Get(d, p[..1]).value, p[1..], j - 1)
    {
      assert p[..j][1..] == p[1..][..j - 1];
    }
  }

  function ValueAt(d: Json, q: Path): Option<Json> {
    if Get(d, q).Ok? then Some(Get(d, q).value) else None
  }

  lemma DivergeFromEmpty(k: Kind, q: Path)
    requires q != []
    ensures ValueAt(Empty(k), q) == None
  {
  }

  // Frame: a set, failed or not, leaves every diverging path as it was, resolving to the
  // same value or to none.
  lemma {:induction false} SetLeavesDivergingPaths(d: Json, p: Path, v: Json, q: Path)
    requires Diverge(p, q)
    ensures ValueAt(Set(d, p, v).doc, q) == ValueAt(d, q)
    decreases |p|
  {
    match p[0] {
      case Field(n, k) =>
        if d.Obj? && q[0].Field? && q[0].name == n {
          var child := if n in d.fields then d.fields[n] else Empty(k);
          SetLeavesDivergingPaths(child, p[1..], v, q[1..]);
          if n !in d.fields {
            DivergeFromEmpty(k, q[1..]);
          }
        }
      case Index(i) =>
        if d.Arr? && i < |d.items| && q[0].Index? && q[0].i == i {
          SetLeavesDivergingPaths(d.items[i], p[1..], v, q[1..]);
        }
      case BadIndex =>
    }
  }

  // Containers all the way down.
  predicate Hollow(d: Json) {
    d == Arr([]) || (d.Obj? && forall n <- d.fields :: Hollow(d.fields[n]))
  }

  // `e` is `d` with hollow containers added under field names that were absent.
  predicate Grown(d: Json, e: Json) {
    match d
    case Obj(fields) =>
      && e.Obj?
      && (forall n <- fields :: n in e.fields && Grown(fields[n], e.fields[n]))
      && (forall n <- e.fields :: n in fields || Hollow(e.fields[n]))
    case Arr(items) =>
      e.Arr? && |e.items| == |items| && forall i :: 0 <= i < |items| ==> Grown(items[i], e.items[i])
    case _ => e == d
  }

  lemma {:induction false} GrownReflexive(d: Json)
    ensures Grown(d, d)
  {
    match d
    case Obj(fields) =>
      forall n | n in fields
        ensures Grown(fields[n], fields[n])
      {
        GrownReflexive(fields[n]);
      }
    case Arr(items) =>
      forall i | 0 <= i < |items|
        ensures Grown(items[i], items[i])
      {
        GrownReflexive(items[i]);
      }
    case _ =>
  }

  lemma {:induction false} HollowStaysHollow(k: Kind, p: Path, v: Json)
    requires Set(Empty(k), p, v).error.Some?
    ensures Hollow(Set(Empty(k), p, v).doc)
    decreases |p|
  {
    assert Hollow(Empty(k));
    if p != [] && p[0].Field? && k == ObjectKind {
      HollowStaysHollow(p[0].creates, p[1..], v);
    }
  }

  // A set that fails only adds hollow containers under absent names.
  lemma {:induction false} FailedSetOnlyGrows(d: Json, p: Path, v: Json)
    requires Set(d, p, v).error.Some?
    ensures Grown(d, Set(d, p, v).doc)
  {
    GrownReflexive(d);
    match p[0] {
      case Field(n, k) =>
        if d.Obj? {
          if n in d.fields {
            FailedSetOnlyGrows(d.fields[n], p[1..], v);
          } else {
            HollowStaysHollow(k, p[1..], v);
          }
        }
      case Index(i) =>
        if d.Arr? && i < |d.items| {
          FailedSetOnlyGrows(d.items[i], p[1..], v);
        }
      case BadIndex =>
    }
  }

  lemma {:induction false} HollowHasNoScalars(d: Json, q: Path)
    requires Hollow(d)
    ensures Get(d, q).Ok? ==> !Get(d, q).value.Scalar()
  {
    if q != [] && q[0].Field? && d.Obj? && q[0].name in d.fields {
      HollowHasNoScalars(d.fields[q[0].name], q[1..]);
    }
  }

  // Growth neither loses, changes nor adds a scalar anywhere.
  lemma {:induction false} GrownKeepsScalars(d: Json, e: Json, q: Path, s: Json)
    requires Grown(d, e) && s.Scalar()
    ensures ValueAt(d, q) == Some(s) <==> ValueAt(e, q) == Some(s)
  {
    if q == [] {
    } else {
      match q[0] {
        case Field(n, _) =>
          if d.Obj? && n in d.fields {
            GrownKeepsScalars(d.fields[n], e.fields[n], q[1..], s);
          } else if d.Obj? && n in e.fields {
            HollowHasNoScalars(e.fields[n], q[1..]);
          }
        case Index(i) =>
          if d.Arr? && i < |d.items| {
            GrownKeepsScalars(d.items[i], e.items[i], q[1..], s);
          }
        case BadIndex =>
      }
    }
  }

  // So after a failed set exactly the scalars that resolved before still resolve.
  lemma FailedSetKeepsScalars(d: Json, p: Path, v: Json, q: Path, s: Json)
    requires Set(d, p, v).error.Some? && s.Scalar()
    ensures ValueAt(d, q) == Some(s) <==> ValueAt(Set(d, p, v).doc, q) == Some(s)
  {
    FailedSetOnlyGrows(d, p, v);
    GrownKeepsScalars(d, Set(d, p, v).doc, q, s);
  }

  // A failed set changes the document exactly when a field on the way is missing from the
  // object it should be in.
  lemma {:induction false} FailedSetChangesExactly(d: Json, p: Path, v: Json)
    requires Set(d, p, v).error.Some?
    ensures Set(d, p, v).doc == d <==> !exists j :: 0 <= j < |p| && MissingFieldAt(d, p, j)
    decreases |p|
  {
    if p[0].Field? && d.Obj? && p[0].name !in d.fields {
      assert MissingFieldAt(d, p, 0);
      assert p[0].name in Set(d, p, v).doc.fields;
    } else if Get(d, p[..1]).Ok? {
      StepChangesExactly(d, p, v);
      FailedSetChangesExactly(Get(d, p[..1]).value, p[1..], v);
      MissingBelow(d, p);
      MissingAfterFirst(d, p);
    } else {
      OnlyFirstMissing(d, p);
    }
  }

  lemma MissingAfterFirst(d: Json, p: Path)
    requires p != [] && Get(d, p[..1]).Ok?
    ensures var x := Get(d, p[..1]).value;
            (exists j :: 0 <= j < |p| && MissingFieldAt(d, p, j)) <==>
            (exists j :: 0 <= j < |p| - 1 && MissingFieldAt(x, p[1..], j))
  {
    MissingBelow(d, p);
    var x := Get(d, p[..1]).value;
    if j :| 0 <= j < |p| && MissingFieldAt(d, p, j) {
      assert MissingFieldAt(x, p[1..], j - 1);
    }
    if j :| 0 <= j < |p| - 1 && MissingFieldAt(x, p[1..], j) {
      assert MissingFieldAt(d, p, j + 1);
    }
  }

  // Through a first step that resolves, the document changes exactly when the value there does.
  lemma StepChangesExactly(d: Json, p: Path, v: Json)
    requires p != [] && Get(d, p[..1]).Ok?
    ensures var x := Get(d, p[..1]).value;
            && Set(d, p, v).error == Set(x, p[1..], v).error
            && (Set(d, p, v).doc == d <==> Set(x, p[1..], v).doc == x)
  {
    assert p[..1][1..] == [];
    var x := Get(d, p[..1]).value;
    var y := Set(x, p[1..], v).doc;
    match p[0] {
      case Field(n, _) => assert d.fields[n := y] == d.fields <==> y == x;
      case Index(i) => assert d.items[i := y][i] == y;
      case BadIndex =>
    }
  }

  // A failed set may still change the document: here it creates an empty array.
  lemma FailedSetCanGrow()
    ensures Set(Obj(map[]), [Field("a", ArrayKind), Index(0)], Null) ==
            Outcome(Obj(map["a" := Arr([])]), Some(OutOfBounds(0)))
  {
    var p := [Field("a", ArrayKind), Index(0)];
    assert p[1..] == [Index(0)];
  }

  // A failed set stops where the reader stops in the document it leaves, for the same reason.
  lemma {:induction false} FailedSetErrorIsReaders(d: Json, p: Path, v: Json)
    requires Set(d, p, v).error.Some?
    ensures Get(Set(d, p, v).doc, p) == Err(Set(d, p, v).error.value)
    decreases |p|
  {
    match p[0] {
      case Field(n, k) =>
        if d.Obj? {
          FailedSetErrorIsReaders(if n in d.fields then d.fields[n] else Empty(k), p[1..], v);
        }
      case Index(i) =>
        if d.Arr? && i < |d.items| {
          FailedSetErrorIsReaders(d.items[i], p[1..], v);
        }
      case BadIndex =>
    }
  }

  // Setting through a place that resolves is setting inside the value found there.
  lemma {:induction false} SetThrough(d: Json, c: Path, p: Path, v: Json)
    requires Get(d, c).Ok?
    ensures var r := Set(Get(d, c).value, p, v);
            Set(d, c + p, v) == Outcome(Set(d, c, r.doc).doc, r.error)
  {
    if c == [] {
      assert c + p == p;
    } else {
      assert (c + p)[1..] == c[1..] + p;
      match c[0] {
        case Field(n, _) => SetThrough(d.fields[n], c[1..], p, v);
        case Index(i) => SetThrough(d.items[i], c[1..], p, v);
        case BadIndex =>
      }
    }
  }

  lemma {:induction false} GetThrough(d: Json, c: Path, p: Path)
    requires Get(d, c).Ok?
    ensures Get(d, c + p) == Get(Get(d, c).value, p)
  {
    if c == [] {
      assert c + p == p;
    } else {
      assert (c + p)[1..] == c[1..] + p;
      match c[0] {
        case Field(n, _) => GetThrough(d.fields[n], c[1..], p);
        case Index(i) => GetThrough(d.items[i], c[1..], p);
        case BadIndex =>
      }
    }
  }
}
