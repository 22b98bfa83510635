// Paths as text, the transformer that walks them through a document in place, and the
// reader (mystiproxy/src/http/body.rs, mystiproxy/src/mock/mod.rs).
module BodyTransformer {
  import opened Basics
  import opened Text
  import opened JsonPaths
  import opened JsonDeletion

  predicate Closed(piece: string) {
    piece != "" && piece[|piece| - 1] == ']'
  }

  function IndexText(piece: string): string
    requires Closed(piece)
  {
    piece[..|piece| - 1]
  }

  // `a[1][2]`: brackets without a closing `]` at the end of their piece are skipped.
  function IndexSteps(pieces: seq<string>): Path {
    if pieces == [] then []
    else
      var s, rest := pieces[0], IndexSteps(pieces[1..]);
      if !Closed(s) then rest
      else
        match ParseUnsigned(IndexText(s), 10, U64_MAX)
        case Some(i) => [Index(i)] + rest
        case None => [BadIndex] + rest
  }

  // The field of a part with brackets, which creates an array when missing.
  function FieldSteps(name: string): Path {
    if name == "" then [] else [Field(name, ArrayKind)]
  }

  function PartSteps(part: string): Path {
    if '[' in part then
      var pieces := Split(part, '[');
      FieldSteps(pieces[0]) + IndexSteps(pieces[1..])
    else
      [Field(part, ObjectKind)]
  }

  lemma PartIsFieldThenBrackets(part: string, cursor: Path, rest: Path)
    requires '[' in part
    ensures var pieces := Split(part, '[');
            cursor + PartSteps(part) + rest ==
            (if pieces[0] != "" then cursor + [Field(pieces[0], ArrayKind)] else cursor)
            + (IndexSteps(pieces[1..]) + rest)
  {
  }

  // What one bracket adds: an index when it closes after a number, at most one plus sign
  // before it, that fits; an invalid index when it closes after anything else; nothing when it
  // does not close.
  function BracketSteps(inside: string): Path {
    if inside == "" || inside[|inside| - 1] != ']' then []
    else
      var text := WithoutPlus(inside[..|inside| - 1]);
      if IsNumber(text) && Number(text) <= U64_MAX then [Index(Number(text))] else [BadIndex]
  }

  lemma OneIndexStep(inside: string)
    ensures IndexSteps([inside]) == BracketSteps(inside)
  {
    assert [inside][1..] == [] && IndexSteps([]) == [];
    if Closed(inside) {
      DecimalParsesExactly(IndexText(inside), U64_MAX);
      assert IndexSteps([inside]) ==
             match ParseUnsigned(IndexText(inside), 10, U64_MAX) case Some(i) => [Index(i)] case None => [BadIndex];
    }
  }

  // A part without brackets is a field that creates an object when missing.
  lemma PlainPart(name: string)
    requires '[' !in name
    ensures PartSteps(name) == [Field(name, ObjectKind)]
  {
  }

  lemma BracketPieces(name: string, inside: string)
    requires '[' !in name && '[' !in inside
    ensures '[' in name + "[" + inside && Split(name + "[" + inside, '[') == [name, inside]
  {
    SplitConcatenation(name, inside, '[');
    SplitOfPiece(name, '[');
    SplitOfPiece(inside, '[');
    var part := name + ['['] + inside;
    assert part == name + "[" + inside && part[|name|] == '[';
  }

  // `name[inside` is a field, unless the name is empty, that creates an array when missing, and
  // then the bracket.
  lemma OneBracket(name: string, inside: string)
    requires '[' !in name && '[' !in inside
    ensures PartSteps(name + "[" + inside) ==
            (if name == "" then [] else [Field(name, ArrayKind)]) + BracketSteps(inside)
  {
    BracketPieces(name, inside);
    assert [name, inside][1..] == [inside];
    OneIndexStep(inside);
  }

  lemma {:induction false} IndexStepsAppend(pieces: seq<string>, last: string)
    ensures IndexSteps(pieces + [last]) == IndexSteps(pieces) + BracketSteps(last)
  {
    if pieces == [] {
      OneIndexStep(last);
      assert pieces + [last] == [last];
    } else {
      assert (pieces + [last])[0] == pieces[0] && (pieces + [last])[1..] == pieces[1..] + [last];
      IndexStepsAppend(pieces[1..], last);
    }
  }

  // A further bracket is appended to the steps of the part before it.
  lemma AnotherBracket(part: string, inside: string)
    requires '[' in part && '[' !in inside
    ensures PartSteps(part + "[" + inside) == PartSteps(part) + BracketSteps(inside)
  {
    var longer, pieces := part + ['['] + inside, Split(part, '[');
    assert longer == part + "[" + inside && '[' in longer;
    SplitConcatenation(part, inside, '[');
    SplitOfPiece(inside, '[');
    assert Split(longer, '[')[1..] == pieces[1..] + [inside];
    IndexStepsAppend(pieces[1..], inside);
  }

  function PartsSteps(parts: seq<string>): Path {
    if parts == [] then [] else PartSteps(parts[0]) + PartsSteps(parts[1..])
  }

  // The parts of a path other than `$`.
  function Parts(path: string): Option<seq<string>> {
    if "$." <= path then Some(Split(path[2..], '.')) else None
  }

  function Normalized(path: string): Option<Path> {
    if path == "$" then Some([])
    else
      match Parts(path)
      case Some(parts) => Some(PartsSteps(parts))
      case None => None
  }

  // A path text names the root, or the steps of its parts in turn; the parts are what stands
  // between dots after `$.`. Nothing else is a path.
  lemma NormalizedExactly(path: string, parts: seq<string>, last: string)
    requires forall p <- parts :: '.' !in p
    requires '.' !in last
    ensures Normalized("$") == Some([])
    ensures Normalized("$." + last) == Some(PartSteps(last))
    ensures parts != [] ==>
              Normalized("$." + Join(parts + [last], '.')) ==
              Some(Normalized("$." + Join(parts, '.')).value + PartSteps(last))
    ensures Normalized(path).None? <==> path != "$" && !("$." <= path)
  {
    PathOfOne(last);
    if parts != [] {
      PathOfParts(parts);
      PathOfParts(parts + [last]);
      PartsStepsAppend(parts, last);
    }
  }

  lemma PathOfParts(parts: seq<string>)
    requires parts != [] && forall p <- parts :: '.' !in p
    ensures var path := "$." + Join(parts, '.');
            path != "$" && Parts(path) == Some(parts) && Normalized(path) == Some(PartsSteps(parts))
  {
    var path := "$." + Join(parts, '.');
    SplitOfJoin(parts, '.');
    assert path[2..] == Join(parts, '.') && "$." <= path && |path| >= 2;
  }

  lemma PathOfOne(part: string)
    requires '.' !in part
    ensures Normalized("$." + part) == Some(PartSteps(part))
  {
    PathOfParts([part]);
    assert Join([part], '.') == part;
    assert [part][1..] == [] && PartsSteps([]) == [];
    assert PartSteps(part) + [] == PartSteps(part);
    assert PartsSteps([part]) == PartSteps([part][0]) + PartsSteps([part][1..]);
  }

  // Names that are plain parts, and the path text made of them.
  predicate Plain(names: seq<string>) {
    names != [] && forall n <- names :: '.' !in n && '[' !in n
  }

  function PathOf(names: seq<string>): string
    requires names != []
  {
    "$." + Join(names, '.')
  }

  function Fields(names: seq<string>): Path {
    seq(|names|, i requires 0 <= i < |names| => Field(names[i], ObjectKind))
  }

  lemma {:induction false} PlainSteps(names: seq<string>)
    requires forall n <- names :: '[' !in n
    ensures PartsSteps(names) == Fields(names)
  {
    if names == [] {
    } else {
      assert names[0] in names && forall n <- names[1..] :: n in names;
      PlainPart(names[0]);
      PlainSteps(names[1..]);
      assert Fields(names) == [Field(names[0], ObjectKind)] + Fields(names[1..]);
    }
  }

  // A path of plain names is the list of their fields.
  lemma PlainPath(names: seq<string>)
    requires Plain(names)
    ensures Normalized(PathOf(names)) == Some(Fields(names))
  {
    PathOfParts(names);
    PlainSteps(names);
  }

  function SetAt(d: Json, path: string, v: Json): Outcome {
    match Normalized(path)
    case Some(p) => Set(d, p, v)
    case None => Outcome(d, Some(MalformedPath))
  }

  function GetAt(d: Json, path: string): Option<Json> {
    match Normalized(path)
    case Some(p) => ValueAt(d, p)
    case None => None
  }

  // Where the last part of a path deletes from, and what.
  function Deletion(parts: seq<string>): (Path, Target)
    requires parts != []
  {
    var above, last := PartsSteps(parts[..|parts| - 1]), parts[|parts| - 1];
    if '[' in last then
      var pieces := Split(last, '[');
      (above + FieldSteps(pieces[0]), ArrayTarget(IndexSteps(pieces[1..])))
    else
      (above, FieldTarget(last))
  }

  function DeleteAt(d: Json, path: string): Outcome {
    if path == "$" then Outcome(Null, None)
    else
      match Parts(path)
      case Some(parts) => var (parent, t) := Deletion(parts); Delete(d, parent, t)
      case None => Outcome(d, Some(MalformedPath))
  }

  lemma {:induction false} PartsStepsAppend(parts: seq<string>, last: string)
    ensures PartsSteps(parts + [last]) == PartsSteps(parts) + PartSteps(last)
  {
    if parts == [] {
      assert [last][1..] == [];
    } else {
      assert (parts + [last])[1..] == parts[1..] + [last];
      PartsStepsAppend(parts[1..], last);
    }
  }

  // The lens laws on the text of a path: every path string, every document.
  lemma PutGet(d: Json, path: string, v: Json)
    ensures SetAt(d, path, v).error.None? ==> GetAt(SetAt(d, path, v).doc, path) == Some(v)
  {
    var p := Normalized(path);
    if p.Some? && SetAt(d, path, v).error.None? {
      SamePathReflexive(p.value);
      SetThenGet(d, p.value, v, p.value);
    }
  }

  lemma PutPut(d: Json, path: string, v: Json, w: Json)
    ensures SetAt(SetAt(d, path, v).doc, path, w) == SetAt(d, path, w)
  {
    if Normalized(path).Some? {
      SetTwice(d, Normalized(path).value, v, w);
    }
  }

  lemma GetPut(d: Json, path: string)
    ensures var v := GetAt(d, path); v.Some? ==> SetAt(d, path, v.value) == Outcome(d, None)
  {
    if GetAt(d, path).Some? {
      SetWhatIsThere(d, Normalized(path).value);
    }
  }

  // Every value met along the fields is an object; the first missing one ends the way.
  predicate ObjectsOnTheWay(d: Json, names: seq<string>) {
    names != [] ==> d.Obj? && (names[0] in d.fields ==> ObjectsOnTheWay(d.fields[names[0]], names[1..]))
  }

  lemma {:induction false} FieldsSetExactly(d: Json, names: seq<string>, v: Json)
    ensures Set(d, Fields(names), v).error.None? <==> ObjectsOnTheWay(d, names)
    decreases |names|
  {
    if names != [] && d.Obj? {
      assert Fields(names)[1..] == Fields(names[1..]);
      FieldsSetExactly(if names[0] in d.fields then d.fields[names[0]] else Empty(ObjectKind), names[1..], v);
      if names[0] !in d.fields {
        assert names[1..] != [] ==> ObjectsOnTheWay(Empty(ObjectKind), names[1..]);
      }
    }
  }

  // A set on a plain path succeeds exactly when what is there of the way consists of objects,
  // creating the rest; the reader then finds the value. In particular it does on an empty object.
  lemma PlainSetSucceedsExactly(d: Json, names: seq<string>, v: Json)
    requires Plain(names)
    ensures var r := SetAt(d, PathOf(names), v);
            && (r.error.None? <==> ObjectsOnTheWay(d, names))
            && (r.error.None? ==> GetAt(r.doc, PathOf(names)) == Some(v))
    ensures SetAt(Obj(map[]), PathOf(names), v).error.None?
  {
    PlainPath(names);
    FieldsSetExactly(d, names, v);
    FieldsSetExactly(Obj(map[]), names, v);
    PutGet(d, PathOf(names), v);
  }

  // The root is replaced, read and nulled as a whole; a text that is no path is an error and
  // changes nothing.
  lemma RootAndMalformed(d: Json, path: string, v: Json)
    ensures SetAt(d, "$", v) == Outcome(v, None) && GetAt(d, "$") == Some(d) && DeleteAt(d, "$") == Outcome(Null, None)
    ensures path != "$" && !("$." <= path) ==>
              && SetAt(d, path, v) == DeleteAt(d, path) == Outcome(d, Some(MalformedPath))
              && GetAt(d, path) == None
  {
  }

  // Deleting by text: a plain last part takes its field out of what the parts before it name, a
  // last part with a bracket removes by index from what they and its name name.
  lemma DeleteAtExactly(d: Json, above: seq<string>, name: string, inside: string)
    requires (forall p <- above :: '.' !in p) && '.' !in name && '.' !in inside && '[' !in name && '[' !in inside
    ensures DeleteAt(d, PathOf(above + [name])) == Delete(d, PartsSteps(above), FieldTarget(name))
    ensures DeleteAt(d, PathOf(above + [name + "[" + inside])) ==
            Delete(d, PartsSteps(above) + (if name == "" then [] else [Field(name, ArrayKind)]),
                   ArrayTarget(BracketSteps(inside)))
  {
    PathOfParts(above + [name]);
    assert (above + [name])[..|above|] == above;
    var last := name + "[" + inside;
    PathOfParts(above + [last]);
    assert (above + [last])[..|above|] == above;
    BracketPieces(name, inside);
    OneIndexStep(inside);
  }

  // A further bracket of the last part is one more removal from the same place.
  lemma DeleteAnotherBracket(d: Json, above: seq<string>, last: string, inside: string)
    requires (forall p <- above :: '.' !in p) && '.' !in last && '.' !in inside && '[' in last && '[' !in inside
    ensures var (parent, t) := Deletion(above + [last]);
            && DeleteAt(d, PathOf(above + [last])) == Delete(d, parent, t)
            && t.ArrayTarget?
            && DeleteAt(d, PathOf(above + [last + "[" + inside])) ==
               Delete(d, parent, ArrayTarget(t.pieces + BracketSteps(inside)))
  {
    var longer := last + ['['] + inside;
    assert longer == last + "[" + inside && '[' in longer;
    PathOfParts(above + [last]);
    PathOfParts(above + [longer]);
    assert (above + [last])[..|above|] == above && (above + [longer])[..|above|] == above;
    SplitConcatenation(last, inside, '[');
    SplitOfPiece(inside, '[');
    assert Split(longer, '[')[1..] == Split(last, '[')[1..] + [inside];
    IndexStepsAppend(Split(last, '[')[1..], inside);
  }

  // A field delete that succeeds leaves its path unresolved.
  lemma DeletedFieldDoesNotResolve(d: Json, path: string)
    requires Parts(path).Some? && '[' !in Parts(path).value[|Parts(path).value| - 1]
    requires DeleteAt(d, path).error.None?
    ensures GetAt(DeleteAt(d, path).doc, path) == None
  {
    var parts := Parts(path).value;
    var above, last := parts[..|parts| - 1], parts[|parts| - 1];
    assert parts == above + [last];
    PartsStepsAppend(above, last);
    FieldIsGone(d, PartsSteps(above), last, ObjectKind);
  }

  // Reading one bracket of a part.
  lemma ReadBracket(d: Json, pieces: seq<string>)
    requires pieces != []
    ensures !Closed(pieces[0]) ==> ValueAt(d, IndexSteps(pieces)) == ValueAt(d, IndexSteps(pieces[1..]))
    ensures Closed(pieces[0]) ==>
              var idx := ParseUnsigned(IndexText(pieces[0]), 10, U64_MAX);
              ValueAt(d, IndexSteps(pieces)) ==
              if idx.Some? && d.Arr? && idx.value < |d.items| then ValueAt(d.items[idx.value], IndexSteps(pieces[1..]))
              else None
  {
    if Closed(pieces[0]) {
      assert IndexSteps(pieces)[1..] == IndexSteps(pieces[1..]);
    }
  }

  lemma ReadField(d: Json, n: string, k: Kind, rest: Path)
    ensures ValueAt(d, [Field(n, k)] + rest) ==
            if d.Obj? && n in d.fields then ValueAt(d.fields[n], rest) else None
  {
    assert ([Field(n, k)] + rest)[1..] == rest;
  }

  lemma ReadPart(d: Json, part: string, rest: Path)
    ensures ValueAt(d, PartSteps(part) + rest) ==
            match ValueAt(d, PartSteps(part)) case None => None case Some(x) => ValueAt(x, rest)
  {
    if Get(d, PartSteps(part)).Ok? {
      GetThrough(d, PartSteps(part), rest);
    } else {
      GetStopsAt(d, PartSteps(part), rest);
    }
  }

  lemma {:induction false} GetStopsAt(d: Json, p: Path, rest: Path)
    requires Get(d, p).Err?
    ensures Get(d, p + rest) == Get(d, p)
  {
    assert (p + rest)[1..] == p[1..] + rest;
    match p[0] {
      case Field(n, _) => if d.Obj? && n in d.fields { GetStopsAt(d.fields[n], p[1..], rest); }
      case Index(i) => if d.Arr? && i < |d.items| { GetStopsAt(d.items[i], p[1..], rest); }
      case BadIndex =>
    }
  }

  // The reader. Its cursor `current` walks down one part at a time.
  class MockBuilder {
    static method NavigateArray(body: Json, part: string) returns (r: Option<Json>)
      requires '[' in part
      ensures r == ValueAt(body, PartSteps(part))
    {
      var pieces := Split(part, '[');
      var current := body;
      if pieces[0] != "" {
        ReadField(body, pieces[0], ArrayKind, IndexSteps(pieces[1..]));
        if !current.Obj? || pieces[0] !in current.fields {
          return None;
        }
        current := current.fields[pieces[0]];
      } else {
        assert PartSteps(part) == IndexSteps(pieces[1..]);
      }
      for j := 1 to |pieces|
        invariant ValueAt(body, PartSteps(part)) == ValueAt(current, IndexSteps(pieces[j..]))
      {
        ReadBracket(current, pieces[j..]);
        assert pieces[j..][1..] == pieces[j + 1..];
        if Closed(pieces[j]) {
          var idx := ParseUnsigned(IndexText(pieces[j]), 10, U64_MAX);
          if idx.None? || !current.Arr? || idx.value >= |current.items| {
            return None;
          }
          current := current.items[idx.value];
        }
      }
      return Some(current);
    }

    static method GetValueByPath(body: Json, path: string) returns (r: Option<Json>)
      ensures r == GetAt(body, path)
    {
      if path == "$" {
        return Some(body);
      }
      if !("$." <= path) {
        return None;
      }
      var parts := Split(path[2..], '.');
      ghost var steps := PartsSteps(parts);
      var current := body;
      for i := 0 to |parts|
        invariant ValueAt(body, steps) == ValueAt(current, PartsSteps(parts[i..]))
      {
        var part := parts[i];
        assert parts[i..][1..] == parts[i + 1..];
        ReadPart(current, part, PartsSteps(parts[i + 1..]));
        if '[' in part {
          var next := NavigateArray(current, part);
          if next.None? {
            return None;
          }
          current := next.value;
        } else {
          ReadPlainPart(current, part);
          if !current.Obj? || part !in current.fields {
            return None;
          }
          current := current.fields[part];
        }
      }
      return Some(current);
    }
  }

  lemma ReadPlainPart(d: Json, part: string)
    requires '[' !in part
    ensures ValueAt(d, PartSteps(part)) == if d.Obj? && part in d.fields then Some(d.fields[part]) else None
  {
    ReadField(d, part, ObjectKind, []);
    assert PartSteps(part) == [Field(part, ObjectKind)] + [];
  }

  // A step that fails at the cursor fails the whole set and changes nothing.
  lemma SetFailsHere(d: Json, c: Path, p: Path, v: Json)
    requires Get(d, c).Ok?
    requires var r := Set(Get(d, c).value, p, v); r.error.Some? && r.doc == Get(d, c).value
    ensures Set(d, c + p, v) == Outcome(d, Set(Get(d, c).value, p, v).error)
  {
    SetThrough(d, c, p, v);
    SetWhatIsThere(d, c);
  }

  // Creating a missing field first does not change what a set through it does.
  lemma CreatedField(d: Json, c: Path, n: string, k: Kind, rest: Path, v: Json)
    requires Get(d, c).Ok? && Get(d, c).value.Obj? && n !in Get(d, c).value.fields
    ensures var e := Set(d, c, Obj(Get(d, c).value.fields[n := Empty(k)])).doc;
            Get(e, c + [Field(n, k)]).Ok? && Set(e, c + [Field(n, k)] + rest, v) == Set(d, c + [Field(n, k)] + rest, v)
  {
    var x := Get(d, c).value;
    var y := Obj(x.fields[n := Empty(k)]);
    var e, p := Set(d, c, y).doc, [Field(n, k)] + rest;
    SetSucceedsWhereGetDoes(d, c, y);
    SamePathReflexive(c);
    SetThenGet(d, c, y, c);
    assert [Field(n, k)][1..] == [];
    GetThrough(e, c, [Field(n, k)]);
    assert c + [Field(n, k)] + rest == c + p && p[1..] == rest;
    SetThrough(d, c, p, v);
    SetThrough(e, c, p, v);
    assert Set(x, p, v) == Set(y, p, v) by {
      var z := Set(Empty(k), rest, v).doc;
      assert x.fields[n := Empty(k)][n := z] == x.fields[n := z];
    }
    SetTwice(d, c, y, Set(x, p, v).doc);
  }

  lemma ExistingField(d: Json, c: Path, n: string, k: Kind)
    requires Get(d, c).Ok? && Get(d, c).value.Obj? && n in Get(d, c).value.fields
    ensures Get(d, c + [Field(n, k)]) == Ok(Get(d, c).value.fields[n])
  {
    assert [Field(n, k)][1..] == [];
    GetThrough(d, c, [Field(n, k)]);
  }

  lemma ExistingItem(d: Json, c: Path, i: nat)
    requires Get(d, c).Ok? && Get(d, c).value.Arr? && i < |Get(d, c).value.items|
    ensures Get(d, c + [Index(i)]) == Ok(Get(d, c).value.items[i])
  {
    assert [Index(i)][1..] == [];
    GetThrough(d, c, [Index(i)]);
  }

  // What one bracket does to a set in progress at the cursor.
  lemma WriteBracket(d: Json, c: Path, pieces: seq<string>, rest: Path, v: Json)
    requires Get(d, c).Ok? && pieces != [] && Closed(pieces[0])
    ensures var x := Get(d, c).value;
            var r := Set(d, c + (IndexSteps(pieces) + rest), v);
            match ParseUnsigned(IndexText(pieces[0]), 10, U64_MAX)
            case None => r == Outcome(d, Some(InvalidIndex))
            case Some(i) =>
              if !x.Arr? then r == Outcome(d, Some(NotAnArray))
              else if i >= |x.items| then r == Outcome(d, Some(OutOfBounds(i)))
              else r == Set(d, c + [Index(i)] + (IndexSteps(pieces[1..]) + rest), v)
  {
    var x, p := Get(d, c).value, IndexSteps(pieces) + rest;
    match ParseUnsigned(IndexText(pieces[0]), 10, U64_MAX)
    case None =>
      SetFailsHere(d, c, p, v);
    case Some(i) =>
      assert p == [Index(i)] + (IndexSteps(pieces[1..]) + rest);
      if x.Arr? && i < |x.items| {
        assert c + p == c + [Index(i)] + (IndexSteps(pieces[1..]) + rest);
      } else {
        SetFailsHere(d, c, p, v);
      }
  }

  lemma NextPart(c: Path, parts: seq<string>, i: nat)
    requires i < |parts|
    ensures c + PartsSteps(parts[i..]) == c + PartSteps(parts[i]) + PartsSteps(parts[i + 1..])
  {
    assert parts[i..][1..] == parts[i + 1..];
  }

  lemma FieldThenBrackets(c: Path, part: string)
    requires '[' in part
    ensures var pieces := Split(part, '[');
            c + PartSteps(part) == c + FieldSteps(pieces[0]) + IndexSteps(pieces[1..])
  {
  }

  // What one bracket does to a navigation in progress at the cursor.
  lemma NavigateBracket(d: Json, c: Path, pieces: seq<string>)
    requires Get(d, c).Ok? && pieces != [] && Closed(pieces[0])
    ensures var x := Get(d, c).value;
            var r := Get(d, c + IndexSteps(pieces));
            match ParseUnsigned(IndexText(pieces[0]), 10, U64_MAX)
            case None => r == Err(InvalidIndex)
            case Some(i) =>
              if !x.Arr? then r == Err(NotAnArray)
              else if i >= |x.items| then r == Err(OutOfBounds(i))
              else c + IndexSteps(pieces) == c + [Index(i)] + IndexSteps(pieces[1..])
  {
    GetThrough(d, c, IndexSteps(pieces));
  }

  // The transformer. The source's moving `&mut Value` is a cursor: the path from the root
  // to the value it points at.
  class BodyTransformer {
    var body: Json

    constructor (body: Json)
      ensures this.body == body
    {
      this.body := body;
    }

    // `*cursor = x`.
    method Write(cursor: Path, x: Json)
      requires Get(body, cursor).Ok?
      modifies this
      ensures body == Set(old(body), cursor, x).doc
      ensures Get(body, cursor) == Ok(x)
    {
      SetSucceedsWhereGetDoes(body, cursor, x);
      SamePathReflexive(cursor);
      SetThenGet(body, cursor, x, cursor);
      body := Set(body, cursor, x).doc;
    }

    // Moves to a field, creating an empty container when it is missing. `rest` and `v` say
    // which set is in progress.
    method EnterField(cursor: Path, name: string, kind: Kind, ghost rest: Path, ghost v: Json)
      returns (error: Option<JsonError>)
      requires Get(body, cursor).Ok?
      modifies this
      ensures var r := Set(old(body), cursor + [Field(name, kind)] + rest, v);
              if error.Some? then r == Outcome(body, error)
              else Get(body, cursor + [Field(name, kind)]).Ok? && Set(body, cursor + [Field(name, kind)] + rest, v) == r
    {
      var current := Get(body, cursor).value;
      if !current.Obj? {
        assert cursor + [Field(name, kind)] + rest == cursor + ([Field(name, kind)] + rest);
        SetFailsHere(body, cursor, [Field(name, kind)] + rest, v);
        return Some(NotAnObject);
      }
      if name !in current.fields {
        CreatedField(body, cursor, name, kind, rest, v);
        Write(cursor, Obj(current.fields[name := Empty(kind)]));
      } else {
        ExistingField(body, cursor, name, kind);
      }
      return None;
    }

    // The brackets of a part, one after the other.
    method EnterBrackets(cursor: Path, pieces: seq<string>, ghost rest: Path, ghost v: Json)
      returns (inner: Path, error: Option<JsonError>)
      requires Get(body, cursor).Ok?
      ensures var r := Set(body, cursor + (IndexSteps(pieces) + rest), v);
              if error.Some? then r == Outcome(body, error)
              else Get(body, inner).Ok? && Set(body, inner + rest, v) == r
    {
      inner := cursor;
      for j := 0 to |pieces|
        invariant Get(body, inner).Ok?
        invariant Set(body, inner + (IndexSteps(pieces[j..]) + rest), v) ==
                  Set(body, cursor + (IndexSteps(pieces) + rest), v)
      {
        assert pieces[j..][1..] == pieces[j + 1..];
        if Closed(pieces[j]) {
          WriteBracket(body, inner, pieces[j..], rest, v);
          var idx := ParseUnsigned(IndexText(pieces[j]), 10, U64_MAX);
          var current := Get(body, inner).value;
          if idx.None? {
            return inner, Some(InvalidIndex);
          }
          if !current.Arr? {
            return inner, Some(NotAnArray);
          }
          if idx.value >= |current.items| {
            return inner, Some(OutOfBounds(idx.value));
          }
          ExistingItem(body, inner, idx.value);
          inner := inner + [Index(idx.value)];
        }
      }
      assert inner + (IndexSteps(pieces[|pieces|..]) + rest) == inner + rest;
      return inner, None;
    }

    // The walk shared by set_array_value and navigate_and_set_array: the field, then each
    // bracket.
    method EnterArray(cursor: Path, part: string, ghost rest: Path, ghost v: Json)
      returns (inner: Path, error: Option<JsonError>)
      requires '[' in part && Get(body, cursor).Ok?
      modifies this
      ensures var r := Set(old(body), cursor + PartSteps(part) + rest, v);
              if error.Some? then r == Outcome(body, error)
              else Get(body, inner).Ok? && Set(body, inner + rest, v) == r
    {
      var pieces := Split(part, '[');
      var field := pieces[0];
      ghost var later := IndexSteps(pieces[1..]) + rest;
      PartIsFieldThenBrackets(part, cursor, rest);
      inner := cursor;
      if field != "" {
        error := EnterField(cursor, field, ArrayKind, later, v);
        if error.Some? {
          return;
        }
        inner := cursor + [Field(field, ArrayKind)];
      }
      inner, error := EnterBrackets(inner, pieces[1..], rest, v);
    }

    method SetNestedValue(cursor: Path, parts: seq<string>, v: Json) returns (error: Option<JsonError>)
      requires Get(body, cursor).Ok?
      modifies this
      ensures Outcome(body, error) ==
              if parts == [] then Outcome(old(body), None) else Set(old(body), cursor + PartsSteps(parts), v)
      decreases |parts|
    {
      if parts == [] {
        return None;
      }
      var part, remaining := parts[0], parts[1..];
      assert cursor + PartsSteps(parts) == cursor + PartSteps(part) + PartsSteps(remaining);
      if '[' in part {
        var inner;
        inner, error := EnterArray(cursor, part, PartsSteps(remaining), v);
        if error.None? {
          if remaining == [] {
            assert inner + PartsSteps(remaining) == inner;
            SetSucceedsWhereGetDoes(body, inner, v);
            Write(inner, v);
          } else {
            error := SetNestedValue(inner, remaining, v);
          }
        }
      } else if remaining == [] {
        error := SetField(cursor, part, v);
        assert cursor + PartSteps(part) + PartsSteps(remaining) == cursor + [Field(part, ObjectKind)];
      } else {
        error := EnterField(cursor, part, ObjectKind, PartsSteps(remaining), v);
        if error.None? {
          error := SetNestedValue(cursor + [Field(part, ObjectKind)], remaining, v);
        }
      }
    }

    // The last level: `obj.insert`.
    method SetField(cursor: Path, name: string, v: Json) returns (error: Option<JsonError>)
      requires Get(body, cursor).Ok?
      modifies this
      ensures Outcome(body, error) == Set(old(body), cursor + [Field(name, ObjectKind)], v)
    {
      var current := Get(body, cursor).value;
      assert [Field(name, ObjectKind)][1..] == [];
      if current.Obj? {
        SetThrough(body, cursor, [Field(name, ObjectKind)], v);
        Write(cursor, Obj(current.fields[name := v]));
        return None;
      }
      SetFailsHere(body, cursor, [Field(name, ObjectKind)], v);
      return Some(NotAnObject);
    }

    method SetValueByPath(path: string, v: Json) returns (error: Option<JsonError>)
      modifies this
      ensures Outcome(body, error) == SetAt(old(body), path, v)
    {
      if path == "$" {
        body := v;
        return None;
      }
      if !("$." <= path) {
        return Some(MalformedPath);
      }
      var parts := Split(path[2..], '.');
      assert [] + PartsSteps(parts) == PartsSteps(parts);
      error := SetNestedValue([], parts, v);
    }

    method NavigateField(cursor: Path, name: string, kind: Kind) returns (error: Option<JsonError>)
      requires Get(body, cursor).Ok?
      ensures Get(body, cursor + [Field(name, kind)]).Ok? <==> error.None?
      ensures error.Some? ==> Get(body, cursor + [Field(name, kind)]) == Err(error.value)
    {
      var current := Get(body, cursor).value;
      GetThrough(body, cursor, [Field(name, kind)]);
      assert [Field(name, kind)][1..] == [];
      if !current.Obj? {
        return Some(NotAnObject);
      }
      if name !in current.fields {
        return Some(NoSuchField(name));
      }
      return None;
    }

    // The optional field of a part with brackets.
    method NavigateFieldOf(cursor: Path, name: string) returns (error: Option<JsonError>)
      requires Get(body, cursor).Ok?
      ensures error.None? ==> Get(body, cursor + FieldSteps(name)).Ok?
      ensures error.Some? ==> Get(body, cursor + FieldSteps(name)) == Err(error.value)
    {
      if name == "" {
        assert cursor + FieldSteps(name) == cursor;
        return None;
      }
      error := NavigateField(cursor, name, ArrayKind);
    }

    method NavigateBrackets(cursor: Path, pieces: seq<string>) returns (inner: Path, error: Option<JsonError>)
      requires Get(body, cursor).Ok?
      ensures error.None? ==> inner == cursor + IndexSteps(pieces) && Get(body, inner).Ok?
      ensures error.Some? ==> Get(body, cursor + IndexSteps(pieces)) == Err(error.value)
    {
      inner := cursor;
      for j := 0 to |pieces|
        invariant Get(body, inner).Ok? && cursor + IndexSteps(pieces) == inner + IndexSteps(pieces[j..])
      {
        assert pieces[j..][1..] == pieces[j + 1..];
        if Closed(pieces[j]) {
          NavigateBracket(body, inner, pieces[j..]);
          var idx := ParseUnsigned(IndexText(pieces[j]), 10, U64_MAX);
          var current := Get(body, inner).value;
          if idx.None? {
            return inner, Some(InvalidIndex);
          }
          if !current.Arr? {
            return inner, Some(NotAnArray);
          }
          if idx.value >= |current.items| {
            return inner, Some(OutOfBounds(idx.value));
          }
          ExistingItem(body, inner, idx.value);
          inner := inner + [Index(idx.value)];
        }
      }
      return inner, None;
    }

    method NavigateArray(cursor: Path, part: string) returns (inner: Path, error: Option<JsonError>)
      requires '[' in part && Get(body, cursor).Ok?
      ensures error.None? ==> inner == cursor + PartSteps(part) && Get(body, inner).Ok?
      ensures error.Some? ==> Get(body, cursor + PartSteps(part)) == Err(error.value)
    {
      var pieces := Split(part, '[');
      inner := cursor + FieldSteps(pieces[0]);
      FieldThenBrackets(cursor, part);
      error := NavigateFieldOf(cursor, pieces[0]);
      if error.Some? {
        GetStopsAt(body, inner, IndexSteps(pieces[1..]));
        return;
      }
      inner, error := NavigateBrackets(inner, pieces[1..]);
    }

    method NavigatePart(cursor: Path, part: string) returns (inner: Path, error: Option<JsonError>)
      requires Get(body, cursor).Ok?
      ensures error.None? ==> inner == cursor + PartSteps(part) && Get(body, inner).Ok?
      ensures error.Some? ==> Get(body, cursor + PartSteps(part)) == Err(error.value)
    {
      if '[' in part {
        inner, error := NavigateArray(cursor, part);
      } else {
        error := NavigateField(cursor, part, ObjectKind);
        inner := cursor + [Field(part, ObjectKind)];
      }
    }

    // The walk to the parent of the last part.
    method NavigateParents(parents: seq<string>) returns (cursor: Path, error: Option<JsonError>)
      ensures error.None? ==> cursor == PartsSteps(parents) && Get(body, cursor).Ok?
      ensures error.Some? ==> Get(body, PartsSteps(parents)) == Err(error.value)
    {
      cursor := [];
      for i := 0 to |parents|
        invariant Get(body, cursor).Ok? && PartsSteps(parents) == cursor + PartsSteps(parents[i..])
      {
        NextPart(cursor, parents, i);
        ghost var next, rest := cursor + PartSteps(parents[i]), PartsSteps(parents[i + 1..]);
        cursor, error := NavigatePart(cursor, parents[i]);
        if error.Some? {
          GetStopsAt(body, next, rest);
          return;
        }
      }
      return cursor, None;
    }

    // Removes every index of the part from the one array its field names.
    method DeleteArrayElement(cursor: Path, part: string) returns (error: Option<JsonError>)
      requires '[' in part && Get(body, cursor).Ok?
      modifies this
      ensures var pieces := Split(part, '[');
              Outcome(body, error) ==
              Delete(old(body), cursor + FieldSteps(pieces[0]), ArrayTarget(IndexSteps(pieces[1..])))
    {
      var pieces := Split(part, '[');
      var inner := cursor + FieldSteps(pieces[0]);
      error := NavigateFieldOf(cursor, pieces[0]);
      if error.Some? {
        return;
      }
      ghost var start, x := body, Get(body, inner).value;
      SetWhatIsThere(body, inner);
      for j := 1 to |pieces|
        invariant Get(body, inner).Ok? && body == Set(start, inner, Get(body, inner).value).doc
        invariant RemoveItems(x, IndexSteps(pieces[1..])) ==
                  RemoveItems(Get(body, inner).value, IndexSteps(pieces[j..]))
      {
        assert pieces[j..][1..] == pieces[j + 1..];
        if Closed(pieces[j]) {
          var idx := ParseUnsigned(IndexText(pieces[j]), 10, U64_MAX);
          var current := Get(body, inner).value;
          assert IndexSteps(pieces[j..])[1..] == IndexSteps(pieces[j + 1..]);
          if idx.None? {
            return Some(InvalidIndex);
          }
          if !current.Arr? {
            return Some(NotAnArray);
          }
          if idx.value < |current.items| {
            SetTwice(start, inner, current, Arr(WithoutItem(current.items, idx.value)));
            Write(inner, Arr(WithoutItem(current.items, idx.value)));
          }
        }
      }
      return None;
    }

    method DeleteValueByPath(path: string) returns (error: Option<JsonError>)
      modifies this
      ensures Outcome(body, error) == DeleteAt(old(body), path)
    {
      if path == "$" {
        body := Null;
        return None;
      }
      if !("$." <= path) {
        return Some(MalformedPath);
      }
      var parts := Split(path[2..], '.');
      var last := parts[|parts| - 1];
      var cursor;
      cursor, error := NavigateParents(parts[..|parts| - 1]);
      if error.Some? {
        if '[' in last {
          GetStopsAt(body, PartsSteps(parts[..|parts| - 1]), FieldSteps(Split(last, '[')[0]));
        }
      } else if '[' in last {
        error := DeleteArrayElement(cursor, last);
      } else {
        DeleteField(cursor, last);
      }
    }

    // The last level: `obj.remove`, which ignores what is no object.
    method DeleteField(cursor: Path, name: string)
      requires Get(body, cursor).Ok?
      modifies this
      ensures Outcome(body, None) == Delete(old(body), cursor, FieldTarget(name))
    {
      var current := Get(body, cursor).value;
      SetWhatIsThere(body, cursor);
      if current.Obj? {
        Write(cursor, Obj(current.fields - {name}));
      }
    }
  }
}
