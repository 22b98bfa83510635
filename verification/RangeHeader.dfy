// Byte ranges of static files (mystiproxy/src/http/static_files.rs), against section 14.1.2
// of RFC 9110.
module RangeHeader {
  import opened Basics
  import opened Text

  datatype RangeError = NotBytes | BadStart(text: string) | BadEnd(text: string)

  // First and last position, both included.
  type Span = (nat, nat)

  // What a range specifier asks for: first-last, first-, or -suffix.
  datatype Specifier = FromTo(first: nat, last: nat) | From(first: nat) | Suffix(length: nat)

  // The positions a specifier asks for, in a file of any size.
  predicate Asks(s: Specifier, size: nat, b: nat) {
    match s
    case FromTo(first, last) => first <= b <= last
    case From(first) => first <= b
    case Suffix(length) => size <= b + length
  }

  // The last position of a file; the subtraction wraps on an empty one.
  function LastPosition(size: U64): U64 {
    if size == 0 then U64_MAX else size - 1
  }

  // What the parser makes of a specifier; None skips it.
  function Selected(s: Specifier, size: U64): Option<Span> {
    match s
    case FromTo(first, last) =>
      if first > last || first >= size then None
      else Some((first, if last < LastPosition(size) then last else LastPosition(size)))
    case From(first) => if first >= size then None else Some((first, LastPosition(size)))
    case Suffix(length) =>
      if length == 0 then None else Some((if length > size then 0 else size - length, LastPosition(size)))
  }

  // A span holds exactly the positions of the file that the specifier asks for, and there is
  // none exactly when there are no such positions.
  ghost predicate Satisfies(r: Option<Span>, s: Specifier, size: U64) {
    && (r.None? <==> !exists b: nat :: b < size && Asks(s, size, b))
    && (r.Some? ==> r.value.0 <= r.value.1 < size
                    && forall b: nat :: r.value.0 <= b <= r.value.1 <==> b < size && Asks(s, size, b))
  }

  // Selection gives the satisfiable bytes for every specifier and size, but for a suffix of an
  // empty file: there it gives a span up to the largest number.
  lemma SelectedIsSatisfiable(s: Specifier, size: U64)
    ensures Satisfies(Selected(s, size), s, size) <==> !(size == 0 && s.Suffix? && s.length > 0)
    ensures size == 0 && s.Suffix? && s.length > 0 ==> Selected(s, size) == Some((0, U64_MAX))
  {
    var r := Selected(s, size);
    if r.Some? && size > 0 {
      assert Asks(s, size, r.value.0);
    }
  }

  // The two sides of a `-`. Both empty asks for nothing.
  function ParseSides(start: string, end: string): Result<Option<Specifier>, RangeError> {
    var s, e := ParseUnsigned(start, 10, U64_MAX), ParseUnsigned(end, 10, U64_MAX);
    if start != "" && s.None? then Err(BadStart(start))
    else if end != "" && e.None? then Err(BadEnd(end))
    else if start != "" && end != "" then Ok(Some(FromTo(s.value, e.value)))
    else if start != "" then Ok(Some(From(s.value)))
    else if end != "" then Ok(Some(Suffix(e.value)))
    else Ok(None)
  }

  // Parts without exactly one `-` are skipped.
  function ParsePart(part: string, size: U64): Result<seq<Span>, RangeError>
  {
    var sides := Split(Trim(part), '-');
    if |sides| != 2 then Ok([])
    else
      match ParseSides(sides[0], sides[1])
      case Err(e) => Err(e)
      case Ok(None) => Ok([])
      case Ok(Some(s)) => Ok(if Selected(s, size).Some? then [Selected(s, size).value] else [])
  }

  // The first part that fails fails the list.
  function ParseParts(parts: seq<string>, size: U64): Result<seq<Span>, RangeError>
  {
    if parts == [] then Ok([])
    else
      match ParsePart(parts[0], size)
      case Err(e) => Err(e)
      case Ok(here) =>
        match ParseParts(parts[1..], size)
        case Err(e) => Err(e)
        case Ok(rest) => Ok(here + rest)
  }

  const UNIT := "bytes="

  function ParseHeader(header: string, size: U64): Result<seq<Span>, RangeError>
  {
    var h := Trim(header);
    if UNIT <= h then ParseParts(Split(h[6..], ','), size) else Err(NotBytes)
  }

  method ParseRangeHeader(header: string, size: U64) returns (r: Result<seq<Span>, RangeError>)
    ensures r == ParseHeader(header, size)
  {
    var h := Trim(header);
    if !(UNIT <= h) {
      return Err(NotBytes);
    }
    var parts := Split(h[6..], ',');
    var ranges: seq<Span> := [];
    assert parts[0..] == parts;
    FollowedNothing(ParseParts(parts, size));
    for i := 0 to |parts|
      invariant ParseParts(parts, size) == Followed(ranges, ParseParts(parts[i..], size))
    {
      assert parts[i..][1..] == parts[i + 1..];
      var part := Trim(parts[i]);
      var sides := Split(part, '-');
      ghost var before := ranges;
      if '-' in part && |sides| == 2 {
        var sides' := ParseSides(sides[0], sides[1]);
        if sides'.Err? {
          return Err(sides'.error);
        }
        if sides'.value.Some? {
          var span := Selected(sides'.value.value, size);
          if span.Some? {
            ranges := ranges + [span.value];
          }
        }
      } else if '-' !in part {
        SplitOfPiece(part, '-');
      }
      assert ranges == before + ParsePart(parts[i], size).value;
      FollowedTwice(before, ParsePart(parts[i], size).value, ParseParts(parts[i + 1..], size));
    }
    assert ranges + [] == ranges;
    return Ok(ranges);
  }

  function Followed(here: seq<Span>, rest: Result<seq<Span>, RangeError>): Result<seq<Span>, RangeError> {
    match rest
    case Err(e) => Err(e)
    case Ok(spans) => Ok(here + spans)
  }

  lemma FollowedTwice(a: seq<Span>, b: seq<Span>, rest: Result<seq<Span>, RangeError>)
    ensures Followed(a, Followed(b, rest)) == Followed(a + b, rest)
  {
    if rest.Ok? {
      assert a + (b + rest.value) == a + b + rest.value;
    }
  }

  lemma {:induction false} PartsConcatenate(a: seq<string>, b: seq<string>, size: U64)
    ensures ParseParts(a + b, size) ==
            match ParseParts(a, size) case Err(e) => Err(e) case Ok(x) => Followed(x, ParseParts(b, size))
  {
    if a == [] {
      assert a + b == b;
      FollowedNothing(ParseParts(b, size));
    } else {
      assert (a + b)[1..] == a[1..] + b;
      PartsConcatenate(a[1..], b, size);
      var here := ParsePart(a[0], size);
      if here.Ok? && ParseParts(a[1..], size).Ok? {
        FollowedTwice(here.value, ParseParts(a[1..], size).value, ParseParts(b, size));
      }
    }
  }

  lemma FollowedNothing(rest: Result<seq<Span>, RangeError>)
    ensures Followed([], rest) == rest
  {
    if rest.Ok? {
      assert [] + rest.value == rest.value;
    }
  }

  lemma {:induction false} TrimEndAfterUnit(a: string)
    ensures TrimEnd(UNIT + a) == UNIT + TrimEnd(a)
  {
    if a == "" {
      assert UNIT + a == UNIT;
    } else {
      assert (UNIT + a)[..|UNIT + a| - 1] == UNIT + a[..|a| - 1];
      TrimEndAfterUnit(a[..|a| - 1]);
    }
  }

  lemma OnePartTrims(part: string, c: char, size: U64)
    requires IsSpace(c)
    ensures ParseParts([part + [c]], size) == ParseParts([part], size)
  {
    TrimDropsLast(part, c);
    OnePart(part, size);
    OnePart(part + [c], size);
  }

  lemma OnePart(part: string, size: U64)
    ensures ParseParts([part], size) == ParsePart(part, size)
  {
    var here := ParsePart(part, size);
    assert [part][1..] == [];
    if here.Ok? {
      assert here.value + [] == here.value;
    }
  }

  lemma LastPartTrims(a: string, c: char, size: U64)
    requires IsSpace(c)
    ensures ParseParts(Split(a + [c], ','), size) == ParseParts(Split(a, ','), size)
  {
    var parts := Split(a, ',');
    var front, last := parts[..|parts| - 1], parts[|parts| - 1];
    SplitExtends(a, c, ',');
    assert parts == front + [last];
    PartsConcatenate(front, [last], size);
    PartsConcatenate(front, [last + [c]], size);
    OnePartTrims(last, c, size);
  }

  lemma {:induction false} EndTrims(a: string, size: U64)
    ensures ParseParts(Split(TrimEnd(a), ','), size) == ParseParts(Split(a, ','), size)
  {
    if a != "" && IsSpace(a[|a| - 1]) {
      var front := a[..|a| - 1];
      EndTrims(front, size);
      LastPartTrims(front, a[|a| - 1], size);
      assert a == front + [a[|a| - 1]];
    }
  }

  // After its unit a header is the list of its parts, whatever white space surrounds them.
  lemma HeaderIsList(a: string, size: U64)
    ensures ParseHeader(UNIT + a, size) == ParseParts(Split(a, ','), size)
  {
    assert (UNIT + a)[0] == 'b';
    assert TrimStart(UNIT + a) == UNIT + a;
    TrimEndAfterUnit(a);
    assert (UNIT + TrimEnd(a))[6..] == TrimEnd(a);
    EndTrims(a, size);
  }

  // Joining two specifier lists with a comma concatenates their ranges when both parse, and
  // otherwise fails with the first list's error, or else the second's.
  lemma JoinedListsConcatenate(a: string, b: string, size: U64)
    ensures ParseHeader(UNIT + a + "," + b, size) ==
            match ParseHeader(UNIT + a, size)
            case Err(e) => Err(e)
            case Ok(x) => Followed(x, ParseHeader(UNIT + b, size))
  {
    assert UNIT + a + "," + b == UNIT + (a + [','] + b);
    HeaderIsList(a + [','] + b, size);
    HeaderIsList(a, size);
    HeaderIsList(b, size);
    SplitConcatenation(a, b, ',');
    PartsConcatenate(Split(a, ','), Split(b, ','), size);
  }

  // Every range produced, from any header, lies inside the file, unless the file is empty;
  // then every range is the one that wraps.
  lemma {:induction false} PartsAreInside(parts: seq<string>, size: U64)
    requires ParseParts(parts, size).Ok?
    ensures size > 0 ==> forall r <- ParseParts(parts, size).value :: r.0 <= r.1 < size
    ensures size == 0 ==> forall r <- ParseParts(parts, size).value :: r == (0, U64_MAX)
  {
    if parts == [] {
    } else {
      PartsAreInside(parts[1..], size);
    }
  }

  // Empty, or digits after at most one plus sign, of a value that fits.
  predicate Accepted(side: string) {
    side == "" || (IsNumber(WithoutPlus(side)) && Number(WithoutPlus(side)) <= U64_MAX)
  }

  // Which sides of a `-` parse, and the error when one does not.
  lemma SidesParseExactly(start: string, end: string)
    ensures var r := ParseSides(start, end);
            && (r.Ok? <==> Accepted(start) && Accepted(end))
            && (r == Err(BadStart(start)) <==> !Accepted(start))
            && (r == Err(BadEnd(end)) <==> Accepted(start) && !Accepted(end))
  {
    DecimalParsesExactly(start, U64_MAX);
    DecimalParsesExactly(end, U64_MAX);
  }

  lemma SpecifierSides(start: string, end: string)
    requires '-' !in start && '-' !in end
    requires start + "-" + end != "-"
    requires (start != "" ==> !IsSpace(start[0])) && (end != "" ==> !IsSpace(end[|end| - 1]))
    ensures Split(Trim(start + "-" + end), '-') == [start, end]
  {
    var part := start + "-" + end;
    TrimmedStays(part) by {
      if start != "" { assert part[0] == start[0]; }
      if end != "" { assert part[|part| - 1] == end[|end| - 1]; }
    }
    SplitOfPiece(start, '-');
    SplitOfPiece(end, '-');
    SplitConcatenation(start, end, '-');
    assert part == start + ['-'] + end;
  }

  // A specifier spelled in digits, as the grammar of section 14.1.2 has it, gives its selection
  // exactly when its numbers fit; a last position too large is an error and not clipped.
  lemma WellFormedSpecifier(start: string, end: string, size: U64)
    requires start != "" || end != ""
    requires (start == "" || IsNumber(start)) && (end == "" || IsNumber(end))
    ensures var s := if start == "" then Suffix(Number(end))
                     else if end == "" then From(Number(start)) else FromTo(Number(start), Number(end));
            ParsePart(start + "-" + end, size) ==
            if Number(start) > U64_MAX then Err(BadStart(start))
            else if Number(end) > U64_MAX then Err(BadEnd(end))
            else Ok(if Selected(s, size).Some? then [Selected(s, size).value] else [])
  {
    if start != "" {
      assert WithoutPlus(start) == start;
    }
    if end != "" {
      assert WithoutPlus(end) == end;
    }
    DecimalParsesExactly(start, U64_MAX);
    DecimalParsesExactly(end, U64_MAX);
    SpecifierSides(start, end);
  }

  // The spans the two sides of a `-` give.
  function Spans(start: string, end: string, size: U64): seq<Span> {
    var (first, last) := (Number(WithoutPlus(start)), Number(WithoutPlus(end)));
    if start == "" && end == "" then []
    else
      var s := if start == "" then Suffix(last) else if end == "" then From(first) else FromTo(first, last);
      var r := Selected(s, size);
      if r.Some? then [r.value] else []
  }

  // One part of a list, whatever white space surrounds it: with exactly one `-` in it, the first
  // side that is no number is the error, and two numbers give their selection.
  lemma PartExactly(before: string, start: string, end: string, after: string, size: U64)
    requires AllSpace(before) && AllSpace(after) && '-' !in start && '-' !in end
    requires NoSpaceAtEnds(start + "-" + end)
    ensures ParsePart(before + (start + "-" + end) + after, size) ==
            if !Accepted(start) then Err(BadStart(start))
            else if !Accepted(end) then Err(BadEnd(end))
            else Ok(Spans(start, end, size))
  {
    var part := start + "-" + end;
    TrimAround(before, part, after);
    SplitOfPiece(start, '-');
    SplitOfPiece(end, '-');
    SplitConcatenation(start, end, '-');
    assert part == start + ['-'] + end;
    SidesParseExactly(start, end);
    DecimalParsesExactly(start, U64_MAX);
    DecimalParsesExactly(end, U64_MAX);
  }

  lemma TrimAround(before: string, s: string, after: string)
    requires AllSpace(before) && AllSpace(after) && s != "" && NoSpaceAtEnds(s)
    ensures Trim(before + s + after) == s
  {
    assert before + s + after == before + (s + after);
    TrimDropsFirst(before, s + after);
    TrimDropsAfter(s, after);
    SpaceExactly(s[0]);
    SpaceExactly(s[|s| - 1]);
    TrimmedStays(s);
  }

  lemma {:induction false} TrimDropsAfter(s: string, after: string)
    requires AllSpace(after)
    ensures Trim(s + after) == Trim(s)
  {
    if after == "" {
      assert s + after == s;
    } else {
      var front, c := after[..|after| - 1], after[|after| - 1];
      assert c in after && forall x <- front :: x in after;
      SpaceExactly(c);
      assert AllSpace([c]);
      TrimDropsAfter(s, front);
      TrimDropsLast(s + front, c);
      assert s + after == s + front + [c];
    }
  }

  // Parts with no `-`, or with more than one, are skipped.
  lemma OtherPartsSkipped(part: string, a: string, b: string, c: string, size: U64)
    ensures '-' !in Trim(part) ==> ParsePart(part, size) == Ok([])
    ensures Trim(part) == a + "-" + b + "-" + c ==> ParsePart(part, size) == Ok([])
  {
    if '-' !in Trim(part) {
      SplitOfPiece(Trim(part), '-');
    } else if Trim(part) == a + "-" + b + "-" + c {
      assert a + "-" + b + "-" + c == a + ['-'] + (b + ['-'] + c);
      SplitConcatenation(b, c, '-');
      SplitConcatenation(a, b + ['-'] + c, '-');
    }
  }

  // A header is its unit and a list, white space before it aside; a list of one part is that
  // part. Without the unit it is refused, and nothing else is refused for that reason.
  lemma HeaderExactly(before: string, list: string, header: string, size: U64)
    requires AllSpace(before)
    ensures ParseHeader(before + UNIT + list, size) == ParseParts(Split(list, ','), size)
    ensures ',' !in list ==> ParseHeader(before + UNIT + list, size) == ParsePart(list, size)
    ensures ParseHeader(header, size) == Err(NotBytes) <==> !("bytes=" <= Trim(header))
  {
    assert before + UNIT + list == before + (UNIT + list);
    TrimDropsFirst(before, UNIT + list);
    HeaderIsList(list, size);
    if ',' !in list {
      SplitOfPiece(list, ',');
      OnePart(list, size);
    }
    if "bytes=" <= Trim(header) {
      PartsAreNoUnitError(Split(Trim(header)[6..], ','), size);
    }
  }

  lemma {:induction false} PartsAreNoUnitError(parts: seq<string>, size: U64)
    ensures ParseParts(parts, size) != Err(NotBytes)
  {
    if parts == [] {
    } else {
      PartsAreNoUnitError(parts[1..], size);
    }
  }

  // Section 14.1.2 allows digits only; the parser takes a plus sign too.
  lemma PlusSignIsAccepted()
    ensures ParseHeader("bytes=+5-7", 100) == Ok([(5, 7)])
  {
    assert "bytes=+5-7" == UNIT + "+5-7";
    HeaderIsList("+5-7", 100);
    SplitOfPiece("+5-7", ',');
    OnePart("+5-7", 100);
    PlusSideParses();
    SpecifierSides("+5", "7");
    assert "+5-7" == "+5" + "-" + "7";
  }

  lemma PlusSideParses()
    ensures ParseSides("+5", "7") == Ok(Some(FromTo(5, 7)))
  {
    DecimalParsesExactly("+5", U64_MAX);
    DecimalParsesExactly("7", U64_MAX);
    assert WithoutPlus("+5") == "5" && WithoutPlus("7") == "7";
    assert "5"[..0] == "" && "7"[..0] == "";
    assert Number("5") == 5 && Number("7") == 7;
  }

  // The answer to a range request: the whole file when no range was satisfiable, else the
  // first range, with the length announced for it.
  datatype Response = Whole(body: seq<Byte>) | Partial(body: seq<Byte>, first: nat, last: nat, contentLength: nat)

  lemma FirstIsInside(header: string, size: U64)
    requires ParseHeader(header, size).Ok? && ParseHeader(header, size).value != []
    ensures var first := ParseHeader(header, size).value[0];
            if size == 0 then first == (0, U64_MAX) else first.0 <= first.1 < size
  {
    PartsAreInside(Split(Trim(header)[6..], ','), size);
    assert ParseHeader(header, size).value[0] in ParseHeader(header, size).value;
  }

  method ServeRange(file: seq<Byte>, header: string) returns (r: Result<Response, RangeError>)
    requires |file| <= U64_MAX
    ensures r.Err? <==> ParseHeader(header, |file|).Err?
    ensures r.Ok? && r.value.Whole? ==> ParseHeader(header, |file|) == Ok([]) && r.value.body == file
    ensures r.Ok? && r.value.Partial? ==>
              var p := r.value;
              && ParseHeader(header, |file|).Ok? && |ParseHeader(header, |file|).value| > 0
              && ParseHeader(header, |file|).value[0] == (p.first, p.last)
              && |p.body| == p.contentLength
              && (if file == [] then (p.first, p.last) == (0, U64_MAX) && p.body == []
                  else p.first <= p.last < |file| && p.body == file[p.first..p.last + 1])
  {
    var ranges := ParseRangeHeader(header, |file|);
    if ranges.Err? {
      return Err(ranges.error);
    }
    if ranges.value == [] {
      return Ok(Whole(file));
    }
    var (start, end) := ranges.value[0];
    FirstIsInside(header, |file|);
    // The sum wraps to zero on the range of an empty file.
    var length := (end - start + 1) % (U64_MAX + 1);
    return Ok(Partial(file[start..start + length], start, end, length));
  }
}
