// The string primitives the scanners build on.
module Text {
  import opened Basics

  // str::split on one character: always at least one piece.
  function Split(s: string, sep: char): (pieces: seq<string>)
    ensures |pieces| >= 1
  {
    if s == "" then [""]
    else
      var rest := Split(s[1..], sep);
      if s[0] == sep then [""] + rest else [[s[0]] + rest[0]] + rest[1..]
  }

  function Join(pieces: seq<string>, sep: char): string
    requires |pieces| >= 1
  {
    if |pieces| == 1 then pieces[0] else pieces[0] + [sep] + Join(pieces[1..], sep)
  }

  // Splitting is lossless and leaves no separator inside a piece.
  lemma {:induction false} SplitIsLossless(s: string, sep: char)
    ensures Join(Split(s, sep), sep) == s
    ensures forall p <- Split(s, sep) :: sep !in p
  {
    if s == "" {
    } else {
      SplitIsLossless(s[1..], sep);
      var rest, pieces := Split(s[1..], sep), Split(s, sep);
      assert s == [s[0]] + s[1..];
      if s[0] == sep {
        assert pieces[1..] == rest;
        assert Join(pieces, sep) == "" + [sep] + Join(rest, sep);
        forall p | p in pieces
          ensures sep !in p
        {
          assert p == "" || p in rest;
        }
      } else {
        assert pieces[1..] == rest[1..];
        assert Join(pieces, sep) == [s[0]] + Join(rest, sep);
        forall p | p in pieces
          ensures sep !in p
        {
          assert rest[0] in rest;
          assert p == [s[0]] + rest[0] || p in rest[1..];
        }
      }
    }
  }

  // Splitting a string with a separator in it splits both sides.
  lemma {:induction false} SplitConcatenation(a: string, b: string, sep: char)
    ensures Split(a + [sep] + b, sep) == Split(a, sep) + Split(b, sep)
  {
    var s := a + [sep] + b;
    if a == "" {
      assert s == [sep] + b;
      assert s[1..] == b;
    } else {
      assert s[1..] == a[1..] + [sep] + b;
      SplitConcatenation(a[1..], b, sep);
    }
  }

  lemma {:induction false} SplitOfPiece(s: string, sep: char)
    requires sep !in s
    ensures Split(s, sep) == [s]
  {
    if s == "" {
    } else {
      assert s[0] != sep && s == [s[0]] + s[1..];
      SplitOfPiece(s[1..], sep);
    }
  }

  // Splitting finds the pieces a string was joined from.
  lemma {:induction false} SplitOfJoin(pieces: seq<string>, sep: char)
    requires |pieces| >= 1 && forall p <- pieces :: sep !in p
    ensures Split(Join(pieces, sep), sep) == pieces
  {
    assert pieces[0] in pieces;
    SplitOfPiece(pieces[0], sep);
    if |pieces| == 1 {
      assert pieces == [pieces[0]];
    } else {
      assert forall p <- pieces[1..] :: p in pieces;
      SplitOfJoin(pieces[1..], sep);
      SplitConcatenation(pieces[0], Join(pieces[1..], sep), sep);
      assert pieces == [pieces[0]] + pieces[1..];
    }
  }

  // The last piece made longer.
  function Extended(pieces: seq<string>, y: string): seq<string>
    requires |pieces| >= 1
  {
    pieces[..|pieces| - 1] + [pieces[|pieces| - 1] + y]
  }

  // A character that is no separator only extends the last piece.
  lemma {:induction false} SplitExtends(s: string, c: char, sep: char)
    requires c != sep
    ensures Split(s + [c], sep) == Extended(Split(s, sep), [c])
  {
    if s == "" {
      SplitOfPiece([c], sep);
      assert s + [c] == [c] && Split(s, sep)[..0] == [] && "" + [c] == [c];
    } else {
      SplitExtends(s[1..], c, sep);
      assert (s + [c])[1..] == s[1..] + [c];
      LastExtended(Split(s[1..], sep), s[0], [c]);
    }
  }

  // Extending the last piece and prefixing the first do not get in each other's way.
  lemma LastExtended(rest: seq<string>, x: char, y: string)
    requires |rest| >= 1
    ensures var more, both := Extended(rest, y), [[x] + rest[0]] + rest[1..];
            && Extended([""] + rest, y) == [""] + more
            && Extended(both, y) == [[x] + more[0]] + more[1..]
  {
    var more, both := Extended(rest, y), [[x] + rest[0]] + rest[1..];
    if |rest| == 1 {
      assert [x] + (rest[0] + y) == [x] + rest[0] + y;
      assert more[1..] == [];
    } else {
      assert both[..|both| - 1] == [[x] + rest[0]] + rest[1..|rest| - 1];
      assert more[1..] == rest[1..|rest| - 1] + [rest[|rest| - 1] + y];
    }
    assert ([""] + rest)[..|rest|] == [""] + rest[..|rest| - 1];
  }

  // str::split_once.
  function SplitOnce(s: string, c: char): Option<(string, string)> {
    if s == "" then None
    else if s[0] == c then Some(("", s[1..]))
    else
      var r := SplitOnce(s[1..], c);
      if r.Some? then Some(([s[0]] + r.value.0, r.value.1)) else None
  }

  // The split is at the first separator, and fails exactly when there is none.
  lemma {:induction false} SplitOnceIsFirst(s: string, c: char)
    ensures SplitOnce(s, c).None? <==> c !in s
    ensures SplitOnce(s, c).Some? ==>
              var (a, b) := SplitOnce(s, c).value; s == a + [c] + b && c !in a
  {
    if s == "" {
    } else {
      SplitOnceIsFirst(s[1..], c);
      assert s == [s[0]] + s[1..];
    }
  }

  lemma {:induction false} SplitAtFirst(a: string, b: string, c: char)
    requires c !in a
    ensures SplitOnce(a + [c] + b, c) == Some((a, b))
  {
    var s := a + [c] + b;
    if a == "" {
      assert s[1..] == b;
    } else {
      assert a[0] in a && s[1..] == a[1..] + [c] + b;
      SplitAtFirst(a[1..], b, c);
      assert [a[0]] + a[1..] == a;
    }
  }

  function DigitValue(c: char): Option<nat> {
    if '0' <= c <= '9' then Some(c as nat - '0' as nat)
    else if 'a' <= c <= 'z' then Some(c as nat - 'a' as nat + 10)
    else if 'A' <= c <= 'Z' then Some(c as nat - 'A' as nat + 10)
    else None
  }

  // The value of a hex digit is its place among the digits, in either case.
  lemma HexValueExactly(c: char)
    ensures var d := DigitValue(c);
            (d.Some? && d.value < 16 <==> c in "0123456789abcdef" || c in "0123456789ABCDEF")
            && (d.Some? && d.value < 16 ==> c == "0123456789abcdef"[d.value] || c == "0123456789ABCDEF"[d.value])
  {
    var d := DigitValue(c);
    var low, high := "0123456789abcdef", "0123456789ABCDEF";
    if d.Some? && d.value < 16 {
      assert c == low[d.value] || c == high[d.value];
    }
  }

  // Digits only, read from the left; None when a character is no digit of the base.
  function Digits(s: string, base: nat): Option<nat> {
    if s == "" then Some(0)
    else
      var front, d := Digits(s[..|s| - 1], base), DigitValue(s[|s| - 1]);
      if front.Some? && d.Some? && d.value < base then Some(front.value * base + d.value) else None
  }

  // from_str_radix on an unsigned type: one leading plus is allowed, a lone sign, an empty
  // string and a value past the maximum are errors.
  function ParseUnsigned(s: string, base: nat, max: nat): Option<nat> {
    var digits := if |s| > 1 && s[0] == '+' then s[1..] else s;
    if digits == "" then None
    else
      var n := Digits(digits, base);
      if n.Some? && n.value <= max then n else None
  }

  predicate AllDigits(s: string) {
    forall i :: 0 <= i < |s| ==> '0' <= s[i] <= '9'
  }

  // Decimal digits, at least one.
  predicate IsNumber(s: string) {
    s != "" && AllDigits(s)
  }

  function Number(s: string): nat {
    if s == "" then 0
    else
      Number(s[..|s| - 1]) * 10 +
      if '0' <= s[|s| - 1] <= '9' then s[|s| - 1] as nat - '0' as nat else 0
  }

  lemma {:induction false} DigitsAreNumber(s: string)
    ensures Digits(s, 10) == if AllDigits(s) then Some(Number(s)) else None
  {
    if s == "" {
    } else {
      var front := s[..|s| - 1];
      DigitsAreNumber(front);
      assert AllDigits(s) <==> AllDigits(front) && '0' <= s[|s| - 1] <= '9';
    }
  }

  function WithoutPlus(s: string): string {
    if s != "" && s[0] == '+' then s[1..] else s
  }

  // A decimal number parses exactly when, one leading plus dropped, it is digits whose value fits.
  lemma DecimalParsesExactly(s: string, max: nat)
    ensures var t := WithoutPlus(s);
            ParseUnsigned(s, 10, max) == if IsNumber(t) && Number(t) <= max then Some(Number(t)) else None
  {
    DigitsAreNumber(s);
    DigitsAreNumber(WithoutPlus(s));
  }

  predicate IsSpace(c: char) {
    c == ' ' || '\t' <= c <= '\r'
  }

  function TrimStart(s: string): string {
    if s != "" && IsSpace(s[0]) then TrimStart(s[1..]) else s
  }

  function TrimEnd(s: string): string {
    if s != "" && IsSpace(s[|s| - 1]) then TrimEnd(s[..|s| - 1]) else s
  }

  // str::trim on ASCII white space.
  function Trim(s: string): string {
    TrimEnd(TrimStart(s))
  }

  predicate AllSpace(s: string) {
    forall c <- s :: c in [' ', '\t', '\n', '\U{0B}', '\U{0C}', '\r']
  }

  predicate NoSpaceAtEnds(s: string) {
    s != "" ==> !AllSpace([s[0]]) && !AllSpace([s[|s| - 1]])
  }

  lemma SpaceExactly(c: char)
    ensures IsSpace(c) <==> AllSpace([c])
  {
    assert c in [c];
  }

  lemma {:induction false} TrimStartExactly(s: string)
    ensures exists a :: AllSpace(a) && s == a + TrimStart(s)
    ensures TrimStart(s) != "" ==> !IsSpace(TrimStart(s)[0])
  {
    if s != "" && IsSpace(s[0]) {
      TrimStartExactly(s[1..]);
      var a :| AllSpace(a) && s[1..] == a + TrimStart(s[1..]);
      SpaceExactly(s[0]);
      assert s == [s[0]] + a + TrimStart(s);
      assert AllSpace([s[0]] + a);
    } else {
      assert s == "" + TrimStart(s) && AllSpace("");
    }
  }

  lemma {:induction false} TrimEndExactly(s: string)
    ensures exists b :: AllSpace(b) && s == TrimEnd(s) + b
    ensures TrimEnd(s) != "" ==> !IsSpace(TrimEnd(s)[|TrimEnd(s)| - 1]) && TrimEnd(s)[0] == s[0]
  {
    if s != "" && IsSpace(s[|s| - 1]) {
      var front, last := s[..|s| - 1], [s[|s| - 1]];
      TrimEndExactly(front);
      var b :| AllSpace(b) && front == TrimEnd(front) + b;
      SpaceExactly(s[|s| - 1]);
      assert s == front + last;
      assert s == TrimEnd(s) + (b + last);
      assert AllSpace(b + last);
    } else {
      assert s == TrimEnd(s) + "" && AllSpace("");
    }
  }

  // Trimming takes white space off both ends, all of it and nothing else.
  lemma TrimExactly(s: string)
    ensures NoSpaceAtEnds(Trim(s))
    ensures exists a, b :: AllSpace(a) && AllSpace(b) && s == a + Trim(s) + b
  {
    var t := TrimStart(s);
    TrimStartExactly(s);
    TrimEndExactly(t);
    var a :| AllSpace(a) && s == a + t;
    var b :| AllSpace(b) && t == Trim(s) + b;
    assert s == a + Trim(s) + b;
    if Trim(s) != "" {
      SpaceExactly(Trim(s)[0]);
      SpaceExactly(Trim(s)[|Trim(s)| - 1]);
    }
  }

  lemma {:induction false} TrimStartDrops(a: string, s: string)
    requires AllSpace(a)
    ensures TrimStart(a + s) == TrimStart(s)
  {
    if a == "" {
      assert a + s == s;
    } else {
      assert a[0] in a && (a + s)[1..] == a[1..] + s && forall c <- a[1..] :: c in a;
      TrimStartDrops(a[1..], s);
    }
  }

  // White space put before a string does not change what trimming gives.
  lemma TrimDropsFirst(a: string, s: string)
    requires AllSpace(a)
    ensures Trim(a + s) == Trim(s)
  {
    TrimStartDrops(a, s);
  }

  lemma {:induction false} TrimStartExtends(s: string, c: char)
    requires IsSpace(c)
    ensures TrimStart(s + [c]) == if TrimStart(s) == "" then "" else TrimStart(s) + [c]
  {
    if s == "" {
      assert [c][1..] == "";
    } else {
      assert (s + [c])[1..] == s[1..] + [c];
      TrimStartExtends(s[1..], c);
    }
  }

  // White space at the end is trimmed away.
  lemma TrimDropsLast(s: string, c: char)
    requires IsSpace(c)
    ensures Trim(s + [c]) == Trim(s)
  {
    TrimStartExtends(s, c);
    var t := TrimStart(s);
    assert (t + [c])[..|t|] == t;
  }

  lemma TrimmedStays(s: string)
    requires s != "" && !IsSpace(s[0]) && !IsSpace(s[|s| - 1])
    ensures Trim(s) == s
  {
  }
}
