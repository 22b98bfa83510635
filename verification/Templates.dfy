// The template renderer and its placeholders (mystiproxy/src/mock/mod.rs).
module Templates {
  import opened Basics
  import opened Text

  // str::find of a doubled character.
  function Find(s: string, c: char): (i: Option<nat>)
    ensures i.Some? ==> i.value + 2 <= |s| && s[i.value] == s[i.value + 1] == c
  {
    if |s| < 2 then None
    else if s[0] == c && s[1] == c then Some(0)
    else
      var i := Find(s[1..], c);
      if i.Some? then Some(i.value + 1) else None
  }

  lemma {:induction false} FindIsFirst(s: string, c: char)
    ensures forall j :: 0 <= j < |s| - 1 && s[j] == s[j + 1] == c ==> Find(s, c).Some? && Find(s, c).value <= j
  {
    if |s| >= 2 && !(s[0] == c && s[1] == c) {
      FindIsFirst(s[1..], c);
      forall j | 0 <= j < |s| - 1 && s[j] == s[j + 1] == c
        ensures Find(s, c).Some? && Find(s, c).value <= j
      {
        assert s[1..][j - 1] == s[j] && s[1..][j] == s[j + 1];
      }
    }
  }

  // The text before and after the first doubled character.
  function Cut(s: string, c: char): (r: Option<(string, string)>)
    ensures r.Some? ==> |r.value.1| + 2 <= |s|
  {
    match Find(s, c)
    case None => None
    case Some(i) => Some((s[..i], s[i + 2..]))
  }

  // A template read from the left: text up to the end, up to a `{{` that is never closed, or
  // up to a placeholder and what follows it.
  datatype Template =
    | End(text: string)
    | Unclosed(text: string, tail: string)
    | Hole(text: string, key: string, rest: Template)

  function Parse(t: string): Template
    decreases |t|
  {
    match Cut(t, '{')
    case None => End(t)
    case Some((text, after)) =>
      match Cut(after, '}')
      case None => Unclosed(text, after)
      case Some((key, rest)) => Hole(text, key, Parse(rest))
  }

  function Source(t: Template): string {
    match t
    case End(text) => text
    case Unclosed(text, tail) => text + "{{" + tail
    case Hole(text, key, rest) => text + "{{" + key + "}}" + Source(rest)
  }

  // What stands in the output for a placeholder; unresolved, its own text.
  function Filled(key: string, resolve: string -> Option<string>): string {
    match resolve(key)
    case Some(v) => v
    case None => "{{" + key + "}}"
  }

  function Rendered(t: Template, resolve: string -> Option<string>): string {
    match t
    case Hole(text, key, rest) => text + Filled(key, resolve) + Rendered(rest, resolve)
    case _ => Source(t)
  }

  lemma CutIsLossless(s: string, c: char)
    requires Cut(s, c).Some?
    ensures s == Cut(s, c).value.0 + [c, c] + Cut(s, c).value.1
  {
  }

  lemma Reassociate(text: string, key: string, rest: string)
    ensures text + "{{" + (key + "}}" + rest) == text + "{{" + key + "}}" + rest
  {
  }

  // Parsing loses nothing.
  lemma {:induction false} ParseIsLossless(t: string)
    ensures Source(Parse(t)) == t
    decreases |t|
  {
    match Cut(t, '{')
    case None =>
    case Some((text, after)) =>
      CutIsLossless(t, '{');
      match Cut(after, '}')
      case None =>
      case Some((key, rest)) =>
        CutIsLossless(after, '}');
        ParseIsLossless(rest);
        Reassociate(text, key, rest);
  }

  // No `{{` begins inside a text, no `}}` begins inside a key.
  predicate ProperText(text: string) {
    Find(text + "{{", '{') == Some(|text|)
  }

  predicate ProperKey(key: string) {
    Find(key + "}}", '}') == Some(|key|)
  }

  predicate Proper(t: Template) {
    match t
    case End(text) => Find(text, '{').None?
    case Unclosed(text, tail) => ProperText(text) && Find(tail, '}').None?
    case Hole(text, key, rest) => ProperText(text) && ProperKey(key) && Proper(rest)
  }

  lemma {:induction false} FindInPrefix(a: string, b: string, c: char)
    requires Find(a, c).Some?
    ensures Find(a + b, c) == Find(a, c)
  {
    assert (a + b)[1..] == a[1..] + b;
    if !(a[0] == c && a[1] == c) {
      FindInPrefix(a[1..], b, c);
    }
  }

  lemma {:induction false} FoundFirst(s: string, c: char, i: nat)
    requires Find(s, c) == Some(i)
    ensures Find(s[..i + 2], c) == Some(i)
  {
    if i > 0 {
      assert s[..i + 2][1..] == s[1..][..i + 1];
      FoundFirst(s[1..], c, i - 1);
    }
  }

  lemma CutIsFirst(s: string, c: char)
    requires Cut(s, c).Some?
    ensures var before := Cut(s, c).value.0; Find(before + [c, c], c) == Some(|before|)
  {
    var i := Find(s, c).value;
    FoundFirst(s, c, i);
    assert s[..i + 2] == s[..i] + [c, c];
  }

  lemma CutAt(before: string, c: char, after: string)
    requires Find(before + [c, c], c) == Some(|before|)
    ensures Cut(before + [c, c] + after, c) == Some((before, after))
  {
    var s := before + [c, c] + after;
    FindInPrefix(before + [c, c], after, c);
    assert s[..|before|] == before && s[|before| + 2..] == after;
  }

  // The reading is proper, and it is the only proper reading of its template.
  lemma {:induction false} ParseIsProper(t: string)
    ensures Proper(Parse(t))
    decreases |t|
  {
    match Cut(t, '{')
    case None =>
    case Some((text, after)) =>
      CutIsFirst(t, '{');
      match Cut(after, '}')
      case None =>
      case Some((key, rest)) =>
        CutIsFirst(after, '}');
        ParseIsProper(rest);
  }

  // A placeholder renders in place: its value is appended and never looked at again, and
  // the rest renders as a template of its own, whatever braces the value contains.
  lemma HoleRendersInPlace(text: string, key: string, rest: string, resolve: string -> Option<string>)
    requires ProperText(text) && ProperKey(key)
    ensures Parse(text + "{{" + key + "}}" + rest) == Hole(text, key, Parse(rest))
    ensures Rendered(Parse(text + "{{" + key + "}}" + rest), resolve) ==
            text + (match resolve(key) case Some(v) => v case None => "{{" + key + "}}")
            + Rendered(Parse(rest), resolve)
  {
    CutAt(text, '{', key + "}}" + rest);
    CutAt(key, '}', rest);
    Reassociate(text, key, rest);
  }

  lemma {:induction false} ParseIsUnique(t: Template)
    requires Proper(t)
    ensures Parse(Source(t)) == t
  {
    match t
    case End(_) =>
    case Unclosed(text, tail) => CutAt(text, '{', tail);
    case Hole(text, key, rest) =>
      ParseIsUnique(rest);
      HoleRendersInPlace(text, key, Source(rest), _ => None);
  }

  lemma OneMoreHole(out: string, t: string, resolve: string -> Option<string>)
    requires Parse(t).Hole?
    ensures var h := Parse(t);
            out + h.text + Filled(h.key, resolve) + Rendered(h.rest, resolve) == out + Rendered(h, resolve)
  {
    var h := Parse(t);
    FourPieces(out, h.text, Filled(h.key, resolve), Rendered(h.rest, resolve));
  }

  lemma FourPieces(a: string, b: string, c: string, d: string)
    ensures a + b + c + d == a + (b + c + d)
  {
  }

  lemma UnclosedEnds(out: string, t: string, resolve: string -> Option<string>)
    requires Parse(t).Unclosed?
    ensures out + Parse(t).text + "{{" + Parse(t).tail == out + Rendered(Parse(t), resolve)
  {
  }

  // The renderer.
  method RenderTemplate(template: string, resolve: string -> Option<string>) returns (out: string)
    ensures out == Rendered(Parse(template), resolve)
  {
    out := "";
    var rest := template;
    var open := Cut(rest, '{');
    while open.Some?
      invariant open == Cut(rest, '{')
      invariant out + Rendered(Parse(rest), resolve) == Rendered(Parse(template), resolve)
      decreases |rest|
    {
      var (text, after) := open.value;
      var close := Cut(after, '}');
      if close.None? {
        UnclosedEnds(out, rest, resolve);
        return out + text + "{{" + after;
      }
      OneMoreHole(out, rest, resolve);
      out := out + text + Filled(close.value.0, resolve);
      rest := close.value.1;
      open := Cut(rest, '{');
    }
    out := out + rest;
  }

  // A pair without `=` ends the search, found or not.
  function FindParam(pairs: seq<string>, name: string, decode: string -> string): Option<string> {
    if pairs == [] then None
    else
      match SplitOnce(pairs[0], '=')
      case None => None
      case Some((k, v)) => if k == name then Some(decode(v)) else FindParam(pairs[1..], name, decode)
  }

  function QueryParam(uri: string, name: string, decode: string -> string): Option<string> {
    match SplitOnce(uri, '?')
    case None => None
    case Some((_, q)) => FindParam(Split(q, '&'), name, decode)
  }

  // `walk` looks a JSON path up in the request body; `decode` is the percent-decoder.
  function Resolve(key: string, uri: string, body: Option<string -> Option<string>>, decode: string -> string)
    : Option<string>
  {
    var k := Trim(key);
    if "query." <= k then QueryParam(uri, k[6..], decode)
    else if "body." <= k then
      var path := k[5..];
      if "$" <= path && body.Some? then body.value(path[1..]) else None
    else None
  }

  // A template without a placeholder renders as it stands.
  lemma NoHoleIsIdentity(t: string, resolve: string -> Option<string>)
    requires !Parse(t).Hole?
    ensures Rendered(Parse(t), resolve) == t
  {
    ParseIsLossless(t);
  }

  // `pair` is this name, a `=` and a value.
  predicate Names(pair: string, name: string) {
    '=' !in name && name + "=" <= pair
  }

  lemma SplitNames(pair: string, name: string)
    ensures Names(pair, name) <==> SplitOnce(pair, '=').Some? && SplitOnce(pair, '=').value.0 == name
    ensures Names(pair, name) ==> SplitOnce(pair, '=').value.1 == pair[|name| + 1..]
  {
    SplitOnceIsFirst(pair, '=');
    if Names(pair, name) {
      SplitAtFirst(name, pair[|name| + 1..], '=');
      assert pair == name + ['='] + pair[|name| + 1..];
    }
  }

  // The value found is the decoded one of the first pair of that name, and none is when a pair
  // without `=` comes before it.
  ghost predicate FirstOf(pairs: seq<string>, name: string, i: nat) {
    && i < |pairs| && Names(pairs[i], name)
    && forall j :: 0 <= j < i ==> '=' in pairs[j] && !Names(pairs[j], name)
  }

  lemma {:induction false} FindParamExactly(pairs: seq<string>, name: string, decode: string -> string)
    ensures forall i: nat :: FirstOf(pairs, name, i) ==>
                          FindParam(pairs, name, decode) == Some(decode(pairs[i][|name| + 1..]))
    ensures (forall i: nat :: !FirstOf(pairs, name, i)) ==> FindParam(pairs, name, decode) == None
  {
    if pairs == [] {
    } else {
      SplitNames(pairs[0], name);
      SplitOnceIsFirst(pairs[0], '=');
      if Names(pairs[0], name) {
        assert FirstOf(pairs, name, 0);
      } else if '=' in pairs[0] {
        FindParamExactly(pairs[1..], name, decode);
        forall i: nat
          ensures FirstOf(pairs, name, i) <==> i > 0 && FirstOf(pairs[1..], name, i - 1)
        {
          FirstOfRest(pairs, name, i);
        }
        if i: nat :| FirstOf(pairs[1..], name, i) {
          assert FirstOf(pairs, name, i + 1);
        }
      }
    }
  }

  lemma FirstOfRest(pairs: seq<string>, name: string, i: nat)
    requires pairs != [] && '=' in pairs[0] && !Names(pairs[0], name)
    ensures FirstOf(pairs, name, i) <==> i > 0 && FirstOf(pairs[1..], name, i - 1)
  {
    if i > 0 && FirstOf(pairs[1..], name, i - 1) {
      forall j | 0 <= j < i
        ensures '=' in pairs[j] && !Names(pairs[j], name)
      {
        assert j > 0 ==> pairs[j] == pairs[1..][j - 1];
      }
    }
  }

  // What a placeholder key resolves to, white space around it aside: `query.name` to the
  // parameter of that name in what follows the first `?` of the request, `body.$path` to the
  // value at that path of the body, anything else to nothing.
  lemma ResolveExactly(
    key: string, path: string, q: string, name: string, body: Option<string -> Option<string>>,
    decode: string -> string)
    requires '?' !in path
    ensures Trim(key) == "query." + name ==>
              && Resolve(key, path + "?" + q, body, decode) == FindParam(Split(q, '&'), name, decode)
              && Resolve(key, path, body, decode) == None
    ensures Trim(key) == "body.$" + name ==>
              Resolve(key, path + "?" + q, body, decode) == if body.Some? then body.value(name) else None
    ensures !("query." <= Trim(key)) && !("body.$" <= Trim(key)) ==> Resolve(key, path + "?" + q, body, decode) == None
  {
    var k, uri := Trim(key), path + "?" + q;
    SplitOnceIsFirst(path, '?');
    SplitAtFirst(path, q, '?');
    assert uri == path + ['?'] + q;
    if k == "query." + name {
      assert k[6..] == name;
    } else if k == "body.$" + name {
      assert "body." <= k && k[5..] == "$" + name && k[5..][1..] == name && k[0] == 'b';
    } else if "body." <= k && "$" <= k[5..] {
      assert k == "body." + k[5..] && k[5..][0] == '$';
      assert "body.$" <= k;
    }
  }

  lemma {:induction false} UnresolvedIsIdentity(t: Template, resolve: string -> Option<string>)
    requires forall key :: resolve(key).None?
    ensures Rendered(t, resolve) == Source(t)
  {
    if t.Hole? {
      UnresolvedIsIdentity(t.rest, resolve);
      assert t.text + ("{{" + t.key + "}}") == t.text + "{{" + t.key + "}}";
    }
  }

  // With no query string and no body rendering changes nothing, whatever the braces.
  lemma NothingToResolveIsIdentity(template: string, uri: string, decode: string -> string)
    requires '?' !in uri
    ensures Rendered(Parse(template), key => Resolve(key, uri, None, decode)) == template
  {
    SplitOnceIsFirst(uri, '?');
    UnresolvedIsIdentity(Parse(template), key => Resolve(key, uri, None, decode));
    ParseIsLossless(template);
  }
}
