// The three percent-decoders: over bytes (mystiproxy/src/mock/mod.rs url_decode), strict
// over characters (mock/mod.rs urlencoding::decode), lenient over characters
// (mystiproxy/src/http/static_files.rs url_decode).
module PercentDecoding {
  import opened Basics
  import opened Text

  // Bytes read as the characters with the same numbers.
  function Latin(bs: seq<Byte>): string {
    seq(|bs|, i requires 0 <= i < |bs| => bs[i] as char)
  }

  function HexByte(s: string): (v: Option<Byte>) {
    var n := ParseUnsigned(s, 16, 255);
    if n.Some? && n.value < 256 then Some(n.value) else None
  }

  const PERCENT: Byte := 37
  const PLUS: Byte := 43
  const SPACE: Byte := 32

  // The byte the byte decoder writes next, and how many it consumes.
  function NextByte(s: seq<Byte>): (r: (Byte, nat))
    requires s != []
    ensures 1 <= r.1 <= |s|
  {
    if s[0] == PERCENT && |s| > 2 then
      match HexByte(Latin(s[1..3]))
      case Some(v) => (v, 3)
      case None => (PERCENT, 1)
    else if s[0] == PLUS then (SPACE, 1)
    else (s[0], 1)
  }

  function DecodeBytes(s: seq<Byte>): seq<Byte> {
    if s == [] then [] else [NextByte(s).0] + DecodeBytes(s[NextByte(s).1..])
  }

  // How many bytes the UTF-8 character that starts with this byte has; 0 when none does.
  function Width(lead: Byte): nat {
    if lead < 0x80 then 1
    else if 0xC2 <= lead <= 0xDF then 2
    else if 0xE0 <= lead <= 0xEF then 3
    else if 0xF0 <= lead <= 0xF4 then 4
    else 0
  }

  predicate Continues(b: Byte) {
    0x80 <= b <= 0xBF
  }

  // Some leads narrow their second byte: no overlong forms, surrogates or values past 10FFFF.
  predicate Seconds(lead: Byte, b: Byte) {
    && Continues(b)
    && (lead == 0xE0 ==> b >= 0xA0) && (lead == 0xED ==> b <= 0x9F)
    && (lead == 0xF0 ==> b >= 0x90) && (lead == 0xF4 ==> b <= 0x8F)
  }

  // How many bytes a lossy reader takes at once, and whether they are a character.
  function Utf8Unit(s: seq<Byte>): (r: (nat, bool))
    requires s != []
    ensures 1 <= r.0 <= |s| && (r.1 ==> r.0 == Width(s[0]))
  {
    var w := Width(s[0]);
    if w <= 1 then (1, w == 1)
    else if |s| < 2 || !Seconds(s[0], s[1]) then (1, false)
    else if w == 2 then (2, true)
    else if |s| < 3 || !Continues(s[2]) then (2, false)
    else if w == 3 then (3, true)
    else if |s| < 4 || !Continues(s[3]) then (3, false)
    else (4, true)
  }

  function CharOf(s: seq<Byte>): char
    requires s != [] && Utf8Unit(s).1
  {
    match Width(s[0])
    case 1 => s[0] as char
    case 2 => (Bits(s[0], 0xC0) * 64 + Bits(s[1], 0x80)) as char
    case 3 => ((Bits(s[0], 0xE0) * 64 + Bits(s[1], 0x80)) * 64 + Bits(s[2], 0x80)) as char
    case _ => (((Bits(s[0], 0xF0) * 64 + Bits(s[1], 0x80)) * 64 + Bits(s[2], 0x80)) * 64 + Bits(s[3], 0x80)) as char
  }

  // The payload of a byte above its marker.
  function Bits(b: Byte, marker: Byte): int {
    b - marker
  }

  const REPLACEMENT: char := '\U{FFFD}'

  // String::from_utf8_lossy: every longest beginning of a character that breaks off, and every
  // other stray byte, becomes one replacement character.
  function FromUtf8Lossy(bs: seq<Byte>): string {
    if bs == [] then ""
    else
      var (n, valid) := Utf8Unit(bs);
      [if valid then CharOf(bs) else REPLACEMENT] + FromUtf8Lossy(bs[n..])
  }

  // How many characters an iterator still yields when asked for two.
  function Taken(s: string): (n: nat)
    ensures n <= |s|
  {
    if |s| < 2 then |s| else 2
  }

  // What a character decoder writes next, and how many characters it consumes; a strict one
  // gives up on a bad escape, the other keeps its text.
  function NextChars(s: string, strict: bool): (r: Option<(string, nat)>)
    requires s != ""
    ensures r.Some? ==> 1 <= r.value.1 <= |s|
  {
    if s[0] == '%' then
      var n := 1 + Taken(s[1..]);
      match HexByte(s[1..n])
      case Some(v) => Some(([v as char], n))
      case None => if strict then None else Some((s[..n], n))
    else if s[0] == '+' then Some((" ", 1))
    else Some(([s[0]], 1))
  }

  function Prepend(t: string, rest: Option<string>): Option<string> {
    if rest.Some? then Some(t + rest.value) else None
  }

  function DecodeChars(s: string, strict: bool): Option<string> {
    if s == "" then Some("")
    else
      var next := NextChars(s, strict);
      if next.None? then None else Prepend(next.value.0, DecodeChars(s[next.value.1..], strict))
  }

  lemma NextByteAt(s: seq<Byte>, i: nat)
    requires i < |s|
    ensures NextByte(s[i..]) ==
            if s[i] == PERCENT && i + 2 < |s| then
              var v := HexByte(Latin(s[i + 1..i + 3]));
              if v.Some? then (v.value, 3) else (PERCENT, 1)
            else if s[i] == PLUS then (SPACE, 1)
            else (s[i], 1)
  {
    if i + 2 < |s| {
      assert s[i..][1..3] == s[i + 1..i + 3];
    }
  }

  lemma DecodeOneMore(s: seq<Byte>, i: nat, out: seq<Byte>, b: Byte, n: nat)
    requires i < |s| && NextByte(s[i..]) == (b, n)
    ensures i + n <= |s| && out + [b] + DecodeBytes(s[i + n..]) == out + DecodeBytes(s[i..])
  {
    assert s[i..][n..] == s[i + n..];
    assert out + [b] + DecodeBytes(s[i + n..]) == out + ([b] + DecodeBytes(s[i + n..]));
  }

  method UrlDecodeBytes(s: seq<Byte>) returns (text: string)
    ensures text == FromUtf8Lossy(DecodeBytes(s))
  {
    var out := [];
    var i := 0;
    assert s[0..] == s;
    while i < |s|
      invariant i <= |s| && out + DecodeBytes(s[i..]) == DecodeBytes(s)
    {
      var b, n := s[i], 1;
      NextByteAt(s, i);
      if s[i] == PERCENT && i + 2 < |s| {
        var v := HexByte(Latin(s[i + 1..i + 3]));
        if v.Some? {
          b, n := v.value, 3;
        }
      } else if s[i] == PLUS {
        b := SPACE;
      }
      DecodeOneMore(s, i, out, b, n);
      out := out + [b];
      i := i + n;
    }
    assert out + [] == out;
    text := FromUtf8Lossy(out);
  }

  lemma NextCharsAt(s: string, i: nat, strict: bool)
    requires i < |s|
    ensures NextChars(s[i..], strict) ==
            if s[i] == '%' then
              var n := 1 + Taken(s[i + 1..]);
              var v := HexByte(s[i + 1..i + n]);
              if v.Some? then Some(([v.value as char], n)) else if strict then None else Some((s[i..i + n], n))
            else if s[i] == '+' then Some((" ", 1))
            else Some(([s[i]], 1))
  {
    assert s[i..][1..] == s[i + 1..];
    var n := 1 + Taken(s[i + 1..]);
    assert s[i..][1..n] == s[i + 1..i + n];
    assert s[i..][..n] == s[i..i + n];
  }

  lemma DecodeCharsOneMore(s: string, i: nat, strict: bool, result: string, text: string, n: nat)
    requires i < |s| && NextChars(s[i..], strict) == Some((text, n))
    ensures i + n <= |s|
    ensures Prepend(result, DecodeChars(s[i..], strict)) == Prepend(result + text, DecodeChars(s[i + n..], strict))
  {
    assert s[i..][n..] == s[i + n..];
    PrependTwice(result, text, DecodeChars(s[i + n..], strict));
  }

  // One turn of a character decoder's loop.
  method DecodeOne(s: string, i: nat, strict: bool) returns (r: Option<(string, nat)>)
    requires i < |s|
    ensures r == NextChars(s[i..], strict)
  {
    NextCharsAt(s, i, strict);
    if s[i] == '%' {
      var n := 1 + Taken(s[i + 1..]);
      var v := HexByte(s[i + 1..i + n]);
      if v.Some? {
        return Some(([v.value as char], n));
      }
      if strict {
        return None;
      }
      return Some((s[i..i + n], n));
    }
    return Some((if s[i] == '+' then " " else [s[i]], 1));
  }

  method UrlDecodeChars(s: string, strict: bool) returns (out: Option<string>)
    ensures out == DecodeChars(s, strict)
  {
    var result := "";
    var i := 0;
    assert s[0..] == s;
    PrependNothing(DecodeChars(s, strict));
    while i < |s|
      invariant i <= |s| && DecodeChars(s, strict) == Prepend(result, DecodeChars(s[i..], strict))
    {
      var next := DecodeOne(s, i, strict);
      if next.None? {
        DecodeCharsStops(s, i, strict);
        return None;
      }
      var (text, n) := next.value;
      DecodeCharsOneMore(s, i, strict, result, text, n);
      result := result + text;
      i := i + n;
    }
    DecodeCharsEnds(s, i, strict, result);
    return Some(result);
  }

  lemma DecodeCharsStops(s: string, i: nat, strict: bool)
    requires i < |s| && NextChars(s[i..], strict) == None
    ensures DecodeChars(s[i..], strict) == None
  {
  }

  lemma DecodeCharsEnds(s: string, i: nat, strict: bool, result: string)
    requires i == |s|
    ensures Prepend(result, DecodeChars(s[i..], strict)) == Some(result)
  {
    assert s[i..] == "" && result + "" == result;
  }

  lemma PrependNothing(rest: Option<string>)
    ensures Prepend("", rest) == rest
  {
    if rest.Some? {
      assert "" + rest.value == rest.value;
    }
  }

  lemma PrependTwice(a: string, b: string, rest: Option<string>)
    ensures Prepend(a, Prepend(b, rest)) == Prepend(a + b, rest)
  {
    if rest.Some? {
      assert a + (b + rest.value) == a + b + rest.value;
    }
  }

  // One unit of a percent-encoding: a byte as itself, a space as `+`, or an escape.
  datatype Token = Literal(b: Byte) | PlusSign | Escape(hi: Byte, lo: Byte)

  function HexValue(c: char): Option<nat> {
    var d := DigitValue(c);
    if d.Some? && d.value < 16 then d else None
  }

  function HexDigit(b: Byte): Option<nat> {
    HexValue(b as char)
  }

  // Two characters read as a hex number exactly when the second is a digit and the first is
  // one too or a plus sign.
  lemma HexPairExactly(a: char, b: char)
    ensures HexByte([a, b]) ==
            if HexValue(a).Some? && HexValue(b).Some? then Some(HexValue(a).value * 16 + HexValue(b).value)
            else if a == '+' then HexValue(b) else None
  {
    assert [a, b][..1] == [a] && [a, b][1..] == [b] && [a][..0] == "" && [b][..0] == "";
    assert Digits([a], 16) == HexValue(a) && Digits([b], 16) == HexValue(b);
    assert Digits([a, b], 16) ==
           if HexValue(a).Some? && HexValue(b).Some? then Some(HexValue(a).value * 16 + HexValue(b).value) else None;
  }

  lemma PlusInEscape()
    ensures HexByte("+5") == Some(5)
  {
    HexPairExactly('+', '5');
  }

  predicate WellFormed(t: Token) {
    match t
    case Literal(b) => b != PERCENT && b != PLUS
    case PlusSign => true
    case Escape(hi, lo) => HexDigit(hi).Some? && HexDigit(lo).Some?
  }

  function Encoding(t: Token): seq<Byte> {
    match t
    case Literal(b) => [b]
    case PlusSign => [PLUS]
    case Escape(hi, lo) => [PERCENT, hi, lo]
  }

  function Meaning(t: Token): Byte
    requires WellFormed(t)
  {
    match t
    case Literal(b) => b
    case PlusSign => SPACE
    case Escape(hi, lo) => HexDigit(hi).value * 16 + HexDigit(lo).value
  }

  function Encoded(ts: seq<Token>): seq<Byte> {
    if ts == [] then [] else Encoding(ts[0]) + Encoded(ts[1..])
  }

  function Meanings(ts: seq<Token>): seq<Byte>
    requires forall t <- ts :: WellFormed(t)
  {
    if ts == [] then [] else [Meaning(ts[0])] + Meanings(ts[1..])
  }

  lemma EscapeValue(hi: Byte, lo: Byte)
    requires WellFormed(Escape(hi, lo))
    ensures HexByte(Latin([hi, lo])) == Some(Meaning(Escape(hi, lo)))
  {
    assert Latin([hi, lo]) == [hi as char, lo as char];
    HexPairExactly(hi as char, lo as char);
  }

  lemma NextOfToken(t: Token, rest: seq<Byte>, strict: bool)
    requires WellFormed(t)
    ensures var s, n := Encoding(t) + rest, |Encoding(t)|;
            && NextByte(s) == (Meaning(t), n) && s[n..] == rest
            && NextChars(Latin(s), strict) == Some(([Meaning(t) as char], n)) && Latin(s)[n..] == Latin(rest)
  {
    var s := Encoding(t) + rest;
    if t.Escape? {
      EscapeValue(t.hi, t.lo);
      assert s[1..3] == [t.hi, t.lo];
      assert Latin(s)[1..3] == Latin([t.hi, t.lo]);
    }
  }

  // The byte decoder undoes every percent-encoding: whatever mix of literals, plus signs and
  // escapes, in either case of hex digit, spells a byte string, decoding gives it back.
  lemma {:induction false} DecodeUndoesEncoding(ts: seq<Token>)
    requires forall t <- ts :: WellFormed(t)
    ensures DecodeBytes(Encoded(ts)) == Meanings(ts)
  {
    if ts == [] {
    } else {
      DecodeUndoesEncoding(ts[1..]);
      NextOfToken(ts[0], Encoded(ts[1..]), true);
    }
  }

  predicate Ascii(bs: seq<Byte>) {
    forall b <- bs :: b < 128
  }

  lemma LatinTail(bs: seq<Byte>, n: nat)
    requires n <= |bs|
    ensures Latin(bs)[n..] == Latin(bs[n..])
  {
  }

  lemma AsciiTail(bs: seq<Byte>)
    requires bs != []
    ensures Ascii(bs) <==> bs[0] < 128 && Ascii(bs[1..])
  {
    assert bs[0] in bs && forall b <- bs[1..] :: b in bs;
    assert forall b <- bs :: b == bs[0] || b in bs[1..];
  }

  // Reading bytes above 0x7F shortens them or leaves a replacement character.
  lemma {:induction false} LossyShrinks(bs: seq<Byte>)
    ensures |FromUtf8Lossy(bs)| <= |bs|
    ensures Ascii(bs) || |FromUtf8Lossy(bs)| < |bs| || REPLACEMENT in FromUtf8Lossy(bs)
  {
    if bs == [] {
    } else {
      var (n, valid) := Utf8Unit(bs);
      LossyShrinks(bs[n..]);
      AsciiTail(bs);
      if !valid {
        assert FromUtf8Lossy(bs)[0] == REPLACEMENT;
      }
    }
  }

  lemma {:induction false} AsciiReadsAsItself(bs: seq<Byte>)
    requires Ascii(bs)
    ensures FromUtf8Lossy(bs) == Latin(bs)
  {
    if bs == [] {
    } else {
      AsciiTail(bs);
      AsciiReadsAsItself(bs[1..]);
      assert FromUtf8Lossy(bs) == [bs[0] as char] + FromUtf8Lossy(bs[1..]);
      assert Latin(bs) == [bs[0] as char] + Latin(bs[1..]);
    }
  }

  // The lossy reading is one character per byte exactly on ASCII.
  lemma LossyIsLatinExactly(bs: seq<Byte>)
    ensures FromUtf8Lossy(bs) == Latin(bs) <==> Ascii(bs)
  {
    LossyShrinks(bs);
    if Ascii(bs) {
      AsciiReadsAsItself(bs);
    }
  }

  lemma UnitBeforeAscii(bs: seq<Byte>, b: Byte)
    requires bs != [] && b < 128
    ensures Utf8Unit(bs + [b]) == Utf8Unit(bs)
    ensures Utf8Unit(bs).1 ==> CharOf(bs + [b]) == CharOf(bs)
  {
    assert forall k :: 0 <= k < |bs| ==> (bs + [b])[k] == bs[k];
  }

  // An ASCII byte at the end is always read as itself.
  lemma {:induction false} LossyEndsAscii(bs: seq<Byte>, b: Byte)
    requires b < 128
    ensures FromUtf8Lossy(bs + [b]) == FromUtf8Lossy(bs) + [b as char]
  {
    if bs == [] {
      assert bs + [b] == [b] && [b][1..] == [];
    } else {
      var n := Utf8Unit(bs).0;
      UnitBeforeAscii(bs, b);
      assert (bs + [b])[n..] == bs[n..] + [b];
      LossyEndsAscii(bs[n..], b);
    }
  }

  // Every `%` a decoder meets is followed by two characters that read as a hex number, which
  // takes in a plus sign before one digit.
  predicate EscapesAccepted(s: string) {
    if s == "" then true
    else if s[0] == '%' then |s| > 2 && HexByte(s[1..3]).Some? && EscapesAccepted(s[3..])
    else EscapesAccepted(s[1..])
  }

  lemma NextAlike(bs: seq<Byte>, strict: bool)
    requires bs != [] && EscapesAccepted(Latin(bs))
    ensures var (b, n) := NextByte(bs);
            NextChars(Latin(bs), strict) == Some(([b as char], n)) && EscapesAccepted(Latin(bs[n..]))
  {
    var s := Latin(bs);
    LatinTail(bs, NextByte(bs).1);
    if bs[0] == PERCENT {
      assert s[1..3] == Latin(bs[1..3]);
    }
  }

  lemma LatinOneMore(b: Byte, rest: seq<Byte>)
    ensures Latin([b] + rest) == [b as char] + Latin(rest)
  {
  }

  lemma BytesStep(bs: seq<Byte>, b: Byte, n: nat)
    requires bs != [] && NextByte(bs) == (b, n)
    ensures DecodeBytes(bs) == [b] + DecodeBytes(bs[n..])
  {
  }

  lemma CharsStep(s: string, strict: bool, text: string, n: nat)
    requires s != "" && NextChars(s, strict) == Some((text, n))
    ensures DecodeChars(s, strict) == Prepend(text, DecodeChars(s[n..], strict))
  {
  }

  lemma AlikeOneMore(s: string, bs: seq<Byte>, strict: bool, b: Byte, n: nat)
    requires s != "" && bs != [] && NextChars(s, strict) == Some(([b as char], n)) && NextByte(bs) == (b, n)
    requires DecodeChars(s[n..], strict) == Some(Latin(DecodeBytes(bs[n..])))
    ensures DecodeChars(s, strict) == Some(Latin(DecodeBytes(bs)))
  {
    BytesStep(bs, b, n);
    CharsStep(s, strict, [b as char], n);
    LatinOneMore(b, DecodeBytes(bs[n..]));
  }

  lemma {:induction false} AcceptedDecodeAlike(bs: seq<Byte>, strict: bool)
    requires EscapesAccepted(Latin(bs))
    ensures DecodeChars(Latin(bs), strict) == Some(Latin(DecodeBytes(bs)))
  {
    if bs == [] {
      assert Latin(bs) == "" && Latin(DecodeBytes(bs)) == "";
    } else {
      var (b, n) := NextByte(bs);
      NextAlike(bs, strict);
      LatinTail(bs, n);
      AcceptedDecodeAlike(bs[n..], strict);
      AlikeOneMore(Latin(bs), bs, strict, b, n);
    }
  }

  lemma TokenAccepted(t: Token, rest: seq<Byte>)
    requires WellFormed(t) && EscapesAccepted(Latin(rest))
    ensures EscapesAccepted(Latin(Encoding(t) + rest))
  {
    var s := Latin(Encoding(t) + rest);
    NextOfToken(t, rest, true);
    if t.Escape? {
      EscapeValue(t.hi, t.lo);
      assert s[1..3] == Latin([t.hi, t.lo]);
    }
  }

  lemma {:induction false} EncodedAccepted(ts: seq<Token>)
    requires forall t <- ts :: WellFormed(t)
    ensures EscapesAccepted(Latin(Encoded(ts)))
  {
    if ts == [] {
    } else {
      EncodedAccepted(ts[1..]);
      TokenAccepted(ts[0], Encoded(ts[1..]));
    }
  }

  // On every well-formed encoding of literal ASCII the character decoders give the same bytes
  // as the byte decoder, read one character per byte; escapes may stand for any byte.
  lemma CharsDecodeAsLatin(ts: seq<Token>, strict: bool)
    requires forall t <- ts :: WellFormed(t) && (t.Literal? ==> t.b < 128)
    ensures Ascii(Encoded(ts))
    ensures DecodeChars(Latin(Encoded(ts)), strict) == Some(Latin(Meanings(ts)))
  {
    EncodedIsAscii(ts);
    EncodedAccepted(ts);
    AcceptedDecodeAlike(Encoded(ts), strict);
    DecodeUndoesEncoding(ts);
  }

  lemma {:induction false} EncodedIsAscii(ts: seq<Token>)
    requires forall t <- ts :: WellFormed(t) && (t.Literal? ==> t.b < 128)
    ensures Ascii(Encoded(ts))
  {
    if ts == [] {
    } else {
      assert ts[0] in ts;
      EncodedIsAscii(ts[1..]);
    }
  }

  lemma {:induction false} LiteralsAreMeant(ts: seq<Token>)
    requires forall t <- ts :: WellFormed(t)
    ensures forall t <- ts :: Meaning(t) in Meanings(ts)
  {
    if ts == [] {
    } else {
      LiteralsAreMeant(ts[1..]);
      assert forall t <- ts :: t == ts[0] || t in ts[1..];
    }
  }

  // All three agree on every string whose escapes are two hex digits below 0x80.
  lemma DecodersAgree(ts: seq<Token>)
    requires (forall t <- ts :: WellFormed(t)) && Ascii(Meanings(ts))
    ensures var s := Latin(Encoded(ts));
            && DecodeBytes(Encoded(ts)) == Meanings(ts)
            && DecodeChars(s, true) == DecodeChars(s, false) == Some(FromUtf8Lossy(Meanings(ts)))
  {
    DecodeUndoesEncoding(ts);
    LiteralsAreMeant(ts);
    CharsDecodeAsLatin(ts, true);
    CharsDecodeAsLatin(ts, false);
    LossyIsLatinExactly(Meanings(ts));
  }

  // The strict decoder gives up, or ends in a control character where the byte decoder ends in
  // the digit it was made of.
  predicate CutShort(r: Option<string>, out: seq<Byte>) {
    r.Some? ==>
      && r.value != "" && r.value[|r.value| - 1] < 16 as char
      && out != [] && 48 <= out[|out| - 1] < 128
  }

  lemma StillCutShort(text: string, r: Option<string>, b: Byte, out: seq<Byte>)
    requires CutShort(r, out)
    ensures CutShort(Prepend(text, r), [b] + out)
  {
  }

  // The one malformed escape a strict decoder reads is a lone hex digit at the very end.
  lemma {:induction false} RefusedOrCutShort(bs: seq<Byte>)
    requires !EscapesAccepted(Latin(bs))
    ensures CutShort(DecodeChars(Latin(bs), true), DecodeBytes(bs))
  {
    var s := Latin(bs);
    if bs == [] {
      assert false;
    } else if bs[0] == PERCENT && |bs| <= 2 {
      LoneEscape(bs);
    } else {
      var (b, n) := NextByte(bs);
      LatinTail(bs, n);
      if bs[0] == PERCENT {
        assert s[1..3] == Latin(bs[1..3]);
        if HexByte(s[1..3]).Some? {
          assert NextChars(s, true) == Some(([b as char], n)) && n == 3;
          RefusedOrCutShort(bs[3..]);
          StillCutShort([b as char], DecodeChars(s[3..], true), b, DecodeBytes(bs[3..]));
        } else {
          assert NextChars(s, true) == None;
        }
      } else {
        assert NextChars(s, true) == Some(([b as char], n)) && n == 1;
        RefusedOrCutShort(bs[1..]);
        StillCutShort([b as char], DecodeChars(s[1..], true), b, DecodeBytes(bs[1..]));
      }
    }
  }

  lemma LoneEscape(bs: seq<Byte>)
    requires 1 <= |bs| <= 2 && bs[0] == PERCENT
    ensures CutShort(DecodeChars(Latin(bs), true), DecodeBytes(bs))
  {
    var s := Latin(bs);
    if |bs| == 1 {
      assert s[1..1] == "" && s[1..] == "";
      assert NextChars(s, true) == None;
    } else {
      var digit := [bs[1] as char];
      assert s[1..2] == digit && s[1..] == digit;
      LoneDigit(bs[1]);
      if HexByte(digit).Some? {
        DigitBytes(bs);
        assert s[2..] == "" && DecodeChars("", true) == Some("");
        assert NextChars(s, true) == Some(([HexByte(digit).value as char], 2));
      } else {
        assert NextChars(s, true) == None;
      }
    }
  }

  lemma LoneDigit(b: Byte)
    ensures var v := HexByte([b as char]); v.Some? ==> v.value < 16 && 48 <= b < 128
  {
    var digit := [b as char];
    assert digit[..0] == "";
    assert Digits(digit, 16).Some? ==> Digits(digit, 16) == DigitValue(b as char);
  }

  lemma DigitBytes(bs: seq<Byte>)
    requires |bs| == 2 && bs[0] == PERCENT && bs[1] >= 48
    ensures DecodeBytes(bs) == [PERCENT, bs[1]]
  {
    assert bs[1..] == [bs[1]] && bs[1..][1..] == [];
    assert DecodeBytes(bs[1..]) == [bs[1]];
  }

  // On every ASCII string: the strict decoder gives the byte decoder's bytes, one character
  // each, exactly when it meets no other escapes; and all three decoders give one text exactly
  // when besides no decoded byte is above 0x7F.
  lemma DecodersAgreeExactly(bs: seq<Byte>)
    requires Ascii(bs)
    ensures var s, out := Latin(bs), DecodeBytes(bs);
            && (DecodeChars(s, true) == Some(Latin(out)) <==> EscapesAccepted(s))
            && (DecodeChars(s, true) == DecodeChars(s, false) == Some(FromUtf8Lossy(out)) <==>
                EscapesAccepted(s) && Ascii(out))
  {
    var out := DecodeBytes(bs);
    LossyIsLatinExactly(out);
    if EscapesAccepted(Latin(bs)) {
      AcceptedDecodeAlike(bs, true);
      AcceptedDecodeAlike(bs, false);
    } else {
      RefusedOrCutShort(bs);
      if out != [] && out[|out| - 1] < 128 {
        assert out == out[..|out| - 1] + [out[|out| - 1]];
        LossyEndsAscii(out[..|out| - 1], out[|out| - 1]);
      }
    }
  }

  // The lenient decoder always has an answer.
  function LenientText(s: string): string {
    var r := DecodeChars(s, false);
    if r.Some? then r.value else ""
  }

  lemma {:induction false} LenientNeverFails(s: string)
    ensures DecodeChars(s, false).Some?
  {
    if s == "" {
    } else {
      var next := NextChars(s, false);
      assert next.Some?;
      LenientNeverFails(s[next.value.1..]);
    }
  }

  lemma LenientStep(s: string, text: string, n: nat)
    requires s != "" && NextChars(s, false) == Some((text, n))
    ensures LenientText(s) == text + LenientText(s[n..])
  {
    LenientNeverFails(s[n..]);
  }

  // The byte decoder writes this character as it is.
  predicate StandsForItself(s: string, i: nat)
    requires i < |s|
  {
    s[i] != '+' && !(s[i] == '%' && i + 2 < |s| && HexByte(s[i + 1..i + 3]).Some?)
  }

  // Every escape the lenient decoder meets is two characters that read as a hex number, or is
  // kept as text that the byte decoder keeps too.
  predicate KeptAlike(s: string) {
    if s == "" then true
    else if s[0] == '%' then
      var n := 1 + Taken(s[1..]);
      && (if HexByte(s[1..n]).Some? then n == 3 else forall i :: 1 <= i < n ==> StandsForItself(s, i))
      && KeptAlike(s[n..])
    else KeptAlike(s[1..])
  }

  lemma ByteStandsForItself(bs: seq<Byte>, i: nat)
    requires i < |bs| && StandsForItself(Latin(bs), i)
    ensures DecodeBytes(bs[i..]) == [bs[i]] + DecodeBytes(bs[i + 1..])
  {
    NextByteAt(bs, i);
    if bs[i] == PERCENT && i + 2 < |bs| {
      assert Latin(bs)[i + 1..i + 3] == Latin(bs[i + 1..i + 3]);
    }
    assert bs[i..][1..] == bs[i + 1..];
  }

  lemma OneMoreByte(bs: seq<Byte>, i: nat, n: nat, rest: seq<Byte>)
    requires i < n <= |bs|
    ensures [bs[i]] + (bs[i + 1..n] + rest) == bs[i..n] + rest
  {
  }

  lemma {:induction false} BytesStandForThemselves(bs: seq<Byte>, i: nat, n: nat)
    requires i <= n <= |bs| && forall j :: i <= j < n ==> StandsForItself(Latin(bs), j)
    ensures DecodeBytes(bs[i..]) == bs[i..n] + DecodeBytes(bs[n..])
    decreases n - i
  {
    if i == n {
      assert bs[i..n] == [];
    } else {
      BytesStandForThemselves(bs, i + 1, n);
      ByteStandsForItself(bs, i);
      OneMoreByte(bs, i, n, DecodeBytes(bs[n..]));
    }
  }

  // What an accepted escape is made of holds no escape itself.
  lemma EscapeTail(bs: seq<Byte>, i: nat)
    requires i + 2 < |bs| && bs[i] == PERCENT && HexByte(Latin(bs)[i + 1..i + 3]).Some?
    ensures bs[i + 1] != PERCENT && bs[i + 2] != PERCENT
    ensures |DecodeBytes(bs[i..])| == 1 + |DecodeBytes(bs[i + 3..])|
    ensures |DecodeBytes(bs[i + 1..])| == 2 + |DecodeBytes(bs[i + 3..])|
  {
    var s := Latin(bs);
    assert s[i + 1..i + 3] == [s[i + 1], s[i + 2]] == Latin(bs[i + 1..i + 3]);
    HexPairExactly(s[i + 1], s[i + 2]);
    NextByteAt(bs, i);
    NextByteAt(bs, i + 1);
    NextByteAt(bs, i + 2);
    assert bs[i..][3..] == bs[i + 3..] && bs[i + 1..][1..] == bs[i + 2..] && bs[i + 2..][1..] == bs[i + 3..];
  }

  // Starting `k` bytes later loses at least `k` bytes of output, and only those when it is `k`.
  lemma {:induction false} StartingLater(bs: seq<Byte>, k: nat)
    requires k <= |bs|
    ensures var all, late := DecodeBytes(bs), DecodeBytes(bs[k..]);
            |all| < k + |late| || (|all| == k + |late| && all[k..] == late)
    decreases k
  {
    if k == 0 {
    } else {
      StartingLater(bs[1..], k - 1);
      StartingOneLater(bs);
      TwoLater(DecodeBytes(bs), DecodeBytes(bs[1..]), DecodeBytes(bs[1..][k - 1..]), k);
      assert bs[1..][k - 1..] == bs[k..];
    }
  }

  lemma TwoLater(all: seq<Byte>, next: seq<Byte>, late: seq<Byte>, k: nat)
    requires k > 0
    requires |all| < 1 + |next| || (|all| == 1 + |next| && all[1..] == next)
    requires |next| < k - 1 + |late| || (|next| == k - 1 + |late| && next[k - 1..] == late)
    ensures |all| < k + |late| || (|all| == k + |late| && all[k..] == late)
  {
    if |all| == k + |late| {
      assert all[1..][k - 1..] == all[k..];
    }
  }

  lemma StartingOneLater(bs: seq<Byte>)
    requires bs != []
    ensures var all, next := DecodeBytes(bs), DecodeBytes(bs[1..]);
            |all| < 1 + |next| || (|all| == 1 + |next| && all[1..] == next)
  {
    if bs[0] == PERCENT && |bs| > 2 && HexByte(Latin(bs)[1..3]).Some? {
      assert bs[0..] == bs;
      EscapeTail(bs, 0);
    } else {
      OneByteStep(bs);
    }
  }

  lemma OneByteStep(bs: seq<Byte>)
    requires bs != [] && !(bs[0] == PERCENT && |bs| > 2 && HexByte(Latin(bs)[1..3]).Some?)
    ensures |DecodeBytes(bs)| == 1 + |DecodeBytes(bs[1..])| && DecodeBytes(bs)[1..] == DecodeBytes(bs[1..])
  {
    if |bs| > 2 {
      assert Latin(bs)[1..3] == Latin(bs[1..3]);
    }
    assert NextByte(bs).1 == 1;
  }

  // No longer than the lenient text, but for a lone hex digit at the end.
  predicate Within(r: string, out: seq<Byte>) {
    |out| <= |r| || (|out| == |r| + 1 && CutShort(Some(r), out))
  }

  lemma WithinOneMore(text: string, r: string, out: seq<Byte>, all: seq<Byte>)
    requires Within(r, out)
    requires |all| < |text| + |out| || (|all| == |text| + |out| && all[|text|..] == out)
    ensures Within(text + r, all)
  {
    if |out| == |r| + 1 && |all| == |text| + |out| {
      assert all[|all| - 1] == all[|text|..][|out| - 1];
    }
  }

  // What the lenient decoder does next, by how the first character and what follows it read.
  lemma LenientNext(bs: seq<Byte>)
    requires bs != []
    ensures var s := Latin(bs);
            var n := if bs[0] == PERCENT then 1 + Taken(s[1..]) else 1;
            var v := HexByte(s[1..n]);
            LenientText(s) ==
            (if bs[0] != PERCENT then [if bs[0] == PLUS then ' ' else s[0]]
             else if v.Some? then [v.value as char] else s[..n])
            + LenientText(Latin(bs[n..]))
  {
    var s := Latin(bs);
    var n := if bs[0] == PERCENT then 1 + Taken(s[1..]) else 1;
    var next := NextChars(s, false);
    LatinTail(bs, n);
    LenientStep(s, next.value.0, n);
  }

  // At the very end one hex digit is an escape to the lenient decoder only.
  lemma LoneDigitDiffers(bs: seq<Byte>)
    requires |bs| == 2 && bs[0] == PERCENT && HexByte(Latin(bs)[1..2]).Some?
    ensures |LenientText(Latin(bs))| == 1 && |DecodeBytes(bs)| == 2 && Within(LenientText(Latin(bs)), DecodeBytes(bs))
  {
    var s := Latin(bs);
    assert s[1..2] == [bs[1] as char] && bs[2..] == [] && Latin([]) == "";
    LoneDigit(bs[1]);
    DigitBytes(bs);
    LenientNext(bs);
  }

  lemma {:induction false} LenientIsLonger(bs: seq<Byte>)
    ensures Within(LenientText(Latin(bs)), DecodeBytes(bs))
  {
    if bs == [] {
    } else {
      var s := Latin(bs);
      var n := if bs[0] == PERCENT then 1 + Taken(s[1..]) else 1;
      var rest := LenientText(Latin(bs[n..]));
      LenientNext(bs);
      NothingIsNoHex(s);
      if bs[0] == PERCENT && n == 2 && HexByte(s[1..n]).Some? {
        LoneDigitDiffers(bs);
      } else {
        LenientIsLonger(bs[n..]);
        if bs[0] == PERCENT && HexByte(s[1..n]).Some? {
          LenientPair(bs);
          WithinOneMore([HexByte(s[1..3]).value as char], rest, DecodeBytes(bs[3..]), DecodeBytes(bs));
        } else {
          StartingLater(bs, n);
          WithinOneMore(LenientText(s)[..n], rest, DecodeBytes(bs[n..]), DecodeBytes(bs));
          assert LenientText(s) == LenientText(s)[..n] + rest;
        }
      }
    }
  }

  // Both decoders read a pair that is a hex number.
  lemma LenientPair(bs: seq<Byte>)
    requires |bs| > 2 && bs[0] == PERCENT && HexByte(Latin(bs)[1..3]).Some?
    ensures DecodeBytes(bs) == [HexByte(Latin(bs)[1..3]).value] + DecodeBytes(bs[3..])
  {
    assert Latin(bs)[1..3] == Latin(bs[1..3]);
  }

  lemma NothingIsNoHex(s: string)
    requires s != ""
    ensures var n := 1 + Taken(s[1..]); HexByte(s[1..n]).Some? ==> n >= 2
  {
    assert s[1..1] == "";
  }

  lemma PlainText(bs: seq<Byte>)
    requires bs != [] && bs[0] != PERCENT
    ensures |LenientText(Latin(bs))| == 1 + |LenientText(Latin(bs[1..]))|
  {
    LenientNext(bs);
  }

  lemma EscapeInKeptText(bs: seq<Byte>, i: nat)
    requires |bs| > 2 && bs[0] == PERCENT && HexByte(Latin(bs)[1..3]).None?
    requires 1 <= i < 3 && i + 2 < |bs| && bs[i] == PERCENT && HexByte(Latin(bs)[i + 1..i + 3]).Some?
    ensures |DecodeBytes(bs)| < |LenientText(Latin(bs))|
  {
    StartingLater(bs, i);
    EscapeTail(bs, i);
    LenientNext(bs);
    assert bs[3..][1..] == bs[4..];
    PlainText(bs[3..]);
    if i == 2 {
      assert bs[4..][1..] == bs[5..];
      PlainText(bs[4..]);
    }
    LenientIsLonger(bs[i + 3..]);
  }

  lemma PlusInKeptText(bs: seq<Byte>, n: nat, i: nat)
    requires bs != [] && bs[0] == PERCENT && n == 1 + Taken(Latin(bs)[1..]) && HexByte(Latin(bs)[1..n]).None?
    requires 1 <= i < n && bs[i] == PLUS && forall j :: 1 <= j < i ==> StandsForItself(Latin(bs), j)
    ensures LenientText(Latin(bs)) != Latin(DecodeBytes(bs))
  {
    var s := Latin(bs);
    BytesStandForThemselves(bs, 0, i);
    NextByteAt(bs, i);
    LenientNext(bs);
    assert bs[0..] == bs;
    assert DecodeBytes(bs)[i] == SPACE;
    assert LenientText(s)[i] == '+';
  }

  lemma KeptTextDiffers(bs: seq<Byte>, n: nat)
    requires bs != [] && bs[0] == PERCENT && n == 1 + Taken(Latin(bs)[1..]) && HexByte(Latin(bs)[1..n]).None?
    requires exists i :: 1 <= i < n && !StandsForItself(Latin(bs), i)
    ensures LenientText(Latin(bs)) != Latin(DecodeBytes(bs))
  {
    var s := Latin(bs);
    var i := if !StandsForItself(s, 1) then 1 else 2;
    assert !StandsForItself(s, i);
    if bs[i] == PLUS {
      PlusInKeptText(bs, n, i);
    } else {
      EscapeInKeptText(bs, i);
    }
  }

  lemma SameRest(x: seq<Byte>, text: string, r: string, out: seq<Byte>)
    requires text == Latin(x)
    ensures text + r == Latin(x + out) <==> r == Latin(out)
  {
    assert Latin(x + out) == text + Latin(out);
    if text + r == text + Latin(out) {
      assert (text + r)[|text|..] == r && (text + Latin(out))[|text|..] == Latin(out);
    }
  }

  lemma {:induction false} LenientAlikeExactly(bs: seq<Byte>)
    ensures LenientText(Latin(bs)) == Latin(DecodeBytes(bs)) <==> KeptAlike(Latin(bs))
  {
    if bs == [] {
      assert Latin(bs) == "" && Latin(DecodeBytes(bs)) == "";
    } else if bs[0] == PERCENT {
      EscapeAlikeExactly(bs);
    } else {
      LenientAlikeExactly(bs[1..]);
      LenientNext(bs);
      LatinTail(bs, 1);
      var b := NextByte(bs).0;
      SameRest([b], [b as char], LenientText(Latin(bs[1..])), DecodeBytes(bs[1..]));
    }
  }

  lemma {:induction false} EscapeAlikeExactly(bs: seq<Byte>)
    requires bs != [] && bs[0] == PERCENT
    ensures LenientText(Latin(bs)) == Latin(DecodeBytes(bs)) <==> KeptAlike(Latin(bs))
    decreases bs, 0
  {
    var s := Latin(bs);
    var n := 1 + Taken(s[1..]);
    LatinTail(bs, n);
    NothingIsNoHex(s);
    LenientAlikeExactly(bs[n..]);
    if HexByte(s[1..n]).None? {
      KeptAlikeExactly(bs, n);
    } else if n == 2 {
      LoneDigitDiffers(bs);
    } else {
      PairAlikeExactly(bs);
    }
  }

  lemma PairAlikeExactly(bs: seq<Byte>)
    requires |bs| > 2 && bs[0] == PERCENT && HexByte(Latin(bs)[1..3]).Some?
    ensures LenientText(Latin(bs)) == Latin(DecodeBytes(bs)) <==>
            LenientText(Latin(bs[3..])) == Latin(DecodeBytes(bs[3..]))
  {
    var v := HexByte(Latin(bs)[1..3]).value;
    LenientNext(bs);
    LenientPair(bs);
    SameRest([v], [v as char], LenientText(Latin(bs[3..])), DecodeBytes(bs[3..]));
  }

  lemma KeptAlikeExactly(bs: seq<Byte>, n: nat)
    requires bs != [] && bs[0] == PERCENT && n == 1 + Taken(Latin(bs)[1..]) && HexByte(Latin(bs)[1..n]).None?
    ensures LenientText(Latin(bs)) == Latin(DecodeBytes(bs)) <==>
            && (forall i :: 1 <= i < n ==> StandsForItself(Latin(bs), i))
            && LenientText(Latin(bs[n..])) == Latin(DecodeBytes(bs[n..]))
  {
    var s := Latin(bs);
    if forall i :: 1 <= i < n ==> StandsForItself(s, i) {
      LenientNext(bs);
      BytesStandForThemselves(bs, 0, n);
      assert bs[0..] == bs && bs[0..n] == bs[..n] && s[..n] == Latin(bs[..n]);
      SameRest(bs[..n], s[..n], LenientText(Latin(bs[n..])), DecodeBytes(bs[n..]));
    } else {
      KeptTextDiffers(bs, n);
    }
  }

  lemma {:induction false} LenientIsLatin(bs: seq<Byte>)
    ensures forall c <- LenientText(Latin(bs)) :: c < 256 as char
  {
    if bs == [] {
    } else {
      var s := Latin(bs);
      LenientNext(bs);
      LenientIsLatin(bs[if bs[0] == PERCENT then 1 + Taken(s[1..]) else 1..]);
    }
  }

  // On every ASCII string: when the lenient decoder alone gives the byte decoder's bytes, and
  // when it gives its text.
  lemma LenientAgreesExactly(bs: seq<Byte>)
    requires Ascii(bs)
    ensures var s, out := Latin(bs), DecodeBytes(bs);
            && (DecodeChars(s, false) == Some(Latin(out)) <==> KeptAlike(s))
            && (DecodeChars(s, false) == Some(FromUtf8Lossy(out)) <==> KeptAlike(s) && Ascii(out))
  {
    LenientNeverFails(Latin(bs));
    LenientAlikeExactly(bs);
    LossyIsLatinExactly(DecodeBytes(bs));
    LenientIsLonger(bs);
    LenientIsLatin(bs);
    if !Ascii(DecodeBytes(bs)) {
      LongerDiffers(LenientText(Latin(bs)), DecodeBytes(bs));
    }
  }

  lemma LongerDiffers(r: string, out: seq<Byte>)
    requires Within(r, out) && !Ascii(out) && forall c <- r :: c < 256 as char
    ensures r != FromUtf8Lossy(out)
  {
    LossyShrinks(out);
    if |out| > |r| {
      assert out == out[..|out| - 1] + [out[|out| - 1]];
      LossyEndsAscii(out[..|out| - 1], out[|out| - 1]);
    }
  }

  lemma ShortHex(c: char)
    ensures HexByte("") == None && HexByte([c]) == HexValue(c)
  {
    assert [c][..0] == "";
    assert Digits([c], 16) == HexValue(c);
  }

  // The byte decoder, unit by unit: a byte other than `%` and `+` as itself, `+` as a space,
  // `%` and two characters that read as a hex number as that number, any other `%` as itself.
  lemma BytesExactly(b: Byte, x: Byte, y: Byte, rest: seq<Byte>)
    ensures DecodeBytes([]) == []
    ensures b != PERCENT ==> DecodeBytes([b] + rest) == [if b == PLUS then SPACE else b] + DecodeBytes(rest)
    ensures var v := HexByte([x as char, y as char]);
            DecodeBytes([PERCENT, x, y] + rest) ==
            if v.Some? then [v.value] + DecodeBytes(rest) else [PERCENT] + DecodeBytes([x, y] + rest)
    ensures DecodeBytes([PERCENT]) == [PERCENT] && DecodeBytes([PERCENT, x]) == [PERCENT] + DecodeBytes([x])
  {
    assert ([b] + rest)[1..] == rest;
    var s := [PERCENT, x, y] + rest;
    assert Latin(s[1..3]) == [x as char, y as char] && s[3..] == rest && s[1..] == [x, y] + rest;
    assert [PERCENT][1..] == [] && [PERCENT, x][1..] == [x];
  }

  // The character decoders, unit by unit: a character other than `%` and `+` as itself, `+` as a
  // space, `%` and the two characters after it, or as many as there are, as the number they
  // read as. When they read as none the strict decoder gives up and the other keeps them.
  lemma CharsExactly(c: char, x: char, y: char, rest: string, strict: bool)
    ensures DecodeChars("", strict) == Some("")
    ensures c != '%' ==>
              DecodeChars([c] + rest, strict) == Prepend(if c == '+' then " " else [c], DecodeChars(rest, strict))
    ensures var v := HexByte([x, y]);
            DecodeChars(['%', x, y] + rest, strict) ==
            if v.Some? then Prepend([v.value as char], DecodeChars(rest, strict))
            else if strict then None else Prepend(['%', x, y], DecodeChars(rest, strict))
    ensures DecodeChars(['%', x], strict) ==
            if HexValue(x).Some? then Some([HexValue(x).value as char]) else if strict then None else Some(['%', x])
    ensures DecodeChars("%", strict) == if strict then None else Some("%")
  {
    if c != '%' {
      OtherChar(c, rest, strict);
    }
    PairOfChars(x, y, rest, strict);
    CharsCutShort(x, strict);
  }

  lemma OtherChar(c: char, rest: string, strict: bool)
    requires c != '%'
    ensures DecodeChars([c] + rest, strict) == Prepend(if c == '+' then " " else [c], DecodeChars(rest, strict))
  {
    assert ([c] + rest)[1..] == rest;
    CharsStep([c] + rest, strict, if c == '+' then " " else [c], 1);
  }

  lemma PairOfChars(x: char, y: char, rest: string, strict: bool)
    ensures var v := HexByte([x, y]);
            DecodeChars(['%', x, y] + rest, strict) ==
            if v.Some? then Prepend([v.value as char], DecodeChars(rest, strict))
            else if strict then None else Prepend(['%', x, y], DecodeChars(rest, strict))
  {
    var s := ['%', x, y] + rest;
    assert s[1..3] == [x, y] && s[3..] == rest && s[..3] == ['%', x, y] && Taken(s[1..]) == 2;
    var v := HexByte([x, y]);
    if v.Some? {
      CharsStep(s, strict, [v.value as char], 3);
    } else if !strict {
      CharsStep(s, strict, ['%', x, y], 3);
    }
  }

  lemma CharsCutShort(x: char, strict: bool)
    ensures DecodeChars(['%', x], strict) ==
            if HexValue(x).Some? then Some([HexValue(x).value as char]) else if strict then None else Some(['%', x])
    ensures DecodeChars("%", strict) == if strict then None else Some("%")
  {
    var s := ['%', x];
    ShortHex(x);
    assert s[1..2] == [x] && s[2..] == "" && s[..2] == s && Taken(s[1..]) == 1;
    assert "%"[1..1] == "" && "%"[1..] == "" && "%"[..1] == "%" && Taken("") == 0;
    var v := HexByte([x]);
    if v.Some? {
      CharsStep(s, strict, [v.value as char], 2);
      assert [v.value as char] + "" == [v.value as char];
    } else if !strict {
      CharsStep(s, strict, s, 2);
      assert s + "" == s;
    }
    if !strict {
      CharsStep("%", strict, "%", 1);
      assert "%" + "" == "%";
    }
  }

  function HexText(d: nat): Byte
    requires d < 16
  {
    if d < 10 then 48 + d else 55 + d
  }

  // An encoder: `keep` says which bytes to leave as they are.
  function Tokens(bs: seq<Byte>, keep: Byte -> bool): seq<Token> {
    if bs == [] then []
    else
      var b := bs[0];
      [if keep(b) && b != PERCENT && b != PLUS then Literal(b) else Escape(HexText(b / 16), HexText(b % 16))]
      + Tokens(bs[1..], keep)
  }

  lemma HexTextIsDigit(d: nat)
    requires d < 16
    ensures HexDigit(HexText(d)) == Some(d)
  {
  }

  // Every byte string survives encoding, whichever bytes are kept, and decoding.
  lemma {:induction false} RoundTrip(bs: seq<Byte>, keep: Byte -> bool)
    ensures forall t <- Tokens(bs, keep) :: WellFormed(t)
    ensures Meanings(Tokens(bs, keep)) == bs
    ensures DecodeBytes(Encoded(Tokens(bs, keep))) == bs
  {
    if bs == [] {
    } else {
      var ts := Tokens(bs, keep);
      RoundTrip(bs[1..], keep);
      HexTextIsDigit(bs[0] / 16);
      HexTextIsDigit(bs[0] % 16);
      assert ts[1..] == Tokens(bs[1..], keep);
      assert WellFormed(ts[0]) && Meaning(ts[0]) == bs[0];
      assert forall t <- ts :: t == ts[0] || t in ts[1..];
    }
    DecodeUndoesEncoding(Tokens(bs, keep));
  }

  function Utf8(c: char): seq<Byte> {
    var n := c as int;
    var (m, l) := (n / 64, n / 64 / 64);
    if n < 0x80 then [n]
    else if n < 0x800 then [0xC0 + m, 0x80 + n % 64]
    else if n < 0x10000 then [0xE0 + l, 0x80 + m % 64, 0x80 + n % 64]
    else [0xF0 + l / 64, 0x80 + l % 64, 0x80 + m % 64, 0x80 + n % 64]
  }

  function Utf8Bytes(text: string): seq<Byte> {
    if text == "" then [] else Utf8(text[0]) + Utf8Bytes(text[1..])
  }

  lemma Utf8IsAUnit(c: char)
    ensures Utf8Unit(Utf8(c)) == (|Utf8(c)|, true)
  {
    assert |Utf8(c)| == 3 && Utf8(c)[0] == 0xE0 ==> c as int >= 0x800;
  }

  lemma UnitReadsBack(c: char)
    requires Utf8Unit(Utf8(c)) == (|Utf8(c)|, true)
    ensures CharOf(Utf8(c)) == c
  {
  }

  lemma UnitIgnoresRest(s: seq<Byte>, rest: seq<Byte>)
    requires s != [] && Utf8Unit(s) == (|s|, true)
    ensures Utf8Unit(s + rest) == (|s|, true) && CharOf(s + rest) == CharOf(s)
  {
    assert forall k :: 0 <= k < |s| ==> (s + rest)[k] == s[k];
  }

  lemma {:induction false} Utf8RoundTrip(text: string)
    ensures FromUtf8Lossy(Utf8Bytes(text)) == text
  {
    if text == "" {
    } else {
      var rest := Utf8Bytes(text[1..]);
      Utf8RoundTrip(text[1..]);
      Utf8IsAUnit(text[0]);
      UnitReadsBack(text[0]);
      UnitIgnoresRest(Utf8(text[0]), rest);
      assert (Utf8(text[0]) + rest)[|Utf8(text[0])|..] == rest;
    }
  }

  // So does every text: its UTF-8 bytes, encoded and decoded, read as the text.
  lemma TextRoundTrip(text: string, keep: Byte -> bool)
    ensures FromUtf8Lossy(DecodeBytes(Encoded(Tokens(Utf8Bytes(text), keep)))) == text
  {
    RoundTrip(Utf8Bytes(text), keep);
    Utf8RoundTrip(text);
  }

  // On a malformed escape the three differ: `%%41`.
  lemma DecodersDifferOnMalformedEscapes()
    ensures Latin([37, 37, 52, 49]) == "%%41"
    ensures DecodeBytes([37, 37, 52, 49]) == [37, 65]
    ensures DecodeChars("%%41", true) == None
    ensures DecodeChars("%%41", false) == Some("%%41")
  {
    assert Latin([37, 37, 52, 49]) == "%%41";
    HexPairExactly('%', '4');
    HexPairExactly('4', '1');
    MalformedBytes();
    MalformedChars();
  }

  lemma MalformedBytes()
    requires HexByte("%4") == None && HexByte("41") == Some(65)
    ensures DecodeBytes([37, 37, 52, 49]) == [37, 65]
  {
    var s: seq<Byte> := [37, 37, 52, 49];
    assert Latin(s[1..3]) == "%4" && s[1..] == [37, 52, 49];
    assert Latin(s[1..][1..3]) == "41" && s[1..][3..] == [];
    BytesStep(s, 37, 1);
    BytesStep(s[1..], 65, 3);
  }

  lemma MalformedChars()
    requires HexByte("%4") == None
    ensures DecodeChars("%%41", true) == None && DecodeChars("%%41", false) == Some("%%41")
  {
    var s := "%%41";
    assert s[1..3] == "%4" && s[3..] == "1" && s[..3] == "%%4" && "1"[1..] == "";
    CharsStep(s, false, "%%4", 3);
    CharsStep("1", false, "1", 1);
    assert "1" + "" == "1" && "%%4" + "1" == s;
  }
}
