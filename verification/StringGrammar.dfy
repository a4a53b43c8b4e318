/** What a JSON string literal is and what it means, part by part, against the lexer and the
    decoder. Nothing here uses their tables: escapes and digits are spelled out. */
module StringGrammar {
  import opened Wrappers
  import opened Strings
  import opened JsonLexers
  import opened Utf
  import opened JsonString
  import opened JsonUtf8

  /** A character that stands for itself, one of the eight short escapes by its number, or a
      four-digit escape with the values of its digits and their text. */
  datatype Part = Plain(ch: char) | Short(i: nat) | Escape(a: nat, b: nat, c: nat, d: nat, digits: string)

  const SHORT_NAMES: string := "\"\\/bfnrt"
  const SHORT_VALUES: string := ['\"', '\\', '/', 8 as char, 12 as char, 10 as char, 13 as char, 9 as char]

  const SMALL_DIGITS: string := "0123456789abcdef"
  const CAPITAL_DIGITS: string := "0123456789ABCDEF"

  predicate IsDigit(c: char, v: nat) {
    v < 16 && (c == SMALL_DIGITS[v] || c == CAPITAL_DIGITS[v])
  }

  predicate ValidPart(p: Part) {
    match p
    case Plain(c) => c as int >= 32 && c != '\"' && c != '\\'
    case Short(i) => i < 8
    case Escape(a, b, c, d, digits) =>
      |digits| == 4 && IsDigit(digits[0], a) && IsDigit(digits[1], b) && IsDigit(digits[2], c) && IsDigit(digits[3], d)
  }

  predicate ValidParts(parts: seq<Part>) {
    forall i :: 0 <= i < |parts| ==> ValidPart(parts[i])
  }

  function Spelling(p: Part): (s: string)
    requires ValidPart(p)
    ensures s != ""
  {
    match p
    case Plain(c) => [c]
    case Short(i) => ['\\', SHORT_NAMES[i]]
    case Escape(_, _, _, _, digits) => "\\u" + digits
  }

  function Body(parts: seq<Part>): string
    requires ValidParts(parts)
  {
    if parts == [] then "" else Spelling(parts[0]) + Body(parts[1..])
  }

  // ---------------------------------------------------------------- digits

  lemma DigitIs(c: char, v: nat)
    ensures IsDigit(c, v) <==> IsHexDigit(c) && HexValue(c) == v
  {
    if v < 16 {
      assert v == 0 || v == 1 || v == 2 || v == 3 || v == 4 || v == 5 || v == 6 || v == 7 || v == 8 || v == 9
             || v == 10 || v == 11 || v == 12 || v == 13 || v == 14 || v == 15;
    }
  }

  lemma ShortIs(c: char) returns (i: nat)
    requires IsSimpleEscape(c)
    ensures i < 8 && SHORT_NAMES[i] == c && SHORT_VALUES[i] == SimpleValue(c)
  {
    i := if c == '\"' then 0 else if c == '\\' then 1 else if c == '/' then 2 else if c == 'b' then 3
         else if c == 'f' then 4 else if c == 'n' then 5 else if c == 'r' then 6 else 7;
  }

  lemma ShortNames(i: nat)
    requires i < 8
    ensures IsSimpleEscape(SHORT_NAMES[i]) && SimpleValue(SHORT_NAMES[i]) == SHORT_VALUES[i]
  {
    assert i == 0 || i == 1 || i == 2 || i == 3 || i == 4 || i == 5 || i == 6 || i == 7;
  }

  function EscapeOf(digits: string): (p: Part)
    requires |digits| == 4 && forall i :: 0 <= i < 4 ==> IsHexDigit(digits[i])
    ensures p.Escape? && ValidPart(p) && p.digits == digits
  {
    DigitIs(digits[0], HexValue(digits[0]));
    DigitIs(digits[1], HexValue(digits[1]));
    DigitIs(digits[2], HexValue(digits[2]));
    DigitIs(digits[3], HexValue(digits[3]));
    Escape(HexValue(digits[0]), HexValue(digits[1]), HexValue(digits[2]), HexValue(digits[3]), digits)
  }

  // ---------------------------------------------------------------- the lexer

  lemma {:induction false} FourHex(s: string, i: nat)
    requires i + 4 <= |s| && forall j :: i <= j < i + 4 ==> IsHexDigit(s[j])
    ensures HexRun(s, i, 4) == Some(i + 4)
  {
    assert HexRun(s, i + 4, 0) == Some(i + 4);
    assert HexRun(s, i + 3, 1) == Some(i + 4);
    assert HexRun(s, i + 2, 2) == Some(i + 4);
    assert HexRun(s, i + 1, 3) == Some(i + 4);
  }

  lemma OverEscape(s: string, i: nat, a: nat, b: nat, c: nat, d: nat)
    requires i + 6 <= |s| && s[i] == '\\' && s[i + 1] == 'u'
    requires IsDigit(s[i + 2], a) && IsDigit(s[i + 3], b) && IsDigit(s[i + 4], c) && IsDigit(s[i + 5], d)
    ensures StringBody(s, i) == StringBody(s, i + 6)
  {
    DigitIs(s[i + 2], a);
    DigitIs(s[i + 3], b);
    DigitIs(s[i + 4], c);
    DigitIs(s[i + 5], d);
    FourHex(s, i + 2);
  }

  lemma OverShort(s: string, i: nat, k: nat)
    requires i + 2 <= |s| && k < 8 && s[i] == '\\' && s[i + 1] == SHORT_NAMES[k]
    ensures StringBody(s, i) == StringBody(s, i + 2)
  {
    ShortNames(k);
  }

  // The lexer reads over one part.
  lemma OverPart(s: string, i: nat, p: Part)
    requires i <= |s| && ValidPart(p) && Spelling(p) <= s[i..]
    ensures i + |Spelling(p)| <= |s| && StringBody(s, i) == StringBody(s, i + |Spelling(p)|)
  {
    var e := Spelling(p);
    assert forall j :: 0 <= j < |e| ==> s[i + j] == e[j];
    match p
    case Plain(c) =>
    case Short(k) => OverShort(s, i, k);
    case Escape(a, b, c, d, digits) =>
      assert forall j :: 0 <= j < 4 ==> s[i + 2 + j] == digits[j];
      OverEscape(s, i, a, b, c, d);
  }

  lemma PrefixParts(s: string, i: nat, a: string, b: string)
    requires i <= |s| && (a + b) + "\"" <= s[i..]
    ensures i + |a| <= |s| && a <= s[i..] && b + "\"" <= s[i + |a|..]
  {
    var t := s[i..];
    assert t[..|a|] == a && t[|a|..|a| + |b| + 1] == b + "\"" && t[|a|..] == s[i + |a|..];
  }

  lemma QuoteEnds(s: string, i: nat)
    requires i <= |s| && "\"" <= s[i..]
    ensures StringBody(s, i) == Taken(i + 1)
  {
    assert s[i..][0] == '\"';
  }

  lemma PartThenRest(s: string, i: nat, p: Part, back: string, end: nat)
    requires i <= |s| && ValidPart(p) && (Spelling(p) + back) + "\"" <= s[i..]
    requires end == i + |Spelling(p)| + |back| + 1
    ensures i + |Spelling(p)| <= |s| && back + "\"" <= s[i + |Spelling(p)|..]
    ensures StringBody(s, i + |Spelling(p)|) == Taken(end) ==> StringBody(s, i) == Taken(end)
  {
    PrefixParts(s, i, Spelling(p), back);
    OverPart(s, i, p);
  }

  lemma {:induction false} SpelledIsTaken(s: string, i: nat, parts: seq<Part>, text: string)
    requires i <= |s| && ValidParts(parts) && text == Body(parts) && text + "\"" <= s[i..]
    ensures StringBody(s, i) == Taken(i + |text| + 1)
    decreases |parts|
  {
    if parts == [] {
      assert text + "\"" == "\"";
      QuoteEnds(s, i);
    } else {
      var back := Body(parts[1..]);
      var next, end := i + |Spelling(parts[0])|, i + |text| + 1;
      assert text == Spelling(parts[0]) + back;
      PartThenRest(s, i, parts[0], back, end);
      SpelledIsTaken(s, next, parts[1..], back);
      assert StringBody(s, next) == Taken(end);
    }
  }

  lemma BodyCons(p: Part, parts: seq<Part>)
    requires ValidPart(p) && ValidParts(parts)
    ensures ValidParts([p] + parts) && Body([p] + parts) == Spelling(p) + Body(parts)
  {
    assert ([p] + parts)[1..] == parts;
  }

  // The first part of a text that the lexer does not refuse, if it is whole.
  lemma PartAt(s: string, i: nat) returns (p: Part)
    requires i < |s| && !StringBody(s, i).Mismatch? && s[i] != '\"' && (s[i] == '\\' ==> i + 1 < |s|)
    requires s[i] == '\\' && s[i + 1] == 'u' ==> HexRun(s, i + 2, 4) == Some(i + 6)
    ensures ValidPart(p) && i + |Spelling(p)| <= |s| && Spelling(p) == s[i..i + |Spelling(p)|]
    ensures StringBody(s, i) == StringBody(s, i + |Spelling(p)|)
  {
    if s[i] != '\\' {
      p := Plain(s[i]);
    } else if IsSimpleEscape(s[i + 1]) {
      var k := ShortIs(s[i + 1]);
      p := Short(k);
    } else {
      HexRunIs(s, i + 2, 4);
      p := EscapeOf(s[i + 2..i + 6]);
      assert s[i..i + 6] == "\\u" + s[i + 2..i + 6];
    }
    OverPart(s, i, p);
  }

  lemma {:induction false} HexRunIs(s: string, i: nat, n: nat)
    requires i <= |s| && HexRun(s, i, n).Some?
    ensures var j := HexRun(s, i, n).value; i <= j <= |s| && j <= i + n && forall k :: i <= k < j ==> IsHexDigit(s[k])
    decreases n
  {
    if n > 0 && i < |s| { HexRunIs(s, i + 1, n - 1); }
  }

  lemma FirstOfTaken(s: string, i: nat) returns (p: Part, n: nat)
    requires i <= |s| && StringBody(s, i).Taken? && s[i] != '\"'
    ensures ValidPart(p) && i < n <= |s| && Spelling(p) == s[i..n] && StringBody(s, i) == StringBody(s, n)
  {
    if s[i] == '\\' && s[i + 1] == 'u' { WholeRun(s, i); }
    p := PartAt(s, i);
    n := i + |Spelling(p)|;
  }

  lemma {:induction false} TakenIsSpelled(s: string, i: nat) returns (parts: seq<Part>)
    requires i <= |s| && StringBody(s, i).Taken?
    ensures ValidParts(parts) && Body(parts) + "\"" == s[i..StringBody(s, i).len]
    decreases |s| - i
  {
    if s[i] == '\"' {
      parts := [];
    } else {
      var p, n := FirstOfTaken(s, i);
      var rest := TakenIsSpelled(s, n);
      JoinTaken(s, i, n, StringBody(s, i).len, p, rest);
      parts := [p] + rest;
    }
  }

  lemma JoinTaken(s: string, i: nat, n: nat, end: nat, p: Part, rest: seq<Part>)
    requires i <= n <= end <= |s| && ValidPart(p) && ValidParts(rest) && Spelling(p) == s[i..n]
    requires Body(rest) + "\"" == s[n..end]
    ensures ValidParts([p] + rest) && Body([p] + rest) + "\"" == s[i..end]
  {
    BodyCons(p, rest);
    Assoc(Spelling(p), Body(rest), "\"");
    Adjacent(s, i, n, end);
  }

  lemma Adjacent(s: string, i: nat, j: nat, k: nat)
    requires i <= j <= k <= |s|
    ensures s[i..j] + s[j..k] == s[i..k]
  {}

  // A literal that is taken has all the digits of its escapes.
  lemma WholeRun(s: string, i: nat)
    requires i + 1 < |s| && s[i] == '\\' && s[i + 1] == 'u' && StringBody(s, i).Taken?
    ensures HexRun(s, i + 2, 4) == Some(i + 6)
  {}

  /** A text that is undecided is the beginning of some literal. */
  lemma {:induction false} UndecidedIsBegun(s: string, i: nat) returns (parts: seq<Part>)
    requires i <= |s| && StringBody(s, i).Undecided?
    ensures ValidParts(parts) && s[i..] < Body(parts) + "\""
    decreases |s| - i
  {
    if i == |s| {
      parts := [];
    } else if s[i] == '\\' && i + 1 == |s| {
      parts := [Short(1)];
      BodyCons(Short(1), []);
      assert s[i..] == "\\" && Body(parts) + "\"" == "\\\\\"";
    } else if s[i] == '\\' && s[i + 1] == 'u' && HexRun(s, i + 2, 4) != Some(i + 6) {
      parts := BegunEscape(s, i);
    } else {
      var p := PartAt(s, i);
      var n := i + |Spelling(p)|;
      var rest := UndecidedIsBegun(s, n);
      JoinBegun(s, i, n, p, rest);
      parts := [p] + rest;
    }
  }

  lemma JoinBegun(s: string, i: nat, n: nat, p: Part, rest: seq<Part>)
    requires i <= n <= |s| && ValidPart(p) && ValidParts(rest) && Spelling(p) == s[i..n]
    requires s[n..] < Body(rest) + "\""
    ensures ValidParts([p] + rest) && s[i..] < Body([p] + rest) + "\""
  {
    BodyCons(p, rest);
    Assoc(Spelling(p), Body(rest), "\"");
    Adjacent(s, i, n, |s|);
    LongerPrefix(Spelling(p), s[n..], Body(rest) + "\"");
  }

  lemma LongerPrefix(a: string, b: string, c: string)
    requires b < c
    ensures a + b < a + c
  {
    assert c == b + c[|b|..];
    assert a + c == (a + b) + c[|b|..];
  }

  // The text ends inside the digits of an escape; zeros would end it.
  lemma BegunEscape(s: string, i: nat) returns (parts: seq<Part>)
    requires i + 1 < |s| && s[i] == '\\' && s[i + 1] == 'u'
    requires StringBody(s, i).Undecided? && HexRun(s, i + 2, 4) != Some(i + 6)
    ensures ValidParts(parts) && s[i..] < Body(parts) + "\""
  {
    HexRunIs(s, i + 2, 4);
    var digits := (s[i + 2..] + "0000")[..4];
    assert |s| < i + 6 && s[i + 2..] <= digits;
    var p := EscapeOf(digits);
    parts := [p];
    BodyCons(p, []);
    assert s[i..] == "\\u" + s[i + 2..];
    assert Body(parts) + "\"" == "\\u" + (digits + "\"");
    LongerPrefix("\\u", s[i + 2..], digits + "\"");
  }

  // ---------------------------------------------------------------- literals

  /** A string literal of JSON, section 7 of RFC 8259, surrogates aside. */
  function Literal(parts: seq<Part>): string
    requires ValidParts(parts)
  {
    "\"" + Body(parts) + "\""
  }

  lemma LiteralBody(parts: seq<Part>)
    requires ValidParts(parts)
    ensures Literal(parts)[0] == '\"' && Literal(parts)[1..] == Body(parts) + "\""
  {}

  /** The string lexer takes a literal at the front of the text, whatever follows; */
  lemma LiteralIsTaken(parts: seq<Part>, rest: string)
    requires ValidParts(parts)
    ensures LexString(Literal(parts) + rest) == Taken(|Literal(parts)|)
  {
    var s := Literal(parts) + rest;
    assert s[1..] == (Body(parts) + "\"") + rest;
    SpelledIsTaken(s, 1, parts, Body(parts));
  }

  /** what it takes is a literal; */
  lemma TakenIsLiteral(s: string) returns (parts: seq<Part>)
    requires s != "" && LexString(s).Taken?
    ensures LexString(s).len <= |s| && ValidParts(parts) && s[..LexString(s).len] == Literal(parts)
  {
    parts := TakenIsSpelled(s, 1);
    Adjacent(s, 0, 1, LexString(s).len);
    assert s[..1] == "\"";
    Assoc("\"", Body(parts), "\"");
  }

  /** where it is undecided, more text could make a literal; */
  lemma UndecidedIsPrefix(s: string) returns (parts: seq<Part>)
    requires s != "" && LexString(s).Undecided?
    ensures ValidParts(parts) && s < Literal(parts)
  {
    parts := UndecidedIsBegun(s, 1);
    LongerPrefix("\"", s[1..], Body(parts) + "\"");
    assert s == "\"" + s[1..];
    Assoc("\"", Body(parts), "\"");
  }

  /** and what it refuses neither begins with a literal nor begins one. */
  lemma RefusedIsNoLiteral(s: string, parts: seq<Part>)
    requires s != "" && LexString(s).Mismatch? && ValidParts(parts)
    ensures !(Literal(parts) <= s) && !(s <= Literal(parts))
  {
    var l := Literal(parts);
    if l <= s {
      var back := s[|l|..];
      assert s == l + back;
      LiteralIsTaken(parts, back);
    }
    if s <= l {
      LiteralIsTaken(parts, "");
      var back := l[|s|..];
      assert l + "" == l && l == s + back;
      StringReadStable(s, back);
    }
  }

  // ---------------------------------------------------------------- the decoder

  predicate IsHighUnit(p: Part) {
    p.Escape? && 0xD800 <= UnitOf(p) <= 0xDBFF
  }

  predicate IsLowUnit(p: Part) {
    p.Escape? && 0xDC00 <= UnitOf(p) <= 0xDFFF
  }

  // The code unit of a four-digit escape.
  function UnitOf(p: Part): nat
    requires p.Escape?
  {
    p.a * 0x1000 + p.b * 0x100 + p.c * 0x10 + p.d
  }

  // The code point of a surrogate pair, section 2.1 of RFC 2781.
  function Paired(high: nat, low: nat): (cp: nat)
    requires 0xD800 <= high <= 0xDBFF && 0xDC00 <= low <= 0xDFFF
    ensures cp <= 0x10FFFF
  {
    0x10000 + (high - 0xD800) * 0x400 + (low - 0xDC00)
  }

  /** The value of a literal, in UTF-8: a character for itself, the values of the short escapes, and
      code units in UTF-16, of which a high surrogate has to come right before a low one and a low
      one right behind a high one. None if a surrogate is alone. */
  function Meaning(parts: seq<Part>): Option<string>
    requires ValidParts(parts)
    decreases |parts|
  {
    if parts == [] then Some("")
    else
      match parts[0]
      case Plain(c) => Prepend([c], Meaning(parts[1..]))
      case Short(i) => Prepend([SHORT_VALUES[i]], Meaning(parts[1..]))
      case Escape(_, _, _, _, _) =>
        var u := UnitOf(parts[0]);
        if IsLowUnit(parts[0]) then None
        else if !IsHighUnit(parts[0]) then Prepend(Utf8Of(u), Meaning(parts[1..]))
        else if |parts| > 1 && IsLowUnit(parts[1]) then
          Prepend(Utf8Of(Paired(u, UnitOf(parts[1]))), Meaning(parts[2..]))
        else None
  }

  lemma UnitIs(p: Part, rest: string)
    requires ValidPart(p) && p.Escape?
    ensures var s := Spelling(p) + rest; HasUnit(s) && Unit(s) == UnitOf(p) <= 0xFFFF && s[6..] == rest
  {
    var s := Spelling(p) + rest;
    assert forall j :: 0 <= j < 4 ==> s[2 + j] == p.digits[j];
    DigitIs(s[2], p.a);
    DigitIs(s[3], p.b);
    DigitIs(s[4], p.c);
    DigitIs(s[5], p.d);
    FourDigits(s, 2);
  }

  // A part that is no escape of four digits does not begin like one.
  lemma NoUnit(parts: seq<Part>)
    requires ValidParts(parts)
    ensures parts == [] || !parts[0].Escape? ==> !HasUnit(Body(parts) + "\"")
  {
    if parts != [] {
      Assoc(Spelling(parts[0]), Body(parts[1..]), "\"");
      if parts[0].Short? { ShortNames(parts[0].i); }
    }
  }

  lemma {:induction false} UnescapeIsMeaning(parts: seq<Part>)
    requires ValidParts(parts)
    ensures Unescape(Body(parts) + "\"") == Meaning(parts)
    decreases |parts|
  {
    if parts == [] {
      assert Body(parts) + "\"" == "\"";
    } else {
      var e, rest := Spelling(parts[0]), Body(parts[1..]) + "\"";
      Assoc(e, Body(parts[1..]), "\"");
      var s := e + rest;
      assert s[|e|..] == rest;
      UnescapeIsMeaning(parts[1..]);
      match parts[0]
      case Plain(c) =>
      case Short(i) => ShortNames(i);
      case Escape(_, _, _, _, _) =>
        UnitIs(parts[0], rest);
        if IsHighUnit(parts[0]) { HighIsMeaning(parts, rest); }
    }
  }

  // What the decoder makes of a high surrogate in front of t.
  lemma HighIsRead(s: string, t: string, u: nat)
    requires HasUnit(s) && Unit(s) == u && 0xD800 <= u <= 0xDBFF && s[6..] == t
    ensures Unescape(s) == if HasUnit(t) && 0xDC00 <= Unit(t) <= 0xDFFF
                           then Prepend(Utf8Of(Paired(u, Unit(t))), Unescape(t[6..])) else None
  {
    if HasUnit(t) { assert s[12..] == t[6..]; }
  }

  lemma HighIsMeaning(parts: seq<Part>, rest: string)
    requires ValidParts(parts) && |parts| > 0 && IsHighUnit(parts[0]) && rest == Body(parts[1..]) + "\""
    ensures Unescape(Spelling(parts[0]) + rest) == Meaning(parts)
    decreases |parts|, 0
  {
    UnitIs(parts[0], rest);
    HighIsRead(Spelling(parts[0]) + rest, rest, UnitOf(parts[0]));
    if |parts| > 1 && parts[1].Escape? {
      var back := Body(parts[2..]) + "\"";
      NextUnit(parts, rest, back);
      UnescapeIsMeaning(parts[2..]);
    } else {
      NoUnit(parts[1..]);
    }
  }

  lemma NextUnit(parts: seq<Part>, rest: string, back: string)
    requires ValidParts(parts) && |parts| > 1 && parts[1].Escape?
    requires rest == Body(parts[1..]) + "\"" && back == Body(parts[2..]) + "\""
    ensures HasUnit(rest) && Unit(rest) == UnitOf(parts[1]) && rest[6..] == back
  {
    assert parts[1..][1..] == parts[2..];
    Assoc(Spelling(parts[1]), Body(parts[2..]), "\"");
    UnitIs(parts[1], back);
  }

  /** decode() gives every literal its meaning, or nothing if it has none; */
  lemma DecodeIsMeaning(parts: seq<Part>)
    requires ValidParts(parts)
    ensures Decoded(Literal(parts)) == Meaning(parts)
  {
    LiteralBody(parts);
    UnescapeIsMeaning(parts);
  }

  /** and it accepts nothing else. */
  lemma DecodableIsLiteral(s: string) returns (parts: seq<Part>)
    requires Decoded(s).Some?
    ensures ValidParts(parts) && s == Literal(parts) && Decoded(s) == Meaning(parts)
  {
    DecodableIsOneToken(s);
    parts := TakenIsLiteral(s);
    assert s[..|s|] == s;
    DecodeIsMeaning(parts);
  }

  lemma OnePart(p: Part)
    requires ValidPart(p)
    ensures ValidParts([p]) && Literal([p]) == "\"" + Spelling(p) + "\"" && Decoded(Literal([p])) == Meaning([p])
  {
    BodyCons(p, []);
    assert [p] + [] == [p] && Spelling(p) + "" == Spelling(p);
    DecodeIsMeaning([p]);
  }

  /** The eight short escapes. */
  lemma ShortEscapes()
    ensures Decoded("\"\\\"\"") == Some("\"") && Decoded("\"\\\\\"") == Some("\\") && Decoded("\"\\/\"") == Some("/")
    ensures Decoded("\"\\b\"") == Some([8 as char]) && Decoded("\"\\f\"") == Some([12 as char])
    ensures Decoded("\"\\n\"") == Some("\n") && Decoded("\"\\r\"") == Some("\r") && Decoded("\"\\t\"") == Some("\t")
  {
    forall i | 0 <= i < 8
      ensures Decoded("\"" + ['\\', SHORT_NAMES[i]] + "\"") == Some([SHORT_VALUES[i]])
    {
      OnePart(Short(i));
      assert [SHORT_VALUES[i]] + "" == [SHORT_VALUES[i]];
    }
    ShortTexts();
  }

  lemma ShortTexts()
    ensures "\"" + ['\\', SHORT_NAMES[0]] + "\"" == "\"\\\"\"" && "\"" + ['\\', SHORT_NAMES[1]] + "\"" == "\"\\\\\""
    ensures "\"" + ['\\', SHORT_NAMES[2]] + "\"" == "\"\\/\"" && "\"" + ['\\', SHORT_NAMES[3]] + "\"" == "\"\\b\""
    ensures "\"" + ['\\', SHORT_NAMES[4]] + "\"" == "\"\\f\"" && "\"" + ['\\', SHORT_NAMES[5]] + "\"" == "\"\\n\""
    ensures "\"" + ['\\', SHORT_NAMES[6]] + "\"" == "\"\\r\"" && "\"" + ['\\', SHORT_NAMES[7]] + "\"" == "\"\\t\""
  {}

  // ---------------------------------------------------------------- what encode writes

  // The part for one character: a short escape unless it is the slash, four small digits for any
  // other control character, or the character itself.
  predicate WrittenAs(p: Part, c: char) {
    match p
    case Plain(ch) => ch == c
    case Short(i) => i < 8 && SHORT_NAMES[i] != '/' && SHORT_VALUES[i] == c
    case Escape(_, _, _, _, digits) =>
      c as int < 32 && c !in SHORT_VALUES && digits == "00" + [SMALL_DIGITS[c as int / 16], SMALL_DIGITS[c as int % 16]]
  }

  lemma SmallDigit(n: nat)
    requires n < 16
    ensures SMALL_DIGITS[n] == HexChar(n)
  {
    assert n == 0 || n == 1 || n == 2 || n == 3 || n == 4 || n == 5 || n == 6 || n == 7 || n == 8 || n == 9
           || n == 10 || n == 11 || n == 12 || n == 13 || n == 14 || n == 15;
  }

  lemma CharIsWritten(c: char) returns (p: Part)
    ensures ValidPart(p) && Spelling(p) == EncodeChar(c) && WrittenAs(p, c)
  {
    if c as int >= 32 && c != '\"' && c != '\\' {
      p := Plain(c);
    } else if c in SHORT_VALUES {
      p := Short(if c == '\"' then 0 else if c == '\\' then 1 else if c as int == 8 then 3
                 else if c as int == 12 then 4 else if c == '\n' then 5 else if c == '\r' then 6 else 7);
    } else {
      SmallDigit(c as int / 16);
      SmallDigit(c as int % 16);
      p := EscapeOf("00" + [HexChar(c as int / 16), HexChar(c as int % 16)]);
    }
  }

  lemma {:induction false} EncodeWritesParts(s: string) returns (parts: seq<Part>)
    ensures |parts| == |s| && ValidParts(parts) && forall i :: 0 <= i < |s| ==> WrittenAs(parts[i], s[i])
    ensures EncodeBody(s) == Body(parts)
  {
    parts := [];
    if s != "" {
      var p := CharIsWritten(s[0]);
      var rest := EncodeWritesParts(s[1..]);
      BodyCons(p, rest);
      parts := [p] + rest;
    }
  }

  /** encode() writes a literal with exactly this part for each character. */
  lemma EncodedIsLiteral(s: string) returns (parts: seq<Part>)
    ensures |parts| == |s| && ValidParts(parts) && forall i :: 0 <= i < |s| ==> WrittenAs(parts[i], s[i])
    ensures Encoded(s) == Literal(parts) && Meaning(parts) == Some(s)
  {
    parts := EncodeWritesParts(s);
    DecodeOfEncode(s);
    DecodeIsMeaning(parts);
  }
}
