/** value_string of json.hpp: encode, decode, and the reference that decode is proved against. */
module JsonString {
  import opened Wrappers
  import opened Strings
  import opened JsonLexers
  import opened Utf

  // ---------------------------------------------------------------- encode

  function HexChar(n: nat): (c: char)
    requires n < 16
    ensures IsHexDigit(c) && HexValue(c) == n
  {
    if n < 10 then ('0' as int + n) as char else ('a' as int + n - 10) as char
  }

  // The switch of encode().
  function EncodeChar(c: char): (s: string)
    ensures s != ""
  {
    if c as int == 8 then "\\b"
    else if c == '\t' then "\\t"
    else if c == '\n' then "\\n"
    else if c as int == 12 then "\\f"
    else if c == '\r' then "\\r"
    else if c < ' ' then "\\u00" + [HexChar(c as int / 16), HexChar(c as int % 16)]
    else if c == '\\' then "\\\\"
    else if c == '\"' then "\\\""
    else [c]
  }

  function EncodeBody(s: string): string {
    if s == "" then "" else EncodeChar(s[0]) + EncodeBody(s[1..])
  }

  function Encoded(s: string): string {
    "\"" + EncodeBody(s) + "\""
  }

  method Encode(value: string) returns (out: string)
    ensures out == Encoded(value)
  {
    out := "\"";
    for i := 0 to |value|
      invariant out + EncodeBody(value[i..]) == "\"" + EncodeBody(value)
    {
      ghost var before := out;
      out := out + EncodeChar(value[i]);
      assert value[i..][0] == value[i] && value[i..][1..] == value[i + 1..];
      assert before + (EncodeChar(value[i]) + EncodeBody(value[i + 1..])) == out + EncodeBody(value[i + 1..]);
    }
    assert value[|value|..] == "" && out + "" == out;
    out := out + "\"";
  }

  // ---------------------------------------------------------------- the reference decoder

  function SimpleValue(c: char): char
    requires IsSimpleEscape(c)
  {
    match c
    case 'b' => 8 as char
    case 'f' => 12 as char
    case 'n' => '\n'
    case 'r' => '\r'
    case 't' => '\t'
    case _ => c
  }

  function HexValue(c: char): (v: nat)
    requires IsHexDigit(c)
    ensures v < 16
  {
    if c <= '9' then c as int - '0' as int
    else if c >= 'a' then 10 + (c as int - 'a' as int)
    else 10 + (c as int - 'A' as int)
  }

  // A u escape with its four digits at position p.
  predicate UnitAt(s: string, p: nat) {
    p + 6 <= |s| && s[p] == '\\' && s[p + 1] == 'u' && forall i :: p + 2 <= i < p + 6 ==> IsHexDigit(s[i])
  }

  // The number that the digits from a to b spell.
  function HexOf(s: string, a: nat, b: nat): nat
    requires a <= b <= |s| && forall i :: a <= i < b ==> IsHexDigit(s[i])
  {
    if a == b then 0 else HexOf(s, a, b - 1) * 16 + HexValue(s[b - 1])
  }

  lemma FourDigits(s: string, a: nat)
    requires a + 4 <= |s| && forall i :: a <= i < a + 4 ==> IsHexDigit(s[i])
    ensures HexOf(s, a, a + 4) ==
            ((HexValue(s[a]) * 16 + HexValue(s[a + 1])) * 16 + HexValue(s[a + 2])) * 16 + HexValue(s[a + 3])
  {
    assert HexOf(s, a, a) == 0;
    assert HexOf(s, a, a + 1) == HexValue(s[a]);
    assert HexOf(s, a, a + 2) == HexValue(s[a]) * 16 + HexValue(s[a + 1]);
    assert HexOf(s, a, a + 3) == (HexValue(s[a]) * 16 + HexValue(s[a + 1])) * 16 + HexValue(s[a + 2]);
  }

  // A u escape at the front of s, and its code unit.
  predicate HasUnit(s: string) {
    UnitAt(s, 0)
  }

  function Unit(s: string): (u: nat)
    requires HasUnit(s)
    ensures u <= 0xFFFF
  {
    FourDigits(s, 2);
    HexOf(s, 2, 6)
  }

  function Prepend(a: string, r: Option<string>): Option<string> {
    if r.None? then None else Some(a + r.value)
  }

  /** The text of a string literal behind its opening quote, section 7 of RFC 8259: the value,
      or None. A high surrogate must be followed at once by the escape of a low one. */
  function Unescape(s: string): Option<string>
    decreases |s|
  {
    if s == "" then None
    else if s[0] == '\"' then if |s| == 1 then Some("") else None
    else if s[0] < ' ' then None
    else if s[0] != '\\' then Prepend([s[0]], Unescape(s[1..]))
    else if |s| == 1 then None
    else if IsSimpleEscape(s[1]) then Prepend([SimpleValue(s[1])], Unescape(s[2..]))
    else if !HasUnit(s) then None
    else
      var u := Unit(s);
      match Utf16Check(u)
      case Low => None
      case Bmp => Prepend(Utf8Of(u), Unescape(s[6..]))
      case High =>
        if HasUnit(s[6..]) && Utf16Check(Unit(s[6..])).Low? then
          Prepend(Utf8Of(PairToCodePoint(u, Unit(s[6..]))), Unescape(s[12..]))
        else None
  }

  function Decoded(s: string): Option<string> {
    if s == "" || s[0] != '\"' then None else Unescape(s[1..])
  }

  // ---------------------------------------------------------------- round trip

  lemma PrependTwice(a: string, b: string, r: Option<string>)
    ensures Prepend(a, Prepend(b, r)) == Prepend(a + b, r)
  {
    if r.Some? { assert a + (b + r.value) == (a + b) + r.value; }
  }

  lemma {:induction false} UnescapeEncoded(s: string, t: string)
    ensures Unescape(EncodeBody(s) + t) == Prepend(s, Unescape(t))
  {
    if s == "" {
      assert EncodeBody(s) + t == t;
      assert Unescape(t).Some? ==> "" + Unescape(t).value == Unescape(t).value;
    } else {
      var e, body := EncodeChar(s[0]), EncodeBody(s[1..]);
      Assoc(e, body, t);
      assert [s[0]] + s[1..] == s;
      UnescapeChar(s[0], body + t);
      UnescapeEncoded(s[1..], t);
      PrependTwice([s[0]], s[1..], Unescape(t));
    }
  }

  lemma UnescapeChar(c: char, rest: string)
    ensures Unescape(EncodeChar(c) + rest) == Prepend([c], Unescape(rest))
  {
    var e := EncodeChar(c);
    var s := e + rest;
    assert s[|e|..] == rest;
    if c < ' ' && |e| == 6 {
      assert HasUnit(s);
      FourDigits(s, 2);
      assert Unit(s) == c as int;
      assert Utf8Of(c as int) == [c];
    }
  }

  /** Decoding what encode wrote gives back the same bytes, whatever they are. */
  lemma DecodeOfEncode(s: string)
    ensures Decoded(Encoded(s)) == Some(s)
  {
    var e := Encoded(s);
    assert e[1..] == EncodeBody(s) + "\"";
    UnescapeEncoded(s, "\"");
    assert s + "" == s;
  }

  lemma BodyParts(before: string, s: string, t: string)
    requires s != ""
    ensures before + (EncodeBody(s) + t) == (before + EncodeChar(s[0])) + (EncodeBody(s[1..]) + t)
    ensures |EncodeBody(s)| == |EncodeChar(s[0])| + |EncodeBody(s[1..])|
  {
    Assoc(EncodeChar(s[0]), EncodeBody(s[1..]), t);
    Assoc(before, EncodeChar(s[0]), EncodeBody(s[1..]) + t);
  }

  lemma {:induction false} LexOfEncoded(s: string, before: string, t: string, all: string)
    requires all == before + (EncodeBody(s) + t) && t != "" && t[0] == '\"'
    ensures StringBody(all, |before|) == Taken(|before| + |EncodeBody(s)| + 1)
    decreases |s|
  {
    if s == "" {
      assert EncodeBody(s) + t == t && all[|before|] == t[0];
    } else {
      BodyParts(before, s, t);
      Middle(before, EncodeChar(s[0]), EncodeBody(s[1..]) + t);
      LexOfEncoded(s[1..], before + EncodeChar(s[0]), t, all);
      LexChar(all, |before|, s[0], |before + EncodeChar(s[0])|);
    }
  }

  lemma LexChar(all: string, i: nat, c: char, next: nat)
    requires next == i + |EncodeChar(c)| && next <= |all| && all[i..next] == EncodeChar(c)
    ensures StringBody(all, i) == StringBody(all, next)
  {
    var e := EncodeChar(c);
    assert forall j :: 0 <= j < |e| ==> all[i + j] == e[j];
    if |e| == 6 {
      assert HexRun(all, i + 6, 0) == Some(i + 6);
      assert HexRun(all, i + 5, 1) == Some(i + 6);
      assert HexRun(all, i + 4, 2) == Some(i + 6);
      assert HexRun(all, i + 3, 3) == Some(i + 6);
      assert HexRun(all, i + 2, 4) == Some(i + 6);
    }
  }

  /** The lexer takes exactly the encoded literal, whatever follows it. */
  lemma LexerTakesEncoded(s: string, t: string)
    ensures LexString(Encoded(s) + t) == Taken(|Encoded(s)|)
  {
    var all := Encoded(s) + t;
    Assoc("\"" + EncodeBody(s), "\"", t);
    Assoc("\"", EncodeBody(s), "\"" + t);
    LexOfEncoded(s, "\"", "\"" + t, all);
  }
}
