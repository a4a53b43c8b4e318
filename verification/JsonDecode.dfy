/** The character-by-character decoder of value_string, proved equal to the reference. */
module JsonDecode {
  import opened Wrappers
  import opened Strings
  import opened JsonLexers
  import opened Utf
  import opened JsonString

  // uint32_t(-1): no code point, no pending high surrogate.
  const NONE: int := -1

  /** The local variables of decode(); value is the output written so far. */
  datatype Decoder = Decoder(index: nat, remaining: nat, codePoint: int, high: int, ended: bool, code: bool,
    value: string) {
    function Fail(): Decoder { this.(code := false) }
  }

  const DECODER_START := Decoder(0, 0, NONE, NONE, false, true, "")

  predicate Known(d: Decoder) {
    NONE <= d.codePoint <= 0xFFFF && (d.high == NONE || (d.high >= 0 && Utf16Check(d.high).High?))
  }

  /** The if chain at the head of the loop body: the new state and the bytes to add. */
  function ReadChar(d: Decoder, ch: char, first: bool, last: bool): (Decoder, string) {
    if first then (if ch != '\"' then d.Fail() else d, "")
    else if d.remaining == 0 && ch == '\\' then (d.(remaining := 1, index := 1), "")
    else if d.remaining > 0 && d.index == 1 then
      if IsSimpleEscape(ch) then (d.(index := 0, remaining := 0), [SimpleValue(ch)])
      else if ch == 'u' then (d.(index := 2, remaining := 4), "")
      else (d.Fail(), "")
    else if d.remaining > 0 then
      if IsHexDigit(ch) then
        (d.(codePoint := if d.index == 2 then HexValue(ch) else d.codePoint * 16 + HexValue(ch),
            remaining := d.remaining - 1,
            index := if d.remaining == 1 then 0 else d.index + 1), "")
      else (d.Fail(), "")
    else if ch == '\"' then (if !last then d.Fail() else d.(ended := true), "")
    else if ch < ' ' then (d.Fail(), "")
    else (d, [ch])
  }

  /** The second half of the loop body: surrogates, then the output. */
  function Emit(d: Decoder, item: string): Decoder
    requires Known(d)
  {
    var isUnit := d.codePoint != NONE;
    if d.high != NONE && isUnit && Utf16Check(d.codePoint).Low? then
      d.(value := d.value + (item + Utf8Of(PairToCodePoint(d.high, d.codePoint))), codePoint := NONE, high := NONE)
    else if d.high != NONE then d.Fail()
    else if isUnit && Utf16Check(d.codePoint).High? then
      d.(high := d.codePoint, codePoint := NONE, value := d.value + item)
    else if isUnit && Utf16Check(d.codePoint).Low? then d.Fail()
    else if isUnit then d.(value := d.value + (item + Utf8Of(d.codePoint)), codePoint := NONE)
    else d.(value := d.value + item)
  }

  function LoopBody(d: Decoder, ch: char, first: bool, last: bool): Decoder
    requires Known(ReadChar(d, ch, first, last).0)
  {
    var (r, item) := ReadChar(d, ch, first, last);
    if r.code && r.remaining == 0 && !r.ended && !first then Emit(r, item) else r
  }

  // ---------------------------------------------------------------- what the state has read

  lemma UnitsAgree(s: string, p: nat)
    requires p <= |s|
    ensures HasUnit(s[p..]) == UnitAt(s, p)
    ensures UnitAt(s, p) ==> Unit(s[p..]) == HexOf(s, p + 2, p + 6)
  {
    var t := s[p..];
    if UnitAt(s, p) {
      assert forall i :: 2 <= i < 6 ==> t[i] == s[p + i];
      FourDigits(s, p + 2);
      FourDigits(t, 2);
    }
    if HasUnit(t) {
      assert forall i :: p + 2 <= i < p + 6 ==> s[i] == t[i - p];
    }
  }

  /** The escape that starts at q has been read up to i. */
  ghost predicate InUnit(d: Decoder, s: string, q: nat, i: nat) {
    && q <= i <= |s|
    && if d.remaining == 0 then i == q && d.codePoint == NONE
       else if d.index == 1 then d.remaining == 1 && i == q + 1 && s[q] == '\\' && d.codePoint == NONE
       else
         && 2 <= d.index <= 5 && d.remaining == 6 - d.index && i == q + d.index
         && s[q] == '\\' && s[q + 1] == 'u'
         && (forall j :: q + 2 <= j < i ==> IsHexDigit(s[j]))
         && d.codePoint == if d.index == 2 then NONE else HexOf(s, q + 2, i)
  }

  /** Everything before p is decoded into value; at p there may be a high surrogate, and behind
      it an escape that is not read to its end. */
  ghost predicate Tracks(d: Decoder, s: string, i: nat, p: nat) {
    && d.code && !d.ended && p <= i <= |s|
    && (d.high != NONE ==> UnitAt(s, p) && d.high == HexOf(s, p + 2, p + 6) && Utf16Check(d.high).High?)
    && InUnit(d, s, if d.high == NONE then p else p + 6, i)
    && Decoded(s) == Prepend(d.value, Unescape(s[p..]))
  }

  // The reference at position p, when no high surrogate is pending.
  lemma UnfoldPlain(s: string, p: nat)
    requires p <= |s|
    ensures p == |s| ==> Unescape(s[p..]) == None
    ensures p < |s| && s[p] == '\"' ==> Unescape(s[p..]) == if p + 1 == |s| then Some("") else None
    ensures p < |s| && s[p] != '\"' && s[p] < ' ' ==> Unescape(s[p..]) == None
    ensures p < |s| && s[p] != '\"' && s[p] >= ' ' && s[p] != '\\' ==>
              Unescape(s[p..]) == Prepend([s[p]], Unescape(s[p + 1..]))
  {
    if p < |s| { assert s[p..][1..] == s[p + 1..]; }
  }

  lemma UnfoldEscape(s: string, p: nat)
    requires p < |s| && s[p] == '\\'
    ensures p + 1 == |s| ==> Unescape(s[p..]) == None
    ensures p + 1 < |s| && IsSimpleEscape(s[p + 1]) ==>
              Unescape(s[p..]) == Prepend([SimpleValue(s[p + 1])], Unescape(s[p + 2..]))
    ensures p + 1 < |s| && !IsSimpleEscape(s[p + 1]) && !UnitAt(s, p) ==> Unescape(s[p..]) == None
  {
    UnitsAgree(s, p);
    if p + 1 < |s| { assert s[p..][2..] == s[p + 2..] && s[p..][1] == s[p + 1]; }
  }

  lemma UnfoldUnit(s: string, p: nat)
    requires UnitAt(s, p)
    ensures HexOf(s, p + 2, p + 6) <= 0xFFFF
    ensures var u := HexOf(s, p + 2, p + 6);
            Unescape(s[p..]) ==
            match Utf16Check(u)
            case Low => None
            case Bmp => Prepend(Utf8Of(u), Unescape(s[p + 6..]))
            case High =>
              if UnitAt(s, p + 6) && Utf16Check(HexOf(s, p + 8, p + 12)).Low? then
                Prepend(Utf8Of(PairToCodePoint(u, HexOf(s, p + 8, p + 12))), Unescape(s[p + 12..]))
              else None
  {
    UnitsAgree(s, p);
    UnitsAgree(s, p + 6);
    assert s[p..][6..] == s[p + 6..] && s[p..][1] == 'u';
    if UnitAt(s, p + 6) { assert s[p..][12..] == s[p + 12..]; }
  }

  // A pending high surrogate that no low one can follow any more.
  lemma HighAlone(d: Decoder, s: string, i: nat, p: nat)
    requires Tracks(d, s, i, p) && d.high != NONE
    requires !UnitAt(s, p + 6) || !Utf16Check(HexOf(s, p + 8, p + 12)).Low?
    ensures Decoded(s) == None
  {
    UnfoldUnit(s, p);
  }

  lemma ValueGrows(value: string, s: string, p: nat, a: string, q: nat)
    requires p <= |s| && q <= |s|
    requires Decoded(s) == Prepend(value, Unescape(s[p..]))
    requires Unescape(s[p..]) == Prepend(a, Unescape(s[q..]))
    ensures Decoded(s) == Prepend(value + a, Unescape(s[q..]))
  {
    if Unescape(s[q..]).Some? { Assoc(value, a, Unescape(s[q..]).value); }
  }

  /** What the loop knows after a turn: it failed and so does the reference; or it read the
      closing quote; or it goes on. */
  ghost predicate After(d: Decoder, s: string, i: nat, p: nat) {
    if !d.code then Decoded(s) == None
    else if d.ended then
      && i == |s| && d.remaining == 0 && d.codePoint == NONE
      && Decoded(s) == if d.high == NONE then Some(d.value) else None
    else Tracks(d, s, i, p)
  }

  // A turn at the start of a unit.
  lemma TurnPlain(d: Decoder, s: string, i: nat, p: nat) returns (p': nat)
    requires Tracks(d, s, i, p) && i < |s| && i > 0 && d.remaining == 0
    ensures Known(ReadChar(d, s[i], false, i + 1 == |s|).0)
    ensures After(LoopBody(d, s[i], false, i + 1 == |s|), s, i + 1, p')
  {
    p' := p;
    if s[i] == '\\' {
      return;
    }
    UnfoldPlain(s, i);
    if d.high != NONE {
      assert !UnitAt(s, p + 6);
      HighAlone(d, s, i, p);
    } else if s[i] == '\"' {
      if Decoded(s).Some? { assert d.value + "" == d.value; }
    } else if s[i] >= ' ' {
      ValueGrows(d.value, s, p, [s[i]], i + 1);
      p' := i + 1;
    }
  }

  // A turn behind a backslash.
  lemma TurnEscape(d: Decoder, s: string, i: nat, p: nat) returns (p': nat)
    requires Tracks(d, s, i, p) && i < |s| && i > 0 && d.remaining > 0 && d.index == 1
    ensures Known(ReadChar(d, s[i], false, i + 1 == |s|).0)
    ensures After(LoopBody(d, s[i], false, i + 1 == |s|), s, i + 1, p')
  {
    p' := p;
    if s[i] == 'u' {
      return;
    }
    UnfoldEscape(s, i - 1);
    assert !UnitAt(s, i - 1);
    if d.high != NONE {
      HighAlone(d, s, i, p);
    } else if IsSimpleEscape(s[i]) {
      ValueGrows(d.value, s, p, [SimpleValue(s[i])], i + 1);
      p' := i + 1;
    }
  }

  // The last digit of a unit.
  lemma UnitEnds(d: Decoder, s: string, i: nat, p: nat) returns (e: Decoder)
    requires Tracks(d, s, i, p) && i < |s| && i > 0 && d.remaining == 1 && d.index == 5 && IsHexDigit(s[i])
    ensures var q := if d.high == NONE then p else p + 6;
            && UnitAt(s, q) && i + 1 == q + 6
            && e == d.(codePoint := HexOf(s, q + 2, i + 1), remaining := 0, index := 0) && e.codePoint <= 0xFFFF
    ensures ReadChar(d, s[i], false, i + 1 == |s|) == (e, "")
    ensures LoopBody(d, s[i], false, i + 1 == |s|) == Emit(e, "")
  {
    var q := if d.high == NONE then p else p + 6;
    assert UnitAt(s, q);
    HexBound(s, q + 2, i + 1);
    var u := HexOf(s, q + 2, i + 1);
    assert u == d.codePoint * 16 + HexValue(s[i]);
    e := d.(codePoint := u, remaining := 0, index := 0);
  }

  // A turn at a hexadecimal digit.
  lemma TurnDigit(d: Decoder, s: string, i: nat, p: nat) returns (p': nat)
    requires Tracks(d, s, i, p) && i < |s| && i > 0 && d.remaining > 0 && d.index != 1
    ensures Known(ReadChar(d, s[i], false, i + 1 == |s|).0)
    ensures After(LoopBody(d, s[i], false, i + 1 == |s|), s, i + 1, p')
  {
    p' := p;
    var q := if d.high == NONE then p else p + 6;
    HexBound(s, q + 2, i);
    if !IsHexDigit(s[i]) {
      NoDigit(d, s, i, p);
    } else if d.remaining == 1 {
      p' := TurnUnit(d, s, i, p);
    } else {
      TurnInUnit(d, s, i, p);
    }
  }

  // A hexadecimal digit that is not the last of its unit.
  lemma TurnInUnit(d: Decoder, s: string, i: nat, p: nat)
    requires Tracks(d, s, i, p) && i < |s| && i > 0 && d.remaining > 1 && d.index != 1 && IsHexDigit(s[i])
    ensures Known(ReadChar(d, s[i], false, i + 1 == |s|).0)
    ensures After(LoopBody(d, s[i], false, i + 1 == |s|), s, i + 1, p)
  {
    var q := if d.high == NONE then p else p + 6;
    HexNext(s, q + 2, i);
  }

  lemma HexNext(s: string, a: nat, i: nat)
    requires a <= i < |s| && i < a + 4 && (forall j :: a <= j < i ==> IsHexDigit(s[j])) && IsHexDigit(s[i])
    ensures HexOf(s, a, i + 1) == HexOf(s, a, i) * 16 + HexValue(s[i])
    ensures i - a == 0 ==> HexOf(s, a, i) == 0
    ensures i - a == 1 ==> HexOf(s, a, i) < 0x10
    ensures i - a == 2 ==> HexOf(s, a, i) < 0x100
  {
    HexBound(s, a, i);
  }

  lemma NoDigit(d: Decoder, s: string, i: nat, p: nat)
    requires Tracks(d, s, i, p) && i < |s| && d.remaining > 0 && d.index != 1 && !IsHexDigit(s[i])
    ensures Decoded(s) == None
  {
    var q := if d.high == NONE then p else p + 6;
    assert !UnitAt(s, q);
    if d.high != NONE { HighAlone(d, s, i, p); } else { UnfoldEscape(s, q); }
  }

  lemma {:induction false} HexBound(s: string, a: nat, b: nat)
    requires a <= b <= |s| && b <= a + 4 && forall i :: a <= i < b ==> IsHexDigit(s[i])
    ensures b - a == 0 ==> HexOf(s, a, b) == 0
    ensures b - a == 1 ==> HexOf(s, a, b) < 0x10
    ensures b - a == 2 ==> HexOf(s, a, b) < 0x100
    ensures b - a == 3 ==> HexOf(s, a, b) < 0x1000
    ensures b - a == 4 ==> HexOf(s, a, b) < 0x10000
  {
    if a < b { HexBound(s, a, b - 1); }
  }

  // The last digit of an escape.
  lemma TurnUnit(d: Decoder, s: string, i: nat, p: nat) returns (p': nat)
    requires Tracks(d, s, i, p) && i < |s| && i > 0 && d.remaining == 1 && d.index == 5 && IsHexDigit(s[i])
    ensures Known(ReadChar(d, s[i], false, i + 1 == |s|).0)
    ensures After(LoopBody(d, s[i], false, i + 1 == |s|), s, i + 1, p')
  {
    p' := p;
    var e := UnitEnds(d, s, i, p);
    if d.high != NONE { p' := PairRead(e, s, i + 1, p); } else { p' := UnitRead(e, s, i + 1, p); }
  }

  /** The escape in front of i, which is the unit of a first or second surrogate or of a plain
      code point, has just been read. */
  ghost predicate HasRead(e: Decoder, s: string, i: nat, q: nat) {
    && e.code && !e.ended && e.remaining == 0 && i == q + 6
    && UnitAt(s, q) && e.codePoint == HexOf(s, q + 2, i) && e.codePoint <= 0xFFFF
  }

  lemma PairRead(e: Decoder, s: string, i: nat, p: nat) returns (p': nat)
    requires HasRead(e, s, i, p + 6) && Decoded(s) == Prepend(e.value, Unescape(s[p..]))
    requires UnitAt(s, p) && e.high == HexOf(s, p + 2, p + 6) && Known(e) && e.high != NONE
    ensures After(Emit(e, ""), s, i, p')
  {
    p' := p;
    UnfoldUnit(s, p);
    if Utf16Check(e.codePoint).Low? {
      var text := Utf8Of(PairToCodePoint(e.high, e.codePoint));
      ValueGrows(e.value, s, p, text, i);
      assert "" + text == text;
      p' := i;
    }
  }

  lemma UnitRead(e: Decoder, s: string, i: nat, p: nat) returns (p': nat)
    requires HasRead(e, s, i, p) && Decoded(s) == Prepend(e.value, Unescape(s[p..]))
    requires e.high == NONE && Known(e)
    ensures After(Emit(e, ""), s, i, p')
  {
    p' := p;
    UnfoldUnit(s, p);
    if Utf16Check(e.codePoint).Bmp? {
      ValueGrows(e.value, s, p, Utf8Of(e.codePoint), i);
      assert "" + Utf8Of(e.codePoint) == Utf8Of(e.codePoint);
      p' := i;
    } else if Utf16Check(e.codePoint).High? {
      assert e.value + "" == e.value;
    }
  }

  // The text ended before the closing quote.
  lemma Unfinished(d: Decoder, s: string, p: nat)
    requires Tracks(d, s, |s|, p)
    ensures Decoded(s) == None
  {
    var q := if d.high == NONE then p else p + 6;
    assert !UnitAt(s, q);
    if d.high != NONE {
      HighAlone(d, s, |s|, p);
    } else {
      UnfoldPlain(s, p);
      if d.remaining > 0 { UnfoldEscape(s, p); }
    }
  }

  // What is known before the turn for the i-th character.
  ghost predicate Before(d: Decoder, s: string, i: nat, p: nat) {
    if i == 0 then d == DECODER_START && p == 1 else After(d, s, i, p)
  }

  // Any turn of the loop.
  lemma Turn(d: Decoder, s: string, i: nat, p: nat) returns (p': nat)
    requires i < |s|
    ensures Before(d, s, i, p) && d.code ==>
              && Known(ReadChar(d, s[i], i == 0, i + 1 == |s|).0)
              && Before(LoopBody(d, s[i], i == 0, i + 1 == |s|), s, i + 1, p')
  {
    p' := p;
    if !Before(d, s, i, p) || !d.code {
    } else if i == 0 {
      FirstTurn(s);
    } else if d.remaining == 0 {
      p' := TurnPlain(d, s, i, p);
    } else if d.index == 1 {
      p' := TurnEscape(d, s, i, p);
    } else {
      p' := TurnDigit(d, s, i, p);
    }
  }

  lemma FirstTurn(s: string)
    requires s != ""
    ensures After(LoopBody(DECODER_START, s[0], true, 1 == |s|), s, 1, 1)
  {
    assert Decoded(s).Some? ==> "" + Decoded(s).value == Decoded(s).value;
    assert Unescape(s[1..]).Some? ==> "" + Unescape(s[1..]).value == Unescape(s[1..]).value;
  }

  // What the loop leaves is the result.
  lemma LoopDone(d: Decoder, s: string, i: nat, p: nat)
    ensures Before(d, s, i, p) && (i == |s| || !d.code) ==>
              Decoded(s) == if d.code && d.ended && d.codePoint == NONE && d.high == NONE && d.remaining == 0
              then Some(d.value) else None
  {
    if Before(d, s, i, p) && (i == |s| || !d.code) && d.code && i > 0 && !d.ended { Unfinished(d, s, p); }
  }

  ghost predicate Reached(d: Decoder, s: string, i: nat) {
    exists p: nat :: Before(d, s, i, p)
  }

  lemma NextTurn(d: Decoder, s: string, i: nat)
    requires i < |s|
    ensures Reached(d, s, i) && d.code ==>
              && Known(ReadChar(d, s[i], i == 0, i + 1 == |s|).0)
              && Reached(LoopBody(d, s[i], i == 0, i + 1 == |s|), s, i + 1)
  {
    if Reached(d, s, i) && d.code {
      var p: nat :| Before(d, s, i, p);
      var p' := Turn(d, s, i, p);
    }
  }

  lemma LoopEnds(d: Decoder, s: string, i: nat)
    ensures Reached(d, s, i) && (i == |s| || !d.code) ==>
              Decoded(s) == if d.code && d.ended && d.codePoint == NONE && d.high == NONE && d.remaining == 0
              then Some(d.value) else None
  {
    if Reached(d, s, i) {
      var p: nat :| Before(d, s, i, p);
      LoopDone(d, s, i, p);
    }
  }

  /** decode(), from an empty output: true and the value, or false and nothing. */
  method Decode(s: string) returns (code: bool, value: string)
    ensures match Decoded(s)
            case Some(v) => code && value == v
            case None => !code && value == ""
  {
    var d := DECODER_START;
    var i := 0;
    assert Before(d, s, 0, 1);
    while d.code && i != |s|
      invariant 0 <= i <= |s| && Reached(d, s, i)
    {
      var ch := s[i];
      NextTurn(d, s, i);
      d := LoopBody(d, ch, i == 0, i + 1 == |s|);
      i := i + 1;
    }
    LoopEnds(d, s, i);
    code, value := d.code, d.value;
    if !d.ended || d.codePoint != NONE || d.high != NONE || d.remaining != 0 {
      code := false;
    }
    if !code {
      value := "";
    }
  }
}
