/** JSON text as its signs, with blanks between them: what lies between the text and the tokens. */
module JsonLayout {
  import opened Wrappers
  import opened Strings
  import opened ExpressionForest
  import opened Placement
  import opened JsonLexers
  import opened JsonReference
  import opened NumberGrammar
  import opened StringGrammar
  import opened TokenRuns

  predicate IsBlankText(s: string) {
    forall i :: 0 <= i < |s| ==> s[i] == ' ' || s[i] == '\t' || s[i] == '\r' || s[i] == '\n'
  }

  predicate IsNumberSign(s: string) {
    IsNumberText(s, |s|)
  }

  // The signs of a text, one behind the other, with a gap before each and one at the end.
  predicate AreGaps(gaps: seq<string>, signs: seq<string>) {
    |gaps| == |signs| + 1 && forall i :: 0 <= i < |gaps| ==> IsBlankText(gaps[i])
  }

  function Layout(signs: seq<string>, gaps: seq<string>): string
    requires |gaps| == |signs| + 1
  {
    if signs == [] then gaps[0] else gaps[0] + (signs[0] + Layout(signs[1..], gaps[1..]))
  }

  // The operators by their characters; anything else is a value, read by the lexer of its first character.
  function TokenOf(sign: string): Token
    requires sign != ""
  {
    if sign == "," then Token(JSON.InfixInfo(COMMA), AsOperator)
    else if sign == ":" then Token(JSON.InfixInfo(COLON), AsOperator)
    else if sign == "{" then Token(JSON.OpenInfo(BRACE), AsValue)
    else if sign == "}" then Token(JSON.CloseInfo(BRACE), AsOperator)
    else if sign == "[" then Token(JSON.OpenInfo(BRACKET), AsValue)
    else if sign == "]" then Token(JSON.CloseInfo(BRACKET), AsOperator)
    else if sign == "true" || sign == "false" then Token(Value(BOOL, 0, |sign|), AsValue)
    else if sign == "null" then Token(Value(NULL, 0, |sign|), AsValue)
    else if sign[0] == '\"' then Token(Value(STRING, 0, |sign|), AsValue)
    else Token(Value(NUMBER, 0, |sign|), AsValue)
  }

  predicate IsPunctuation(sign: string) {
    sign == "," || sign == ":" || sign == "{" || sign == "}" || sign == "[" || sign == "]"
  }

  predicate IsWord(sign: string) {
    sign == "true" || sign == "false" || sign == "null"
  }

  ghost predicate IsStringSign(sign: string) {
    exists parts :: ValidParts(parts) && sign == Literal(parts)
  }

  ghost predicate IsSign(sign: string) {
    IsPunctuation(sign) || IsWord(sign) || IsStringSign(sign) || IsNumberSign(sign)
  }

  ghost predicate AreSigns(signs: seq<string>) {
    forall i :: 0 <= i < |signs| ==> IsSign(signs[i])
  }

  // No number goes on over this character.
  predicate EndsNumber(c: char) {
    c == ' ' || c == '\t' || c == '\r' || c == '\n' || c == ',' || c == ':' || c == '}' || c == ']'
  }

  // Behind the i-th sign, if it is a number, comes a blank or one of four signs.
  predicate EndsAt(signs: seq<string>, gaps: seq<string>, i: nat)
    requires |gaps| == |signs| + 1 && i < |signs|
  {
    IsNumberSign(signs[i]) ==>
      gaps[i + 1] != "" || (i + 1 < |signs| && signs[i + 1] != "" && EndsNumber(signs[i + 1][0]))
  }

  predicate NumbersEnd(signs: seq<string>, gaps: seq<string>)
    requires |gaps| == |signs| + 1
  {
    forall i :: 0 <= i < |signs| ==> EndsAt(signs, gaps, i)
  }

  // ---------------------------------------------------------------- one sign

  lemma {:induction false} RunOver(s: string, t: string, i: nat, v: Numbering)
    requires i <= |s| < |t| && v.end <= i && t[..|s|] == s && EndsNumber(t[|s|]) && NumberRun(s, i, v).0 == |s|
    ensures NumberRun(t, i, v) == NumberRun(s, i, v)
    decreases |s| - i
  {
    assert i < |s| ==> t[i] == t[..|s|][i];
    if i < |s| { RunOver(s, t, i + 1, NumberStep(v, s[i], i).value); }
  }

  lemma NumberSignFirst(sign: string)
    requires IsNumberSign(sign)
    ensures sign != "" && LexerOf(sign[0]) == Some(NUMBER)
    ensures !IsPunctuation(sign) && !IsWord(sign) && sign[0] != '\"'
  {
    var a := Begin(sign);
    if a == 0 {
      assert IsNumberDigit(sign[0], false) || sign[0] == '.';
    }
  }

  lemma NumberSignRead(sign: string, rest: string)
    requires IsNumberSign(sign) && rest != "" && EndsNumber(rest[0])
    ensures LexNumber(sign + rest) == Taken(|sign|)
  {
    NumberSignFirst(sign);
    MarkIsLongest(sign);
    assert (sign + rest)[..|sign|] == sign;
    RunOver(sign, sign + rest, 0, NUMBER_START);
  }

  lemma WordRead(word: string, rest: string)
    ensures LexWord(word + rest, word) == Taken(|word|)
  {
    assert word <= word + rest;
  }

  // A sign at the front of a text is read as its token.
  ghost predicate IsRead(sign: string, rest: string)
    requires sign != ""
  {
    var s := sign + rest;
    LexerOf(s[0]).Some? && ReadWith(LexerOf(s[0]).value, s) == Success(TokenOf(sign), |sign|)
  }

  lemma StringSignRead(sign: string, rest: string)
    requires IsStringSign(sign)
    ensures sign != "" && !TokenOf(sign).placeAs.Discard? && IsRead(sign, rest)
  {
    var parts :| ValidParts(parts) && sign == Literal(parts);
    LiteralIsTaken(parts, rest);
    assert (sign + rest)[0] == '\"';
  }

  lemma WordSignRead(sign: string, rest: string)
    requires IsWord(sign)
    ensures sign != "" && !TokenOf(sign).placeAs.Discard? && IsRead(sign, rest)
  {
    WordRead(sign, rest);
    assert (sign + rest)[0] == sign[0];
    if sign == "false" { assert !("true" <= sign + rest) && !(sign + rest <= "true"); }
  }

  lemma SignRead(sign: string, rest: string)
    requires IsSign(sign) && (IsNumberSign(sign) ==> rest != "" && EndsNumber(rest[0]))
    ensures sign != "" && !TokenOf(sign).placeAs.Discard? && IsRead(sign, rest)
  {
    if IsNumberSign(sign) {
      NumberSignFirst(sign);
      NumberSignRead(sign, rest);
      assert (sign + rest)[0] == sign[0];
    } else if IsPunctuation(sign) {
      assert (sign + rest)[0] == sign[0];
    } else if IsWord(sign) {
      WordSignRead(sign, rest);
    } else {
      StringSignRead(sign, rest);
    }
  }

  // ---------------------------------------------------------------- all signs

  // The tokens that are no blanks.
  function Solid(ls: seq<Lexeme>): seq<Token> {
    if ls == [] then [] else (if ls[0].tok.placeAs.Discard? then [] else [ls[0].tok]) + Solid(ls[1..])
  }

  function TokensOf(signs: seq<string>): seq<Token>
    requires forall i :: 0 <= i < |signs| ==> signs[i] != ""
  {
    if signs == [] then [] else [TokenOf(signs[0])] + TokensOf(signs[1..])
  }

  lemma SolidCons(l: Lexeme, ls: seq<Lexeme>)
    ensures Solid([l] + ls) == (if l.tok.placeAs.Discard? then [] else [l.tok]) + Solid(ls)
  {
    assert ([l] + ls)[1..] == ls;
  }

  // A text whose tokens, blanks aside, are toks.
  ghost predicate Lexes(s: string, toks: seq<Token>) {
    Lexemes(s).Some? && Solid(Lexemes(s).value) == toks
  }

  lemma LexesFirst(k: nat, s: string, tok: Token, len: nat, toks: seq<Token>)
    requires s != "" && LexerOf(s[0]) == Some(k) && k < LEXERS && ReadWith(k, s) == Success(tok, len)
    ensures 0 < len <= |s|
    ensures Lexes(s[len..], toks) ==> Lexes(s, (if tok.placeAs.Discard? then [] else [tok]) + toks)
  {
    ReadProduces(k, s);
    if Lexes(s[len..], toks) { SolidCons(Lexeme(tok, len), Lexemes(s[len..]).value); }
  }

  lemma {:induction false} GapRun(gap: string, s: string)
    requires IsBlankText(gap) && (s != "" ==> !IsBlank(s[0]))
    ensures Blanks(gap + s) == |gap|
  {
    if gap == "" {
      assert gap + s == s;
    } else {
      assert (gap + s)[1..] == gap[1..] + s;
      GapRun(gap[1..], s);
    }
  }

  lemma GapFirst(gap: string, s: string, toks: seq<Token>)
    requires IsBlankText(gap) && (s != "" ==> !IsBlank(s[0])) && Lexes(s, toks)
    ensures Lexes(gap + s, toks)
  {
    if gap == "" {
      assert gap + s == s;
    } else {
      GapRun(gap, s);
      assert (gap + s)[0] == gap[0] && (gap + s)[|gap|..] == s;
      assert LexBlanks(gap + s) == Taken(|gap|);
      LexesFirst(BLANKS, gap + s, Token(Value(BLANKS, 0, |gap|), Discard), |gap|, toks);
      assert [] + toks == toks;
    }
  }

  lemma SignFirst(sign: string, rest: string, toks: seq<Token>)
    requires sign != "" && IsRead(sign, rest) && !TokenOf(sign).placeAs.Discard? && Lexes(rest, toks)
    ensures Lexes(sign + rest, [TokenOf(sign)] + toks) && !IsBlank((sign + rest)[0])
  {
    var s := sign + rest;
    assert s[|sign|..] == rest;
    ReadProduces(LexerOf(s[0]).value, s);
    LexesFirst(LexerOf(s[0]).value, s, TokenOf(sign), |sign|, toks);
  }

  lemma SignsNotEmpty(signs: seq<string>)
    requires AreSigns(signs)
    ensures forall i :: 0 <= i < |signs| ==> signs[i] != ""
  {
    forall i | 0 <= i < |signs|
      ensures signs[i] != ""
    {
      if IsNumberSign(signs[i]) { NumberSignFirst(signs[i]); }
    }
  }

  lemma LayoutBegins(signs: seq<string>, gaps: seq<string>)
    requires |gaps| == |signs| + 1
    ensures var s := Layout(signs, gaps);
            && (gaps[0] != "" ==> s != "" && s[0] == gaps[0][0])
            && (gaps[0] == "" && signs != [] && signs[0] != "" ==> s != "" && s[0] == signs[0][0])
  {}

  /** Whatever blanks stand between them, the signs are what the lexers read, each as its own token. */
  lemma {:induction false} LayoutLexes(signs: seq<string>, gaps: seq<string>)
    requires AreSigns(signs) && AreGaps(gaps, signs) && NumbersEnd(signs, gaps)
    ensures forall i :: 0 <= i < |signs| ==> signs[i] != ""
    ensures Lexes(Layout(signs, gaps), TokensOf(signs))
    decreases |signs|
  {
    SignsNotEmpty(signs);
    if signs == [] {
      assert Lexes("", []);
      GapFirst(gaps[0], "", []);
      assert gaps[0] + "" == gaps[0];
    } else {
      var rest := Layout(signs[1..], gaps[1..]);
      NextEnds(signs, gaps);
      LayoutLexes(signs[1..], gaps[1..]);
      SignRead(signs[0], rest);
      SignFirst(signs[0], rest, TokensOf(signs[1..]));
      GapFirst(gaps[0], signs[0] + rest, TokensOf(signs));
    }
  }

  lemma EndsShifted(signs: seq<string>, gaps: seq<string>, i: nat)
    requires |gaps| == |signs| + 1 && i + 1 < |signs|
    ensures EndsAt(signs, gaps, i + 1) ==> EndsAt(signs[1..], gaps[1..], i)
  {
    assert gaps[1..][i + 1] == gaps[i + 2];
  }

  lemma NextEnds(signs: seq<string>, gaps: seq<string>)
    requires signs != [] && AreSigns(signs) && AreGaps(gaps, signs) && NumbersEnd(signs, gaps)
    ensures AreSigns(signs[1..]) && AreGaps(gaps[1..], signs[1..]) && NumbersEnd(signs[1..], gaps[1..])
    ensures var rest := Layout(signs[1..], gaps[1..]); IsNumberSign(signs[0]) ==> rest != "" && EndsNumber(rest[0])
  {
    LayoutBegins(signs[1..], gaps[1..]);
    assert EndsAt(signs, gaps, 0);
    forall i: nat | i < |signs[1..]|
      ensures EndsAt(signs[1..], gaps[1..], i)
    {
      EndsShifted(signs, gaps, i);
    }
  }

  // ---------------------------------------------------------------- and nothing else lexes

  lemma StringTokenIsSign(s: string, len: nat)
    requires s != "" && LexString(s) == Taken(len)
    ensures 0 < len <= |s| && IsSign(s[..len])
  {
    var parts := TakenIsLiteral(s);
  }

  lemma NumberTokenIsSign(s: string, len: nat)
    requires LexNumber(s) == Taken(len)
    ensures 0 < len <= |s| && IsSign(s[..len])
  {
    LexNumberMeans(s);
    MarkIsLongest(s[..len]);
    NumberPrefix(s, len);
  }

  lemma NumberPrefix(s: string, n: nat)
    requires n <= |s| && IsNumberText(s, n)
    ensures IsNumberSign(s[..n])
  {
    var t, a := s[..n], Begin(s);
    if Mantissa(s, a, n, false) {
      MantissaIn(s, t, a, n, false);
    } else if Hexadecimal(s, a, n) {
      MantissaIn(s, t, a + 2, n, true);
    } else {
      var k :| a < k < n && ScientificAt(s, a, k, n);
      MantissaIn(s, t, a, k, false);
      PowerIn(s, t, k + 1, n);
      assert ScientificAt(t, a, k, n);
    }
  }

  lemma MantissaIn(s: string, t: string, a: nat, b: nat, hex: bool)
    requires a <= b <= |t| <= |s| && t == s[..|t|] && Mantissa(s, a, b, hex)
    ensures Mantissa(t, a, b, hex)
  {
    var i :| a <= i < b && IsNumberDigit(s[i], hex);
    assert IsNumberDigit(t[i], hex);
  }

  lemma PowerIn(s: string, t: string, a: nat, b: nat)
    requires a <= b <= |t| <= |s| && t == s[..|t|] && Power(s, a, b)
    ensures Power(t, a, b)
  {}

  lemma OtherTokenIsSign(k: nat, s: string, tok: Token, len: nat)
    requires s != "" && LexerOf(s[0]) == Some(k) && k < LEXERS && ReadWith(k, s) == Success(tok, len)
    requires k != STRING && k != NUMBER && k != BLANKS
    ensures 0 < len <= |s| && IsSign(s[..len])
  {
    assert [s[0]] == s[..1];
    if k == BOOL || k == NULL {
      assert s[..len] == "true" || s[..len] == "false" || s[..len] == "null";
    }
  }

  lemma TokenIsSign(k: nat, s: string, tok: Token, len: nat)
    requires s != "" && LexerOf(s[0]) == Some(k) && k < LEXERS && ReadWith(k, s) == Success(tok, len) && k != BLANKS
    ensures 0 < len <= |s| && IsSign(s[..len])
  {
    if k == STRING {
      StringTokenIsSign(s, len);
    } else if k == NUMBER {
      NumberTokenIsSign(s, len);
    } else {
      OtherTokenIsSign(k, s, tok, len);
    }
  }

  lemma BlanksAreGap(s: string)
    requires s != ""
    ensures Blanks(s) <= |s| && IsBlankText(s[..Blanks(s)])
  {}

  lemma WiderGap(gap: string, s: string, signs: seq<string>, gaps: seq<string>) returns (wider: seq<string>)
    requires AreGaps(gaps, signs) && s == Layout(signs, gaps) && IsBlankText(gap)
    ensures AreGaps(wider, signs) && gap + s == Layout(signs, wider)
  {
    wider := gaps[0 := gap + gaps[0]];
    assert wider[1..] == gaps[1..];
    if signs == [] {
    } else {
      Assoc(gap, gaps[0], signs[0] + Layout(signs[1..], gaps[1..]));
    }
  }

  lemma OneMoreSign(sign: string, s: string, signs: seq<string>, gaps: seq<string>)
    requires AreSigns(signs) && AreGaps(gaps, signs) && s == Layout(signs, gaps) && IsSign(sign)
    ensures AreSigns([sign] + signs) && AreGaps([""] + gaps, [sign] + signs)
    ensures sign + s == Layout([sign] + signs, [""] + gaps)
  {
    assert ([sign] + signs)[1..] == signs && ([""] + gaps)[1..] == gaps;
    assert "" + (sign + s) == sign + s;
  }

  /** A text in which the lexers find only tokens consists of signs with blanks between them. */
  lemma {:induction false} LexedIsLayout(s: string) returns (signs: seq<string>, gaps: seq<string>)
    requires Lexemes(s).Some?
    ensures AreSigns(signs) && AreGaps(gaps, signs) && s == Layout(signs, gaps)
    decreases |s|
  {
    if s == "" {
      signs, gaps := [], [""];
    } else {
      var k, tok, len, ls := FirstLexeme(s, Lexemes(s).value);
      signs, gaps := LexedIsLayout(s[len..]);
      SplitAt(s, len);
      if k == BLANKS {
        BlanksAreGap(s);
        gaps := WiderGap(s[..len], s[len..], signs, gaps);
      } else {
        TokenIsSign(k, s, tok, len);
        OneMoreSign(s[..len], s[len..], signs, gaps);
        signs, gaps := [s[..len]] + signs, [""] + gaps;
      }
    }
  }

  // ---------------------------------------------------------------- tokens with their positions

  lemma {:induction false} KeptCons(a: Fed, rest: seq<Fed>)
    ensures Kept([a] + rest) == (if a.tok.placeAs.Discard? then [] else [a]) + Kept(rest)
    decreases |rest|
  {
    if rest == [] {
      assert [a] + rest == [a] && [a][..0] == [];
    } else {
      LastApart([a], rest);
      KeptCons(a, rest[..|rest| - 1]);
    }
  }

  lemma {:induction false} KeptIsSolid(ls: seq<Lexeme>, at: nat)
    ensures SpellsTokens(Kept(FedFrom(ls, at)), Solid(ls))
  {
    if ls != [] {
      KeptIsSolid(ls[1..], at + ls[0].len);
      KeptCons(Fed(ls[0].tok, at), FedFrom(ls[1..], at + ls[0].len));
    }
  }
}
