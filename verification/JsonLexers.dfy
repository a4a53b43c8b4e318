/** The character-level lexers of json.hpp: what each of them reads at the front of a text,
    and that more text behind never changes a decision once it is made. */
module JsonLexers {
  import opened Wrappers
  import opened ExpressionForest
  import opened Placement
  import opened OperatorTable

  /** What a lexer's parse() says: it takes len characters, or needs more text to decide
      (true without advancing), or does not match (false). */
  datatype Lexed = Taken(len: nat) | Undecided | Mismatch

  predicate IsHexDigit(c: char) {
    '0' <= c <= '9' || 'a' <= c <= 'f' || 'A' <= c <= 'F'
  }

  predicate IsBlank(c: char) {
    c == ' ' || c == '\t' || c == '\r' || c == '\n'
  }

  predicate IsSimpleEscape(c: char) {
    c == '\"' || c == '\\' || c == '/' || c == 'b' || c == 'f' || c == 'n' || c == 'r' || c == 't'
  }

  // ---------------------------------------------------------------- strings

  // End of a run of at most n hexadecimal digits, or None at another character.
  function HexRun(s: string, i: nat, n: nat): (r: Option<nat>)
    requires i <= |s|
    ensures r.Some? ==> i <= r.value <= |s| && (r.value < |s| ==> r.value == i + n)
    decreases n
  {
    if n == 0 || i == |s| then Some(i)
    else if !IsHexDigit(s[i]) then None
    else HexRun(s, i + 1, n - 1)
  }

  // The text of a string literal from position i on.
  function StringBody(s: string, i: nat): (r: Lexed)
    requires i <= |s|
    ensures r.Taken? ==> i < r.len <= |s| && s[r.len - 1] == '\"'
    decreases |s| - i
  {
    if i == |s| then Undecided
    else if s[i] == '\"' then Taken(i + 1)
    else if s[i] < ' ' then Mismatch
    else if s[i] != '\\' then StringBody(s, i + 1)
    else if i + 1 == |s| then Undecided
    else if IsSimpleEscape(s[i + 1]) then StringBody(s, i + 2)
    else if s[i + 1] == 'u' then
      match HexRun(s, i + 2, 4)
      case None => Mismatch
      case Some(j) => StringBody(s, j)
    else Mismatch
  }

  function LexString(s: string): Lexed
    requires s != ""
  {
    if s[0] != '\"' then Mismatch else StringBody(s, 1)
  }

  /** value_string::parse */
  method ParseString(s: string) returns (r: Lexed)
    requires s != ""
    ensures r == LexString(s)
  {
    if s[0] != '\"' {
      return Mismatch;
    }
    var i := 1;
    while i != |s|
      invariant 1 <= i <= |s|
      invariant StringBody(s, 1) == StringBody(s, i)
    {
      if s[i] == '\"' {
        return Taken(i + 1);
      }
      if s[i] < ' ' {
        return Mismatch;
      }
      if s[i] != '\\' {
        i := i + 1;
      } else {
        i := i + 1;
        if i != |s| {
          if IsSimpleEscape(s[i]) {
            i := i + 1;
          } else if s[i] == 'u' {
            i := i + 1;
            ghost var start := i;
            var index := 0;
            while index != 4 && i != |s|
              invariant 0 <= index <= 4 && start <= i <= |s|
              invariant HexRun(s, start, 4) == HexRun(s, i, 4 - index)
              decreases 4 - index
            {
              if !IsHexDigit(s[i]) {
                return Mismatch;
              }
              index := index + 1;
              i := i + 1;
            }
          } else {
            return Mismatch;
          }
        }
      }
    }
    return Undecided;
  }

  lemma {:induction false} HexRunStable(s: string, t: string, i: nat, n: nat)
    requires i <= |s|
    ensures HexRun(s, i, n).None? ==> HexRun(s + t, i, n).None?
    ensures HexRun(s, i, n).Some? && HexRun(s, i, n).value < |s| ==> HexRun(s + t, i, n) == HexRun(s, i, n)
    decreases n
  {
    if n > 0 && i < |s| { HexRunStable(s, t, i + 1, n - 1); }
  }

  lemma {:induction false} StringStable(s: string, t: string, i: nat)
    requires i <= |s|
    ensures !StringBody(s, i).Undecided? ==> StringBody(s + t, i) == StringBody(s, i)
    decreases |s| - i
  {
    if i < |s| && s[i] != '\"' && s[i] >= ' ' {
      if s[i] != '\\' {
        StringStable(s, t, i + 1);
      } else if i + 1 < |s| && IsSimpleEscape(s[i + 1]) {
        StringStable(s, t, i + 2);
      } else if i + 1 < |s| && s[i + 1] == 'u' {
        HexRunStable(s, t, i + 2, 4);
        var j := HexRun(s, i + 2, 4);
        if j.Some? { StringStable(s, t, j.value); }
      }
    }
  }

  // ---------------------------------------------------------------- numbers

  /** The variables of check_number; end is it_number_end. */
  datatype Numbering = Numbering(state: nat, hex: bool, dot: bool, end: nat)

  predicate IsNumberDigit(c: char, hex: bool) {
    '0' <= c <= '9' || (hex && ('a' <= c <= 'f' || 'A' <= c <= 'F'))
  }

  // One iteration at position i; None is the break.
  function NumberStep(v: Numbering, c: char, i: nat): (r: Option<Numbering>)
    ensures r.Some? ==> r.value.end == v.end || r.value.end == i + 1
  {
    if v.state < 1 && (c == '-' || c == '+') then Some(v.(state := 1))
    else if v.state < 2 && c == '0' then Some(v.(state := 2, end := i + 1))
    else if v.state == 2 && (c == 'x' || c == 'X') then Some(v.(state := 3, hex := true))
    else if v.state < 5 && c == '.' && !v.dot then
      if v.state == 2 || v.state == 4 then Some(v.(dot := true, state := 4, end := i + 1))
      else Some(v.(dot := true, state := 3))
    else if v.state < 5 && IsNumberDigit(c, v.hex) then Some(v.(state := 4, end := i + 1))
    else if v.state == 4 && (c == 'e' || c == 'E') then Some(v.(state := 5))
    else if v.state == 5 && (c == '-' || c == '+') then Some(v.(state := 6))
    else if (v.state == 6 || v.state == 5) && IsNumberDigit(c, v.hex) then Some(v.(end := i + 1))
    else None
  }

  // Where the loop stops, and the variables there.
  function NumberRun(s: string, i: nat, v: Numbering): (r: (nat, Numbering))
    requires i <= |s| && v.end <= i
    ensures i <= r.0 <= |s| && r.1.end <= r.0
    decreases |s| - i
  {
    if i == |s| then (i, v)
    else
      match NumberStep(v, s[i], i)
      case None => (i, v)
      case Some(w) => NumberRun(s, i + 1, w)
  }

  const NUMBER_START := Numbering(0, false, false, 0)

  /** check_number in stream mode: a number is taken only once a character behind it shows
      where it ends. */
  function LexNumber(s: string): Lexed {
    var (stop, v) := NumberRun(s, 0, NUMBER_START);
    if stop == |s| then Undecided else if v.end == 0 then Mismatch else Taken(v.end)
  }

  method CheckNumber(s: string) returns (r: Lexed)
    ensures r == LexNumber(s)
  {
    var v := NUMBER_START;
    var i := 0;
    while i != |s|
      invariant 0 <= i <= |s| && v.end <= i
      invariant NumberRun(s, 0, NUMBER_START) == NumberRun(s, i, v)
    {
      var next := NumberStep(v, s[i], i);
      if next.None? {
        break;
      }
      v := next.value;
      i := i + 1;
    }
    if v.end == 0 {
      return if i == |s| then Undecided else Mismatch;
    }
    return if i != |s| then Taken(v.end) else Undecided;
  }

  lemma {:induction false} NumberStable(s: string, t: string, i: nat, v: Numbering)
    requires i <= |s| && v.end <= i
    requires NumberRun(s, i, v).0 < |s|
    ensures NumberRun(s + t, i, v) == NumberRun(s, i, v)
    decreases |s| - i
  {
    var w := NumberStep(v, s[i], i);
    if w.Some? { NumberStable(s, t, i + 1, w.value); }
  }

  // ---------------------------------------------------------------- fixed words and blanks

  /** check(): the word is there, or the text ends inside it, or they differ. */
  function LexWord(s: string, word: string): Lexed {
    if word <= s then Taken(|word|) else if s <= word then Undecided else Mismatch
  }

  method Check(s: string, word: string) returns (r: Lexed)
    ensures r == LexWord(s, word)
  {
    var i := 0;
    while i != |s| && i != |word|
      invariant 0 <= i <= |s| && i <= |word|
      invariant s[..i] == word[..i]
    {
      if s[i] != word[i] {
        return Mismatch;
      }
      i := i + 1;
    }
    assert s[..|s|] == s && word[..|word|] == word;
    return if i == |word| then Taken(i) else Undecided;
  }

  function LexBool(s: string): Lexed {
    if LexWord(s, "true").Mismatch? then LexWord(s, "false") else LexWord(s, "true")
  }

  function Blanks(s: string): (n: nat)
    ensures n <= |s|
    ensures forall i :: 0 <= i < n ==> IsBlank(s[i])
    ensures n < |s| ==> !IsBlank(s[n])
  {
    if s == "" || !IsBlank(s[0]) then 0 else 1 + Blanks(s[1..])
  }

  function LexBlanks(s: string): Lexed {
    if Blanks(s) == 0 then Mismatch else Taken(Blanks(s))
  }

  method ParseBlanks(s: string) returns (r: Lexed)
    ensures r == LexBlanks(s)
  {
    var i := 0;
    while i != |s| && IsBlank(s[i])
      invariant 0 <= i <= |s|
      invariant Blanks(s) == i + Blanks(s[i..])
    {
      i := i + 1;
    }
    return if i == 0 then Mismatch else Taken(i);
  }

  lemma {:induction false} BlanksStable(s: string, t: string)
    ensures Blanks(s) < |s| ==> Blanks(s + t) == Blanks(s)
    ensures Blanks(s) == |s| ==> Blanks(s + t) == |s| + Blanks(t)
  {
    if s == "" {
      assert s + t == t;
    } else {
      assert (s + t)[1..] == s[1..] + t;
      if IsBlank(s[0]) { BlanksStable(s[1..], t); }
    }
  }

  // ---------------------------------------------------------------- the lexer list

  const COMMA: nat := 0
  const BRACE: nat := 1
  const BRACKET: nat := 2
  const COLON: nat := 3
  const STRING: nat := 4
  const NUMBER: nat := 5
  const BOOL: nat := 6
  const NULL: nat := 7
  const BLANKS: nat := 8
  const LEXERS: nat := 9

  const JSON: Table :=
    Table([Infix(1, true), Scope(3), Scope(4), Infix(2, false), Word, Word, Word, Word, Blank], None)

  datatype Reading = Success(tok: Token, len: nat) | Attempt | Error

  function ReadOperator(s: string, c: char, tok: Token): Reading
    requires s != ""
  {
    if s[0] == c then Success(tok, 1) else Error
  }

  function ReadScope(k: nat, s: string, open: char, close: char): Reading
    requires s != "" && k < LEXERS && JSON.kinds[k].Scope?
  {
    if s[0] == open then Success(Token(JSON.OpenInfo(k), AsValue), 1)
    else if s[0] == close then Success(Token(JSON.CloseInfo(k), AsOperator), 1)
    else Error
  }

  function ReadLexed(lexed: Lexed, k: nat): Reading {
    match lexed
    case Taken(len) =>
      if len == 0 then Attempt
      else Success(if k == BLANKS then Token(Value(k, 0, len), Discard) else Token(Value(k, 0, len), AsValue), len)
    case Undecided => Attempt
    case Mismatch => Error
  }

  /** internal_read of the k-th lexer of the list, on a non-empty text. */
  function ReadWith(k: nat, s: string): Reading
    requires k < LEXERS && s != ""
  {
    if k == COMMA then ReadOperator(s, ',', Token(JSON.InfixInfo(COMMA), AsOperator))
    else if k == BRACE then ReadScope(BRACE, s, '{', '}')
    else if k == BRACKET then ReadScope(BRACKET, s, '[', ']')
    else if k == COLON then ReadOperator(s, ':', Token(JSON.InfixInfo(COLON), AsOperator))
    else ReadLexed(if k == STRING then LexString(s) else if k == NUMBER then LexNumber(s)
                   else if k == BOOL then LexBool(s) else if k == NULL then LexWord(s, "null") else LexBlanks(s), k)
  }

  /** parse of operator_comma and operator_colon: what it says about the token, if it reads one. */
  method ParseOperator(s: string, c: char) returns (ok: bool, asOperator: bool, right: nat, property: nat)
    requires s != ""
    ensures ok == (s[0] == c) && (ok ==> asOperator && right == 1 && property == if c == ':' then 0 else 1)
  {
    ok, asOperator, right, property := false, false, 0, 0;
    if s[0] == c {
      ok, asOperator, right := true, true, 1;
      property := if c == ':' then 0 else 1;
    }
  }

  /** parse of scope_brace and scope_bracket. */
  method ParseScope(s: string, open: char, close: char) returns (ok: bool, asOperator: bool, right: nat, property: nat)
    requires s != "" && open != close
    ensures ok == (s[0] == open || s[0] == close)
    ensures ok && s[0] == open ==> !asOperator && right == 1 && property == 4
    ensures ok && s[0] == close ==> asOperator && right == 0 && property == 8
  {
    ok, asOperator, right, property := s[0] == open || s[0] == close, false, 1, 4;
    if s[0] == close {
      asOperator, right, property := true, 0, 8;
    }
  }

  /** internal_read of the k-th lexer, from what its parse says. */
  method InternalRead(k: nat, s: string) returns (r: Reading)
    requires k < LEXERS && s != ""
    ensures r == ReadWith(k, s)
  {
    var lexed;
    if k == COMMA || k == COLON || k == BRACE || k == BRACKET {
      var ok, asOperator, right, property;
      if k == COMMA || k == COLON {
        ok, asOperator, right, property := ParseOperator(s, if k == COMMA then ',' else ':');
      } else {
        var open, close := if k == BRACE then '{' else '[', if k == BRACE then '}' else ']';
        ok, asOperator, right, property := ParseScope(s, open, close);
      }
      var priority := if k == COMMA then 1 else if k == COLON then 2 else if k == BRACE then 3 else 4;
      var info := Operator(k, priority, right, property);
      return if ok then Success(Token(info, if asOperator then AsOperator else AsValue), 1) else Error;
    } else if k == STRING {
      lexed := ParseString(s);
    } else if k == NUMBER {
      lexed := CheckNumber(s);
    } else if k == BOOL {
      lexed := Check(s, "true");
      if lexed.Mismatch? {
        lexed := Check(s, "false");
      }
    } else if k == NULL {
      lexed := Check(s, "null");
    } else {
      lexed := ParseBlanks(s);
    }
    return ReadLexed(lexed, k);
  }

  /** The tokens read are those of the JSON operator table. */
  lemma ReadProduces(k: nat, s: string)
    requires k < LEXERS && s != "" && ReadWith(k, s).Success?
    ensures var r := ReadWith(k, s);
            && r.tok.Valid() && JSON.Produces(r.tok) && 0 < r.len <= |s|
            && (r.tok.placeAs.Discard? <==> k == BLANKS)
            && (r.tok.placeAs.AsValue? && r.tok.info.Value? ==> r.tok.info == Value(k, 0, r.len))
  {}

  lemma JsonTable()
    ensures JSON.Valid() && JSON.Fallback() == None
  {}

  /** The only lexer that can react to a text beginning with c. */
  function LexerOf(c: char): Option<nat> {
    if c == ',' then Some(COMMA)
    else if c == '{' || c == '}' then Some(BRACE)
    else if c == '[' || c == ']' then Some(BRACKET)
    else if c == ':' then Some(COLON)
    else if c == '\"' then Some(STRING)
    else if c == '-' || c == '+' || c == '.' || '0' <= c <= '9' then Some(NUMBER)
    else if c == 't' || c == 'f' then Some(BOOL)
    else if c == 'n' then Some(NULL)
    else if IsBlank(c) then Some(BLANKS)
    else None
  }

  /** The first character decides which lexer reads. */
  lemma OneLexerReacts(k: nat, s: string)
    requires k < LEXERS && s != "" && !ReadWith(k, s).Error?
    ensures LexerOf(s[0]) == Some(k)
  {}

  /** A lexer's success or error never changes when more text follows. A run of blanks at the
      very end of the text may grow, and nothing else. */
  lemma ReadStable(k: nat, s: string, t: string)
    requires k < LEXERS && s != ""
    ensures var r, r' := ReadWith(k, s), ReadWith(k, s + t);
            && (r.Error? ==> r' == Error)
            && (r.Success? && (k != BLANKS || r.len < |s|) ==> r' == r)
            && (r.Success? && k == BLANKS && r.len == |s| ==> r' == ReadLexed(Taken(|s| + Blanks(t)), BLANKS))
  {
    if k == STRING {
      StringReadStable(s, t);
    } else if k == NUMBER {
      NumberReadStable(s, t);
    } else if k == BLANKS {
      BlanksReadStable(s, t);
    } else if k == BOOL {
      BoolReadStable(s, t);
    } else if k == NULL {
      WordStable(s, t, "null");
    } else {
      assert (s + t)[0] == s[0];
    }
  }

  // A decided reading stays what it is.
  ghost predicate Keeps(r: Reading, r': Reading) {
    !r.Attempt? ==> r' == r
  }

  lemma StringReadStable(s: string, t: string)
    requires s != ""
    ensures Keeps(ReadWith(STRING, s), ReadWith(STRING, s + t))
  {
    assert (s + t)[0] == s[0];
    if s[0] == '\"' { StringStable(s, t, 1); }
  }

  lemma NumberReadStable(s: string, t: string)
    requires s != ""
    ensures Keeps(ReadWith(NUMBER, s), ReadWith(NUMBER, s + t))
  {
    if NumberRun(s, 0, NUMBER_START).0 < |s| { NumberStable(s, t, 0, NUMBER_START); }
  }

  lemma BoolReadStable(s: string, t: string)
    requires s != ""
    ensures Keeps(ReadWith(BOOL, s), ReadWith(BOOL, s + t))
  {
    WordStable(s, t, "true");
    WordStable(s, t, "false");
  }

  lemma BlanksReadStable(s: string, t: string)
    requires s != ""
    ensures var r, r' := ReadWith(BLANKS, s), ReadWith(BLANKS, s + t);
            && (r.Error? ==> r' == Error)
            && (r.Success? && r.len < |s| ==> r' == r)
            && (r.Success? && r.len == |s| ==> r' == ReadLexed(Taken(|s| + Blanks(t)), BLANKS))
  {
    BlanksStable(s, t);
    assert ReadWith(BLANKS, s) == ReadLexed(LexBlanks(s), BLANKS);
    assert ReadWith(BLANKS, s + t) == ReadLexed(LexBlanks(s + t), BLANKS);
  }

  lemma WordStable(s: string, t: string, word: string)
    ensures !LexWord(s, word).Undecided? ==> LexWord(s + t, word) == LexWord(s, word)
    ensures LexWord(s, word).Undecided? ==> s <= word && |s| < |word|
  {
    if word <= s { assert word <= s + t; }
  }

  // ---------------------------------------------------------------- all tokens of a text

  datatype Lexeme = Lexeme(tok: Token, len: nat)

  /** The tokens of a text, lexer after lexer, with their lengths, whether or not they find a
      place in a tree; None if a lexer fails or is left undecided. */
  function Lexemes(s: string): Option<seq<Lexeme>>
    decreases |s|
  {
    if s == "" then Some([]) else
    var k := LexerOf(s[0]);
    if k.None? || !ReadWith(k.value, s).Success? then None else
    var r := ReadWith(k.value, s);
    ReadProduces(k.value, s);
    var rest := Lexemes(s[r.len..]);
    if rest.None? then None else Some([Lexeme(r.tok, r.len)] + rest.value)
  }

  lemma {:induction false} LexemesAreTokens(s: string)
    requires Lexemes(s).Some?
    ensures forall i :: 0 <= i < |Lexemes(s).value| ==> Lexemes(s).value[i].tok.Valid()
    decreases |s|
  {
    if s != "" {
      var k := LexerOf(s[0]).value;
      ReadProduces(k, s);
      LexemesAreTokens(s[ReadWith(k, s).len..]);
    }
  }
}
