/** JSON texts and their reference trees: the lexers and the parser together. */
module JsonReference {
  import opened Wrappers
  import opened Strings
  import opened Placement
  import opened OperatorTable
  import opened TokenRuns
  import opened Reference
  import opened BareTrees
  import opened ParserCorrect
  import opened JsonLexers
  import opened JsonStream
  import opened JsonText

  function FedFrom(ls: seq<Lexeme>, at: nat): seq<Fed> {
    if ls == [] then [] else [Fed(ls[0].tok, at)] + FedFrom(ls[1..], at + ls[0].len)
  }

  lemma {:induction false} FedTokens(ls: seq<Lexeme>, at: nat)
    ensures |FedFrom(ls, at)| == |ls| && forall i :: 0 <= i < |ls| ==> FedFrom(ls, at)[i].tok == ls[i].tok
  {
    if ls != [] { FedTokens(ls[1..], at + ls[0].len); }
  }

  // ---------------------------------------------------------------- blanks do not matter

  function Kept(steps: seq<Fed>): (r: seq<Fed>)
    ensures forall i :: 0 <= i < |r| ==> r[i] in steps
  {
    if steps == [] then [] else
    Kept(steps[..|steps| - 1]) + if steps[|steps| - 1].tok.placeAs.Discard? then [] else [steps[|steps| - 1]]
  }

  lemma {:induction false} BlanksDoNotMatter(t: Table, steps: seq<Fed>)
    requires t.Valid() && forall i :: 0 <= i < |steps| ==> steps[i].tok.Valid()
    ensures Run(t, START, steps) == Run(t, START, Kept(steps))
  {
    if steps != [] {
      var front, last := steps[..|steps| - 1], steps[|steps| - 1];
      BlanksDoNotMatter(t, front);
      if !last.tok.placeAs.Discard? {
        assert (Kept(front) + [last])[..|Kept(front)|] == Kept(front);
      } else {
        assert Kept(front) + [] == Kept(front);
      }
    }
  }

  // ---------------------------------------------------------------- from text to tree

  // One token takes one state to the other.
  ghost predicate Leads(t: Table, s: State, a: Fed, m: State) {
    t.Valid() && s.Settled() && a.tok.Valid() && Place(s, a.tok, t.Fallback(), a.at) == Some(m)
  }

  lemma ReachesFirst(t: Table, s: State, all: seq<Fed>, a: Fed, rest: seq<Fed>, z: State) returns (m: State)
    requires all == [a] + rest
    ensures Reaches(t, s, all, z) ==> Leads(t, s, a, m) && Reaches(t, m, rest, z)
  {
    m := s;
    if Reaches(t, s, all, z) {
      assert all[0] == a && forall i :: 0 <= i < |rest| ==> rest[i] == all[i + 1];
      RunCons(t, s, a, rest);
      PlaceKeeps(s, a.tok, t.Fallback(), a.at);
      m := Place(s, a.tok, t.Fallback(), a.at).value;
    }
  }

  lemma FedCons(l: Lexeme, ls: seq<Lexeme>, at: nat)
    ensures FedFrom([l] + ls, at) == [Fed(l.tok, at)] + FedFrom(ls, at + l.len)
  {
    assert ([l] + ls)[1..] == ls;
  }

  // The lexemes of a text, taken apart.
  lemma FirstLexeme(s: string, ls: seq<Lexeme>) returns (k: nat, tok: Token, len: nat, rest: seq<Lexeme>)
    requires s != "" && Lexemes(s) == Some(ls)
    ensures LexerOf(s[0]) == Some(k) && k < LEXERS && ReadWith(k, s) == Success(tok, len) && 0 < len <= |s|
    ensures Lexemes(s[len..]) == Some(rest) && ls == [Lexeme(tok, len)] + rest
  {
    k := LexerOf(s[0]).value;
    tok, len := ReadWith(k, s).tok, ReadWith(k, s).len;
    ReadProduces(k, s);
    rest := Lexemes(s[len..]).value;
  }

  lemma TakesStep(x: Stream, s: string, k: nat, tok: Token, len: nat, m: State) returns (y: Stream)
    requires s != "" && x.st.Settled() && LexerOf(s[0]) == Some(k) && k < LEXERS && ReadWith(k, s) == Success(tok, len)
    requires Leads(JSON, x.st, Fed(tok, |x.text|), m)
    ensures 0 < len <= |s| && y.st == m && m.Settled() && y.text == x.text + s[..len] && |y.text| == |x.text| + len
    ensures Unlimited(x, s) == Unlimited(y, s[len..])
  {
    ReadProduces(k, s);
    PlaceKeeps(x.st, tok, None, |x.text|);
    y := Stream(m, x.text + s[..len]);
  }

  lemma FirstPlaced(t: Table, s: State, at: nat, steps: seq<Fed>, tok: Token, next: nat, rest: seq<Lexeme>, z: State)
    returns (m: State, later: seq<Fed>)
    requires next >= at && steps == FedFrom([Lexeme(tok, next - at)] + rest, at)
    ensures later == FedFrom(rest, next)
    ensures Reaches(t, s, steps, z) ==> Leads(t, s, Fed(tok, at), m) && Reaches(t, m, later, z)
  {
    FedCons(Lexeme(tok, next - at), rest, at);
    later := FedFrom(rest, next);
    m := ReachesFirst(t, s, steps, Fed(tok, at), later, z);
  }

  // A text that lexes is read to its end, if its tokens find their places.
  lemma {:induction false} LexedTextIsRead(x: Stream, at: nat, s: string, ls: seq<Lexeme>, steps: seq<Fed>, z: State)
    requires at == |x.text| && x.st.Settled() && Lexemes(s) == Some(ls) && steps == FedFrom(ls, at)
    ensures Reaches(JSON, x.st, steps, z) ==> Unlimited(x, s) == (Stream(z, x.text + s), "", true)
    decreases |s|
  {
    if s == "" {
      assert x.text + s == x.text;
    } else if Reaches(JSON, x.st, steps, z) {
      var k, tok, len, rest := FirstLexeme(s, ls);
      var next := at + len;
      var m, later := FirstPlaced(JSON, x.st, at, steps, tok, next, rest, z);
      var y := TakesStep(x, s, k, tok, len, m);
      Rejoin(x.text, s, len);
      LexedTextIsRead(y, next, s[len..], rest, later, z);
    }
  }

  /** The tokens of the text, blanks aside, are those of the expression. */
  ghost predicate Spells(s: string, c: Chain) {
    && WellFormedChain(JSON, c) && Lexemes(s).Some?
    && SpellsTokens(Kept(FedFrom(Lexemes(s).value, 0)), ChainTokens(JSON, c))
  }

  /** A text whose tokens, blanks aside, spell a well-formed expression is read to its end, and
      the tree is complete and is the reference tree of the expression. Under limits the same holds
      exactly when the tokens fit. */
  lemma JsonTextBuildsReference(s: string, c: Chain, lim: Limits)
    requires Spells(s, c)
    ensures var (y, rest, ok) := Unlimited(Stream(START, ""), s);
            ok && rest == "" && y.text == s && y.st.Complete() && Strip(y.st.root) == ChainTree(JSON, c)
    ensures ParseStream(Stream(START, ""), s, lim).2 <==> TokensFit(Stream(START, ""), s, lim)
    ensures TokensFit(Stream(START, ""), s, lim) ==>
              ParseStream(Stream(START, ""), s, lim) == Unlimited(Stream(START, ""), s)
  {
    var ls := Lexemes(s).value;
    JsonTable();
    LexemesAreTokens(s);
    var z := KeptIsReference(JSON, ls, FedFrom(ls, 0), c);
    LexedTextIsRead(Stream(START, ""), 0, s, ls, FedFrom(ls, 0), z);
    assert "" + s == s;
    LimitsExactly(Stream(START, ""), s, lim);
  }

  // The tokens with their blanks lead to the reference tree.
  lemma KeptIsReference(t: Table, ls: seq<Lexeme>, steps: seq<Fed>, c: Chain) returns (z: State)
    requires t.Valid() && (forall i :: 0 <= i < |ls| ==> ls[i].tok.Valid()) && steps == FedFrom(ls, 0)
    requires WellFormedChain(t, c) && SpellsTokens(Kept(steps), ChainTokens(t, c))
    ensures Reaches(t, START, steps, z) && z.Complete() && Strip(z.root) == ChainTree(t, c)
  {
    FedTokens(ls, 0);
    BlanksDoNotMatter(t, steps);
    ParserBuildsReference(t, c, Kept(steps));
    z := Run(t, START, steps).value;
  }

  predicate SpellsTokens(steps: seq<Fed>, toks: seq<Token>) {
    |steps| == |toks| && forall i :: 0 <= i < |steps| ==> steps[i].tok == toks[i]
  }
}
