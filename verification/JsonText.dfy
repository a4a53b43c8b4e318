/** What parse_stream keeps of the text it reads: every character consumed, and for every value
    the slice of its own token. */
module JsonText {
  import opened Wrappers
  import opened Strings
  import opened ExpressionForest
  import opened Placement
  import opened OperatorTable
  import opened TokenRuns
  import opened JsonLexers
  import opened JsonStream

  /** Whatever the limits do, expression_string grows by exactly the characters that are
      consumed, in order, and what is not consumed is left to the caller. */
  lemma {:induction false} TextIsConsumed(x: Stream, s: string, lim: Limits) returns (eaten: string, left: string)
    requires x.st.Settled()
    ensures var (y, rest, ok) := ParseStream(x, s, lim);
            y.text == x.text + eaten && s == eaten + left && (if ok then left == rest else rest == "")
    decreases |s|
  {
    eaten, left := "", s;
    if s != "" {
      ParseIsStep(0, x, s, lim);
      var (y, o) := Limited(x, s, lim);
      if o.Consumed? {
        var front, back := s[..o.len], s[o.len..];
        eaten, left := TextIsConsumed(y, back, lim);
        Assoc(x.text, front, eaten);
        Assoc(front, eaten, left);
        SplitAt(s, o.len);
        eaten := front + eaten;
      }
    }
  }

  // ---------------------------------------------------------------- the tree's shape

  lemma PlacedOk(t: Table, s: State, tok: Token, at: nat)
    requires t.Valid() && s.Valid() && tok.Valid()
    ensures t.StateOk(s) && t.Produces(tok) && Place(s, tok, t.Fallback(), at).Some? ==>
              t.StateOk(Place(s, tok, t.Fallback(), at).value)
  {
    if t.StateOk(s) && t.Produces(tok) { t.PlaceOk(s, tok, at, 0); }
  }

  // A step leaves the tree alone or places the token read.
  lemma LimitedPlaces(x: Stream, s: string, lim: Limits) returns (tok: Token)
    requires s != "" && x.st.Settled()
    ensures var st := Limited(x, s, lim).0.st;
            st == x.st || (tok.Valid() && JSON.Produces(tok) && Place(x.st, tok, None, |x.text|) == Some(st))
  {
    var k := LexerOf(s[0]);
    tok := Token(Operator(0, 0, 0, 0), Discard);
    if k.Some? && ReadWith(k.value, s).Success? {
      tok := ReadWith(k.value, s).tok;
      ReadProduces(k.value, s);
    }
  }

  lemma LimitedOk(x: Stream, s: string, lim: Limits)
    requires s != "" && JSON.StateOk(x.st)
    ensures JSON.StateOk(Limited(x, s, lim).0.st)
  {
    var tok := LimitedPlaces(x, s, lim);
    JsonTable();
    if Limited(x, s, lim).0.st != x.st { PlacedOk(JSON, x.st, tok, |x.text|); }
  }

  /** Every tree that parse_stream builds, from any text under any limits, has the arities and
      the priority order of the JSON table. */
  lemma {:induction false} StreamOk(x: Stream, s: string, lim: Limits) returns (st: State)
    requires JSON.StateOk(x.st)
    ensures st == ParseStream(x, s, lim).0.st && JSON.StateOk(st)
    decreases |s|
  {
    st := x.st;
    if s != "" {
      ParseIsStep(0, x, s, lim);
      LimitedOk(x, s, lim);
      var (y, o) := Limited(x, s, lim);
      st := y.st;
      if o.Consumed? { st := StreamOk(y, s[o.len..], lim); }
    }
  }

  // ---------------------------------------------------------------- the tokens of a run

  /** A token, where its text starts in expression_string, and that text. */
  datatype Piece = Piece(tok: Token, at: nat, text: string)

  ghost function Pieces(x: Stream, s: string): seq<Piece>
    requires x.st.Settled()
    decreases |s|
  {
    if s == "" then [] else
    var (y, o) := Step(x, s);
    if o.Consumed? then [Piece(o.tok, |x.text|, s[..o.len])] + Pieces(y, s[o.len..]) else []
  }

  function Steps(pieces: seq<Piece>): (r: seq<Fed>)
    ensures |r| == |pieces|
    ensures forall i :: 0 <= i < |pieces| ==> r[i] == Fed(pieces[i].tok, pieces[i].at)
  {
    if pieces == [] then [] else [Fed(pieces[0].tok, pieces[0].at)] + Steps(pieces[1..])
  }

  function Concat(pieces: seq<Piece>): string {
    if pieces == [] then "" else pieces[0].text + Concat(pieces[1..])
  }

  function Values(pieces: seq<Piece>): seq<(nat, nat)> {
    if pieces == [] then []
    else ValueOf(pieces[0]) + Values(pieces[1..])
  }

  // Pieces lie one behind the other from position `from` of the text.
  predicate Tiles(pieces: seq<Piece>, from: nat, text: string) {
    if pieces == [] then from == |text|
    else
      && pieces[0].at == from && pieces[0].text != "" && from + |pieces[0].text| <= |text|
      && text[from..from + |pieces[0].text|] == pieces[0].text
      && Tiles(pieces[1..], from + |pieces[0].text|, text)
  }

  lemma {:induction false} TilesMeans(pieces: seq<Piece>, from: nat, text: string, i: nat, j: nat)
    requires Tiles(pieces, from, text) && i < |pieces|
    ensures var p := pieces[i];
            from <= p.at && p.at + |p.text| <= |text| && text[p.at..p.at + |p.text|] == p.text
    ensures i < j < |pieces| ==> pieces[i].at + |pieces[i].text| <= pieces[j].at
  {
    if i > 0 {
      TilesMeans(pieces[1..], from + |pieces[0].text|, text, i - 1, if j > 0 then j - 1 else 0);
    } else if j > 0 && j < |pieces| {
      TilesMeans(pieces[1..], from + |pieces[0].text|, text, j - 1, 0);
    }
  }

  function ValueOf(p: Piece): seq<(nat, nat)> {
    if p.tok.placeAs.AsValue? && p.tok.info.Value? then [(p.at, |p.text|)] else []
  }

  // A step that reads a value adds exactly its slice to the values of the tree.
  lemma StepYields(x: Stream, s: string)
    requires s != "" && x.st.Settled()
    ensures var (y, o) := Step(x, s);
            o.Consumed? ==> && o.tok.Valid() && JSON.Produces(o.tok) && 0 < o.len <= |s|
                            && y.text == x.text + s[..o.len]
                            && Place(x.st, o.tok, None, |x.text|) == Some(y.st)
                            && Yield(y.st.root) == Yield(x.st.root) + ValueOf(Piece(o.tok, |x.text|, s[..o.len]))
  {
    var k := LexerOf(s[0]);
    if k.Some? && ReadWith(k.value, s).Success? {
      ReadProduces(k.value, s);
      PlaceKeeps(x.st, ReadWith(k.value, s).tok, None, |x.text|);
    }
  }

  // Unlimited and Pieces over the first step.
  lemma PiecesStep(x: Stream, s: string)
    requires s != "" && x.st.Settled()
    ensures var (y, o) := Step(x, s);
            if o.Consumed? then
              && Unlimited(x, s) == Unlimited(y, s[o.len..])
              && Pieces(x, s) == [Piece(o.tok, |x.text|, s[..o.len])] + Pieces(y, s[o.len..])
            else Unlimited(x, s).0 == x && Pieces(x, s) == []
  {}

  lemma {:induction false} UnlimitedIsSliced(x: Stream, s: string)
    requires x.st.Settled()
    ensures Sliced(x, Unlimited(x, s).0, Pieces(x, s))
    decreases |s|
  {
    if s != "" {
      PiecesStep(x, s);
      var (y, o) := Step(x, s);
      if o.Consumed? {
        var back := s[o.len..];
        UnlimitedIsSliced(y, back);
        StepYields(x, s);
        SlicesJoin(x, Piece(o.tok, |x.text|, s[..o.len]), y, Unlimited(y, back).0, Pieces(y, back));
      }
    }
  }

  /** As long as the tokens fit, and so whenever parse_stream succeeds: the values of the tree,
      left to right, are the value tokens in input order; every value node's slice of
      expression_string is exactly its token's text; slices are disjoint and increasing; and the
      texts of all tokens make up what was consumed. */
  lemma ValuesAreSlices(x: Stream, s: string, lim: Limits)
    requires x.st.Settled()
    ensures ParseStream(x, s, lim).2 ==> TokensFit(x, s, lim)
    ensures TokensFit(x, s, lim) ==> Sliced(x, ParseStream(x, s, lim).0, Pieces(x, s))
  {
    LimitsExactly(x, s, lim);
    UnlimitedIsSliced(x, s);
  }

  // The pieces tile the new text, and their values are the new values of the tree.
  ghost predicate Sliced(x: Stream, z: Stream, ps: seq<Piece>) {
    z.text == x.text + Concat(ps) && Tiles(ps, |x.text|, z.text) && Yield(z.st.root) == Yield(x.st.root) + Values(ps)
  }

  // The claim about the rest of the text, one step earlier.
  lemma SlicesJoin(x: Stream, p: Piece, y: Stream, z: Stream, rest: seq<Piece>)
    requires p.at == |x.text| && p.text != "" && y.text == x.text + p.text
    requires Yield(y.st.root) == Yield(x.st.root) + ValueOf(p)
    requires Sliced(y, z, rest)
    ensures Sliced(x, z, [p] + rest)
  {
    assert ([p] + rest)[1..] == rest;
    assert Concat([p] + rest) == p.text + Concat(rest);
    Assoc(x.text, p.text, Concat(rest));
    assert Values([p] + rest) == ValueOf(p) + Values(rest);
    assert z.text[|x.text|..|x.text| + |p.text|] == p.text;
  }

  // ---------------------------------------------------------------- streams are runs

  lemma {:induction false} RunCons(t: Table, s: State, a: Fed, b: seq<Fed>)
    requires t.Valid() && s.Settled() && a.tok.Valid() && forall i :: 0 <= i < |b| ==> b[i].tok.Valid()
    ensures Run(t, s, [a] + b) ==
            match Place(s, a.tok, t.Fallback(), a.at)
            case None => None
            case Some(m) => (PlaceKeeps(s, a.tok, t.Fallback(), a.at); Run(t, m, b))
    decreases |b|
  {
    PlaceKeeps(s, a.tok, t.Fallback(), a.at);
    if b == [] {
      AddNothing([a]);
      assert [a][..0] == [];
    } else {
      LastApart([a], b);
      RunCons(t, s, a, b[..|b| - 1]);
    }
  }

  /** The steps lead from one state to the other. */
  ghost predicate Reaches(t: Table, s: State, steps: seq<Fed>, z: State) {
    && t.Valid() && s.Settled() && (forall i :: 0 <= i < |steps| ==> steps[i].tok.Valid())
    && Run(t, s, steps) == Some(z)
  }

  lemma ReachesCons(t: Table, s: State, a: Fed, m: State, rest: seq<Fed>, z: State)
    requires t.Valid() && s.Settled() && a.tok.Valid() && t.Produces(a.tok)
    requires Place(s, a.tok, t.Fallback(), a.at) == Some(m)
    ensures FromTable(t, rest) ==> FromTable(t, [a] + rest)
    ensures Reaches(t, m, rest, z) ==> Reaches(t, s, [a] + rest, z)
  {
    if Reaches(t, m, rest, z) { RunCons(t, s, a, rest); }
  }

  lemma {:induction false} UnlimitedIsRun(x: Stream, s: string)
    requires x.st.Settled()
    ensures Unlimited(x, s).0.st.Valid()
    ensures FromTable(JSON, Steps(Pieces(x, s)))
    ensures Reaches(JSON, x.st, Steps(Pieces(x, s)), Unlimited(x, s).0.st)
    decreases |s|
  {
    JsonTable();
    if s != "" {
      PiecesStep(x, s);
      var (y, o) := Step(x, s);
      if o.Consumed? {
        StepYields(x, s);
        var rest, z := Pieces(y, s[o.len..]), Unlimited(x, s).0.st;
        UnlimitedIsRun(y, s[o.len..]);
        StepsJoin(Piece(o.tok, |x.text|, s[..o.len]), rest);
        ReachesCons(JSON, x.st, Fed(o.tok, |x.text|), y.st, Steps(rest), z);
      }
    }
  }

  /** As long as the tokens fit, what parse_stream does is a run of table tokens, so everything
      proved about runs holds of it. */
  lemma StreamIsRun(x: Stream, s: string, lim: Limits)
    requires x.st.Settled()
    ensures FromTable(JSON, Steps(Pieces(x, s)))
    ensures TokensFit(x, s, lim) ==> Reaches(JSON, x.st, Steps(Pieces(x, s)), ParseStream(x, s, lim).0.st)
  {
    LimitsExactly(x, s, lim);
    UnlimitedIsRun(x, s);
  }

  lemma StepsJoin(p: Piece, rest: seq<Piece>)
    ensures Steps([p] + rest) == [Fed(p.tok, p.at)] + Steps(rest)
  {
    assert ([p] + rest)[1..] == rest;
  }

  lemma JsonScopes(r: nat)
    ensures r == BRACE || r == BRACKET ==> JSON.IsScope(r)
  {}

  lemma BalancedFromTable(t: Table, steps: seq<Fed>, r: nat, s: State)
    requires s.Valid() && t.IsScope(r)
    ensures FromTable(t, steps) && Reaches(t, START, steps, s) && s.Complete() ==>
              Counted(steps, r) == 2 * t.ScopeNodes(s.root, r)
  {
    if FromTable(t, steps) && Reaches(t, START, steps, s) { BalancedWhenComplete(t, steps, r); }
  }

  /** When parse_stream has built a complete JSON tree, every comma has at least two operands,
      every colon exactly two and every brace or bracket at most one child. As long as the tokens
      fit, the brace tokens consumed are exactly two for every brace node, as are the bracket
      tokens. */
  lemma CompleteJson(x: Stream, s: string, lim: Limits, r: nat)
    requires x == Stream(START, "") && (r == BRACE || r == BRACKET)
    ensures var y := ParseStream(x, s, lim).0;
            y.st.Complete() ==>
              && Arity(JSON, y.st.root)
              && (TokensFit(x, s, lim) ==> Counted(Steps(Pieces(x, s)), r) == 2 * JSON.ScopeNodes(y.st.root, r))
  {
    var st := StreamOk(x, s, lim);
    CompleteIsExact(st);
    if st.Complete() { CompleteArities(JSON, st.root); }
    StreamIsRun(x, s, lim);
    JsonScopes(r);
    BalancedFromTable(JSON, Steps(Pieces(x, s)), r, st);
  }
}
