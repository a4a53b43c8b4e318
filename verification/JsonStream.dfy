/** parse_stream over JSON text: reading token after token into the tree, with the limits of
    readers::parse, in one call or in several. */
module JsonStream {
  import opened Wrappers
  import opened Strings
  import opened ExpressionForest
  import opened Placement
  import opened JsonLexers

  /** The tree state and expression_string. */
  datatype Stream = Stream(st: State, text: string)

  datatype Limits = Limits(pending: nat, depth: nat, size: nat, buffer: nat) {
    predicate Allow(st: State, textLen: nat) {
      st.n <= depth && Size(st.root) <= size && textLen <= buffer
    }
  }

  /** A token consumed, or nothing consumed and no error, or an error. */
  datatype Outcome = Consumed(tok: Token, len: nat) | Waiting | Rejected

  /** readers::parse from the k-th lexer on: the first lexer that succeeds, finds a place and
      stays within the limits wins. A token that breaks a limit has already been placed. */
  ghost function ParseFrom(k: nat, x: Stream, s: string, lim: Limits, waiting: bool): (r: (Stream, Outcome))
    requires k <= LEXERS && s != "" && x.st.Settled()
    ensures r.0.st.Settled()
    ensures r.1.Consumed? ==> 0 < r.1.len <= |s|
    decreases LEXERS - k
  {
    if k == LEXERS then (x, if waiting then Waiting else Rejected)
    else
      match ReadWith(k, s)
      case Error => ParseFrom(k + 1, x, s, lim, waiting)
      case Attempt => ParseFrom(k + 1, x, s, lim, waiting || |s| <= lim.pending)
      case Success(tok, len) =>
        ReadProduces(k, s);
        PlaceKeeps(x.st, tok, None, |x.text|);
        match Place(x.st, tok, None, |x.text|)
        case None => ParseFrom(k + 1, x, s, lim, waiting)
        case Some(st) =>
          if lim.Allow(st, |x.text| + len) then (Stream(st, x.text + s[..len]), Consumed(tok, len))
          else ParseFrom(k + 1, Stream(st, x.text), s, lim, waiting)
  }

  /** parse_stream: the state after it, the text it leaves to the caller, and whether it found
      no error. */
  ghost function ParseStream(x: Stream, s: string, lim: Limits): (r: (Stream, string, bool))
    requires x.st.Settled()
    ensures r.0.st.Settled() && |r.1| <= |s|
    decreases |s|
  {
    if s == "" then (x, "", true)
    else
      var (y, o) := ParseFrom(0, x, s, lim, false);
      match o
      case Consumed(_, len) => ParseStream(y, s[len..], lim)
      case Waiting => (y, s, true)
      case Rejected => (y, "", false)
  }

  // ---------------------------------------------------------------- what the limits do

  /** One step without limits: the lexer of the first character decides alone. */
  ghost function Step(x: Stream, s: string): (r: (Stream, Outcome))
    requires s != "" && x.st.Settled()
    ensures r.0.st.Settled()
    ensures if r.1.Consumed? then 0 < r.1.len <= |s| && r.0.text == x.text + s[..r.1.len] else r.0 == x
  {
    match LexerOf(s[0])
    case None => (x, Rejected)
    case Some(k) =>
      match ReadWith(k, s)
      case Error => (x, Rejected)
      case Attempt => (x, Waiting)
      case Success(tok, len) =>
        ReadProduces(k, s);
        PlaceKeeps(x.st, tok, None, |x.text|);
        match Place(x.st, tok, None, |x.text|)
        case None => (x, Rejected)
        case Some(st) => (Stream(st, x.text + s[..len]), Consumed(tok, len))
  }

  /** parse_stream without limits. */
  ghost function Unlimited(x: Stream, s: string): (r: (Stream, string, bool))
    requires x.st.Settled()
    ensures r.0.st.Settled() && |r.1| <= |s| && (!r.2 ==> r.1 == "")
    decreases |s|
  {
    if s == "" then (x, "", true)
    else
      var (y, o) := Step(x, s);
      match o
      case Consumed(_, len) => Unlimited(y, s[len..])
      case Waiting => (x, s, true)
      case Rejected => (x, "", false)
  }

  /** No token of the run breaks the depth, size or buffer limit. */
  ghost predicate TokensFit(x: Stream, s: string, lim: Limits)
    requires x.st.Settled()
    decreases |s|
  {
    s == "" ||
    var (y, o) := Step(x, s);
    o.Consumed? ==> lim.Allow(y.st, |y.text|) && TokensFit(y, s[o.len..], lim)
  }

  /** No limit is hit: the tokens fit, and the text left undecided at the end is not too long. */
  ghost predicate NoLimitHit(x: Stream, s: string, lim: Limits)
    requires x.st.Settled()
  {
    TokensFit(x, s, lim) && |Unlimited(x, s).1| <= lim.pending
  }

  lemma {:induction false} OthersError(k: nat, x: Stream, s: string, lim: Limits, waiting: bool)
    requires k <= LEXERS && s != "" && x.st.Settled()
    requires forall j :: k <= j < LEXERS ==> ReadWith(j, s).Error?
    ensures ParseFrom(k, x, s, lim, waiting) == (x, if waiting then Waiting else Rejected)
    decreases LEXERS - k
  {
    if k < LEXERS { OthersError(k + 1, x, s, lim, waiting); }
  }

  /** What the limits make of a step. A token that breaks one has been placed, but not consumed. */
  ghost function Limited(x: Stream, s: string, lim: Limits): (Stream, Outcome)
    requires s != "" && x.st.Settled()
  {
    var (y, o) := Step(x, s);
    match o
    case Consumed(_, _) => if lim.Allow(y.st, |y.text|) then (y, o) else (Stream(y.st, x.text), Rejected)
    case Waiting => (x, if |s| <= lim.pending then Waiting else Rejected)
    case Rejected => (x, Rejected)
  }

  // The turn of the lexer that reacts; all later ones fail.
  lemma OneTurn(k: nat, x: Stream, s: string, lim: Limits)
    requires k < LEXERS && s != "" && x.st.Settled() && !ReadWith(k, s).Error?
    ensures ParseFrom(k, x, s, lim, false) == Limited(x, s, lim)
  {
    OneLexerReacts(k, s);
    forall j | k < j < LEXERS
      ensures ReadWith(j, s).Error?
    {
      if !ReadWith(j, s).Error? { OneLexerReacts(j, s); }
    }
    var r := ReadWith(k, s);
    if r.Success? {
      ReadProduces(k, s);
      PlaceKeeps(x.st, r.tok, None, |x.text|);
      var p := Place(x.st, r.tok, None, |x.text|);
      if p.Some? { OthersError(k + 1, Stream(p.value, x.text), s, lim, false); }
    }
    OthersError(k + 1, x, s, lim, r.Attempt? && |s| <= lim.pending);
  }

  /** Trying all lexers under limits is one step of the only lexer that reacts. */
  lemma {:induction false} ParseIsStep(k: nat, x: Stream, s: string, lim: Limits)
    requires k <= LEXERS && s != "" && x.st.Settled()
    requires forall j :: 0 <= j < k ==> ReadWith(j, s).Error?
    ensures ParseFrom(k, x, s, lim, false) == Limited(x, s, lim)
    decreases LEXERS - k
  {
    if k == LEXERS {
      NobodyReacts(x, s, lim);
    } else if ReadWith(k, s).Error? {
      ParseIsStep(k + 1, x, s, lim);
    } else {
      OneTurn(k, x, s, lim);
    }
  }

  /** The limits, number by number. A token that finds a place is consumed if and only if the
      stack, the nodes and the text that it gives are within depth, size and buffer. Text that is
      undecided may wait if and only if there is no more of it than pending. */
  lemma ConsumedExactly(x: Stream, s: string, lim: Limits)
    requires s != "" && x.st.Settled()
    ensures var (y, o), r := Step(x, s), ParseFrom(0, x, s, lim, false).1;
            && (o.Consumed? ==>
                 (r.Consumed? <==> y.st.n <= lim.depth && Size(y.st.root) <= lim.size && |y.text| <= lim.buffer)
                 && !r.Waiting?)
            && (o.Waiting? ==> !r.Consumed? && (r.Waiting? <==> |s| <= lim.pending))
            && (o.Rejected? ==> r.Rejected?)
  {
    ParseIsStep(0, x, s, lim);
  }

  lemma NobodyReacts(x: Stream, s: string, lim: Limits)
    requires s != "" && x.st.Settled() && forall j :: 0 <= j < LEXERS ==> ReadWith(j, s).Error?
    ensures Limited(x, s, lim) == (x, Rejected)
  {
    var k := LexerOf(s[0]);
    if k.Some? { assert ReadWith(k.value, s).Error?; }
  }

  lemma {:induction false} TextGrows(x: Stream, s: string)
    requires x.st.Settled()
    ensures |Unlimited(x, s).0.text| >= |x.text|
    decreases |s|
  {
    if s != "" {
      var (y, o) := Step(x, s);
      if o.Consumed? { TextGrows(y, s[o.len..]); }
    }
  }

  /** Exactly what limits do to parse_stream: it succeeds if and only if it would without limits
      and no limit is hit, and it then does the same. Tree and text are those of the run without
      limits if and only if the tokens fit, whatever the pending limit is; otherwise less text is
      consumed. */
  lemma {:induction false} LimitsExactly(x: Stream, s: string, lim: Limits)
    requires x.st.Settled()
    ensures ParseStream(x, s, lim).2 <==> Unlimited(x, s).2 && NoLimitHit(x, s, lim)
    ensures NoLimitHit(x, s, lim) ==> ParseStream(x, s, lim) == Unlimited(x, s)
    ensures TokensFit(x, s, lim) <==> ParseStream(x, s, lim).0 == Unlimited(x, s).0
    ensures !TokensFit(x, s, lim) ==> |ParseStream(x, s, lim).0.text| < |Unlimited(x, s).0.text|
    decreases |s|
  {
    if s != "" {
      ParseIsStep(0, x, s, lim);
      var (y, o) := Step(x, s);
      if o.Consumed? {
        TextGrows(y, s[o.len..]);
        LimitsExactly(y, s[o.len..], lim);
      }
    }
  }

  // An opening bracket at the start, and below another one.
  lemma Brackets(y: Stream)
    requires y == Stream(State(Snoc(Empty, 0, JSON.OpenInfo(BRACKET), Empty), 1), "[")
    ensures START.Settled() && Step(Stream(START, ""), "[[") == (y, Consumed(Token(JSON.OpenInfo(BRACKET), AsValue), 1))
    ensures y.st.Settled() && y.st.n == 1 && Size(y.st.root) == 1
    ensures var (z, o) := Step(y, "["); o.Consumed? && o.len == 1 && z.st.n == 2 && Size(z.st.root) == 2
  {
    assert "[["[..1] == "[" && "" + "[" == "[" && "["[..1] == "[";
    assert LexerOf("[["[0]) == Some(BRACKET) && LexerOf("["[0]) == Some(BRACKET);
    assert SpineLen(y.st.root) == 1 && At(y.st.root, 0) == JSON.OpenInfo(BRACKET);
    assert Scan(y.st.root, 0, None) == 0 && HasRoom(y.st.root, 0);
  }

  /** Two nested brackets where one address is allowed: the second bracket is refused, but its node
      stays in the tree. */
  lemma RefusedStays(lim: Limits)
    requires lim.depth == 1 && lim.size >= 2 && lim.buffer >= 2
    ensures var (z, rest, ok) := ParseStream(Stream(START, ""), "[[", lim);
            !ok && Size(z.st.root) == 2 && z.text == "["
  {
    var x, y := Stream(START, ""), Stream(State(Snoc(Empty, 0, JSON.OpenInfo(BRACKET), Empty), 1), "[");
    Brackets(y);
    assert "[["[1..] == "[";
    ParseIsStep(0, x, "[[", lim);
    ParseIsStep(0, y, "[", lim);
  }

  /** The pending limit never changes the tree or the text. */
  lemma {:induction false} PendingChangesNothing(x: Stream, s: string, lim: Limits, big: Limits)
    requires x.st.Settled() && big == lim.(pending := big.pending)
    ensures ParseStream(x, s, lim).0 == ParseStream(x, s, big).0
    decreases |s|
  {
    if s != "" {
      ParseIsStep(0, x, s, lim);
      ParseIsStep(0, x, s, big);
      var (y, o) := Step(x, s);
      if o.Consumed? { PendingChangesNothing(y, s[o.len..], lim, big); }
    }
  }

  // ---------------------------------------------------------------- independence of chunks

  // The text ends in a run of blanks that is read next.
  predicate EndsInBlanks(a: string) {
    a != "" && Blanks(a) == |a|
  }

  /** A step that decides does the same when more text follows. A run of blanks at the very end
      is the one exception: it may be read in one piece with blanks that follow. */
  lemma StepStable(x: Stream, a: string, b: string)
    requires a != "" && x.st.Settled() && !EndsInBlanks(a)
    ensures !Step(x, a).1.Waiting? ==> Step(x, a + b) == Step(x, a)
  {
    assert (a + b)[0] == a[0];
    var k := LexerOf(a[0]);
    if k.Some? {
      ReadStable(k.value, a, b);
      if ReadWith(k.value, a).Success? {
        ReadProduces(k.value, a);
        var len := ReadWith(k.value, a).len;
        assert (a + b)[..len] == a[..len];
      }
    }
  }

  // Unlimited and TokensFit over the first step.
  lemma StepOn(x: Stream, s: string, lim: Limits, y: Stream, rest: string)
    requires s != "" && x.st.Settled() && Step(x, s).1.Consumed?
    requires y == Step(x, s).0 && rest == s[Step(x, s).1.len..]
    ensures Unlimited(x, s) == Unlimited(y, rest)
    ensures TokensFit(x, s, lim) <==> lim.Allow(y.st, |y.text|) && TokensFit(y, rest, lim)
  {}

  lemma BlanksStep(x: Stream, s: string)
    requires x.st.Settled() && s != "" && Blanks(s) > 0
    ensures LexerOf(s[0]) == Some(BLANKS)
    ensures var (y, o) := Step(x, s);
            o.Consumed? && o.len == Blanks(s) && y == Stream(x.st, x.text + s[..Blanks(s)])
  {
    var tok := BlanksRead(s);
    assert Place(x.st, tok, None, |x.text|) == Some(x.st);
  }

  lemma BlanksRead(s: string) returns (tok: Token)
    requires s != "" && Blanks(s) > 0
    ensures LexerOf(s[0]) == Some(BLANKS)
    ensures ReadWith(BLANKS, s) == Success(tok, Blanks(s)) && tok.Valid() && tok.placeAs.Discard?
  {
    tok := Token(Value(BLANKS, 0, Blanks(s)), Discard);
  }

  // A leading run of blanks, which may be empty.
  lemma BlanksFirst(x: Stream, s: string, lim: Limits, y: Stream, rest: string)
    requires x.st.Settled() && y == Stream(x.st, x.text + s[..Blanks(s)]) && rest == s[Blanks(s)..]
    ensures Unlimited(x, s) == Unlimited(y, rest)
    ensures TokensFit(x, s, lim) <==> (Blanks(s) > 0 ==> lim.Allow(y.st, |y.text|)) && TokensFit(y, rest, lim)
  {
    if Blanks(s) == 0 {
      assert rest == s && y.text == x.text;
    } else {
      BlanksStep(x, s);
      StepOn(x, s, lim, y, rest);
    }
  }

  lemma BlankSums(before: string, a: string, b: string, n: nat)
    requires EndsInBlanks(a) && n == Blanks(b)
    ensures Blanks(a + b) == |a| + n <= |a + b|
    ensures before + (a + b)[..|a| + n] == (before + a) + b[..n]
    ensures (a + b)[|a| + n..] == b[n..]
    ensures a[..|a|] == a && a[|a|..] == "" && "" + b == b
  {
    CutAfter(before, a, b, n);
    BlanksStable(a, b);
  }

  // What the run on the whole text has to do with the runs on its two parts.
  ghost predicate Splits(x: Stream, a: string, b: string, lim: Limits)
    requires x.st.Settled()
  {
    var (y, rest, ok) := Unlimited(x, a);
    && Unlimited(x, a + b) == (if ok then Unlimited(y, rest + b) else (y, rest, ok))
    && (TokensFit(x, a + b, lim) <==> TokensFit(x, a, lim) && (ok ==> TokensFit(y, rest + b, lim)))
  }

  lemma SplitAtBlanks(x: Stream, a: string, b: string, lim: Limits)
    requires EndsInBlanks(a) && x.st.Settled()
    ensures Splits(x, a, b, lim)
  {
    var y, z, rest := Stream(x.st, x.text + a), Stream(x.st, (x.text + a) + b[..Blanks(b)]), b[Blanks(b)..];
    BlankSums(x.text, a, b, Blanks(b));
    BlanksFirst(x, a, lim, y, "");
    BlanksFirst(x, a + b, lim, z, rest);
    BlanksFirst(y, b, lim, z, rest);
    assert Unlimited(y, "") == (y, "", true) && "" + b == b;
  }

  // The same first step in both runs.
  lemma SplitAfterStep(x: Stream, a: string, b: string, lim: Limits, y: Stream, rest: string)
    requires a != "" && !EndsInBlanks(a) && x.st.Settled() && Step(x, a).1.Consumed?
    requires y == Step(x, a).0 && rest == a[Step(x, a).1.len..] && Splits(y, rest, b, lim)
    ensures Splits(x, a, b, lim)
  {
    StepStable(x, a, b);
    DropOfSum(a, b, Step(x, a).1.len);
    StepOn(x, a, lim, y, rest);
    StepOn(x, a + b, lim, y, rest + b);
  }

  lemma {:induction false} RunSplits(x: Stream, a: string, b: string, lim: Limits)
    requires x.st.Settled()
    ensures Splits(x, a, b, lim)
    decreases |a|
  {
    if a == "" {
      assert a + b == b && "" + b == b;
    } else if EndsInBlanks(a) {
      SplitAtBlanks(x, a, b, lim);
    } else {
      StepStable(x, a, b);
      var (y, o) := Step(x, a);
      if o.Consumed? {
        RunSplits(y, a[o.len..], b, lim);
        SplitAfterStep(x, a, b, lim, y, a[o.len..]);
      }
    }
  }

  /** Two calls of parse_stream, the second one starting with what the first left over, against
      one call on the whole text. While no limit is hit they leave the same tree, address stack,
      consumed text, unread text and verdict. And under any limits both calls succeed if and only
      if the one call does and the text undecided at the cut is within the pending limit. */
  lemma ChunkIndependence(x: Stream, a: string, b: string, lim: Limits)
    requires x.st.Settled()
    ensures var first, whole := ParseStream(x, a, lim), ParseStream(x, a + b, lim);
            && (NoLimitHit(x, a, lim) && NoLimitHit(x, a + b, lim) ==>
                  whole == if first.2 then ParseStream(first.0, first.1 + b, lim) else first)
            && (first.2 && ParseStream(first.0, first.1 + b, lim).2 <==>
                  whole.2 && |Unlimited(x, a).1| <= lim.pending)
  {
    LimitsExactly(x, a, lim);
    LimitsExactly(x, a + b, lim);
    RunSplits(x, a, b, lim);
    var (y, rest, ok) := Unlimited(x, a);
    if ok { LimitsExactly(y, rest + b, lim); }
  }
}
