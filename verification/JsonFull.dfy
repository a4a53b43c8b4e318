/** parse_full, which leaves no room for an undecided token: what that means for a text that ends
    in a number. */
module JsonFull {
  import opened Wrappers
  import opened Strings
  import opened ExpressionForest
  import opened Placement
  import opened JsonLexers
  import opened JsonStream
  import opened NumberGrammar

  /** The result of parse_full. */
  ghost predicate Full(x: Stream, s: string, lim: Limits)
    requires x.st.Settled() && lim.pending == 0
  {
    ParseStream(x, s, lim).2 && ParseStream(x, s, lim).0.st.Complete()
  }

  /** Against parse_stream with room for all of the text: the same tree and text, and success
      exactly when that succeeds and leaves nothing undecided. */
  lemma FullAgainstStream(x: Stream, s: string, lim: Limits, big: Limits)
    requires x.st.Settled() && lim.pending == 0 && big == lim.(pending := big.pending) && |s| <= big.pending
    ensures ParseStream(x, s, lim).0 == ParseStream(x, s, big).0
    ensures ParseStream(x, s, lim).2 <==> ParseStream(x, s, big).2 && ParseStream(x, s, big).1 == ""
  {
    PendingChangesNothing(x, s, lim, big);
    LimitsExactly(x, s, lim);
    LimitsExactly(x, s, big);
    SameFit(x, s, lim, big);
  }

  lemma {:induction false} SameFit(x: Stream, s: string, lim: Limits, big: Limits)
    requires x.st.Settled() && big == lim.(pending := big.pending)
    ensures TokensFit(x, s, lim) == TokensFit(x, s, big)
    decreases |s|
  {
    if s != "" {
      var (y, o) := Step(x, s);
      if o.Consumed? { SameFit(y, s[o.len..], lim, big); }
    }
  }

  // ---------------------------------------------------------------- the undecided tail

  lemma {:induction false} TailWaits(x: Stream, s: string)
    requires x.st.Settled() && Unlimited(x, s).2 && Unlimited(x, s).1 != ""
    ensures Step(Unlimited(x, s).0, Unlimited(x, s).1).1.Waiting?
    decreases |s|
  {
    var (y, o) := Step(x, s);
    if o.Consumed? { TailWaits(y, s[o.len..]); }
  }

  // What the automaton has read behind the last number: nothing, or something no token begins with.
  predicate Dangling(s: string, i: nat, v: Numbering)
    requires i <= |s| && v.end <= i
  {
    || v.end == 0
    || (v.end == i && (v.state == 2 || v.state >= 4))
    || (v.end < i && s[v.end] in "xXeE")
    || (i == v.end + 1 && s[v.end] in "+-" && v.state == 6)
  }

  lemma {:induction false} RunDangles(s: string, i: nat, v: Numbering)
    requires i <= |s| && v.end <= i && Dangling(s, i, v)
    ensures var (stop, w) := NumberRun(s, i, v); w.end <= stop && Dangling(s, stop, w)
    decreases |s| - i
  {
    if i < |s| && NumberStep(v, s[i], i).Some? { RunDangles(s, i + 1, NumberStep(v, s[i], i).value); }
  }

  // A blank behind a text that the automaton reads to its end makes it stop there.
  lemma {:induction false} BlankStops(s: string, i: nat, v: Numbering)
    requires i <= |s| && v.end <= i && NumberRun(s, i, v).0 == |s|
    ensures NumberRun(s + " ", i, v) == NumberRun(s, i, v)
    decreases |s| - i
  {
    assert (s + " ")[i] == if i < |s| then s[i] else ' ';
    if i < |s| { BlankStops(s, i + 1, NumberStep(v, s[i], i).value); }
  }

  lemma {:induction false} BlankInHex(s: string, i: nat, n: nat)
    requires i <= |s| && HexRun(s, i, n).Some?
    ensures HexRun(s + " ", i, n) == HexRun(s, i, n) || HexRun(s + " ", i, n) == None
    decreases n
  {
    assert (s + " ")[i] == if i < |s| then s[i] else ' ';
    if n > 0 && i < |s| { BlankInHex(s, i + 1, n - 1); }
  }

  // A string that is cut off is not finished by a blank.
  lemma {:induction false} BlankFinishesNoString(s: string, i: nat)
    requires i <= |s| && StringBody(s, i).Undecided?
    ensures !StringBody(s + " ", i).Taken?
    decreases |s| - i
  {
    var t := s + " ";
    assert |t| == |s| + 1 && t[|s|] == ' ' && forall j :: 0 <= j < |s| ==> t[j] == s[j];
    if i == |s| {
      assert StringBody(t, i + 1) == Undecided;
    } else if s[i] != '\\' {
      BlankFinishesNoString(s, i + 1);
    } else if i + 1 < |s| && IsSimpleEscape(s[i + 1]) {
      BlankFinishesNoString(s, i + 2);
    } else if i + 1 < |s| {
      BlankInHex(s, i + 2, 4);
      BlankFinishesNoString(s, HexRun(s, i + 2, 4).value);
    }
  }

  // Only a number can be an undecided tail that a blank makes readable to its end.
  lemma NumberTail(s: string)
    requires s != "" && LexNumber(s).Undecided?
    ensures var (_, v) := NumberRun(s, 0, NUMBER_START);
            && LexNumber(s + " ") == (if v.end == 0 then Mismatch else Taken(v.end))
            && (0 < v.end < |s| ==> s[v.end] in "xXeE" || (s[v.end] in "+-" && |s| == v.end + 1))
  {
    BlankStops(s, 0, NUMBER_START);
    RunDangles(s, 0, NUMBER_START);
  }

  // What is left of a number that is not read to its end is no token.
  lemma RestFails(y: Stream, c: char, more: string)
    requires y.st.Settled() && (c in "xXeE" || (c in "+-" && more == ""))
    ensures Step(y, [c] + more + " ").1.Rejected?
  {
    var t := [c] + more + " ";
    assert t[0] == c;
    if c in "+-" {
      assert t == [c, ' '];
      var v := NumberStep(NUMBER_START, c, 0).value;
      assert NumberStep(v, ' ', 1) == None;
      assert NumberRun(t, 1, v) == (1, v);
      assert NumberRun(t, 0, NUMBER_START) == (1, v);
    }
  }

  // A first step that neither consumes anything nor waits with nothing left ends the run badly.
  lemma Stuck(y: Stream, s: string)
    requires y.st.Settled() && s != "" && !Step(y, s).1.Consumed?
    ensures !(Unlimited(y, s).2 && Unlimited(y, s).1 == "")
  {}

  lemma CutNumberFails(y: Stream, tail: string)
    requires y.st.Settled() && tail != "" && LexNumber(tail).Undecided? && LexerOf(tail[0]) == Some(NUMBER)
    requires NumberRun(tail, 0, NUMBER_START).1.end < |tail|
    ensures !(Unlimited(y, tail + " ").2 && Unlimited(y, tail + " ").1 == "")
  {
    var all := tail + " ";
    assert all[0] == tail[0];
    NumberTail(tail);
    var e := NumberRun(tail, 0, NUMBER_START).1.end;
    if Step(y, all).1.Consumed? {
      CutBefore(tail, e, " ");
      RestFails(Step(y, all).0, tail[e], tail[e + 1..]);
    }
    StuckNext(y, all, e, all[e..]);
  }

  // The first step fails, or takes e characters and the next one fails.
  lemma StuckNext(y: Stream, s: string, e: nat, back: string)
    requires y.st.Settled() && s != "" && e < |s| && back == s[e..] && !Step(y, s).1.Waiting?
    requires Step(y, s).1.Consumed? ==> Step(y, s).1.len == e && Step(Step(y, s).0, back).1.Rejected?
    ensures !(Unlimited(y, s).2 && Unlimited(y, s).1 == "")
  {}

  lemma NumberWithBlank(y: Stream, tail: string)
    requires y.st.Settled() && tail != "" && LexNumber(tail).Undecided? && LexerOf(tail[0]) == Some(NUMBER)
    ensures Unlimited(y, tail + " ").2 && Unlimited(y, tail + " ").1 == "" ==> IsNumberText(tail, |tail|)
  {
    if NumberRun(tail, 0, NUMBER_START).1.end < |tail| {
      CutNumberFails(y, tail);
    } else {
      ReadToItsEnd(tail);
    }
  }

  lemma WordWithBlank(s: string, word: string)
    requires forall i :: 0 <= i < |word| ==> word[i] != ' '
    ensures LexWord(s, word).Undecided? ==> LexWord(s + " ", word).Mismatch?
    ensures LexWord(s, word).Mismatch? ==> LexWord(s + " ", word).Mismatch?
  {
    assert (s + " ")[|s|] == ' ';
  }

  lemma OthersWithBlank(y: Stream, k: nat, tail: string)
    requires y.st.Settled() && tail != "" && (k == STRING || k == BOOL || k == NULL)
    requires LexerOf(tail[0]) == Some(k) && ReadWith(k, tail).Attempt?
    ensures !(Unlimited(y, tail + " ").2 && Unlimited(y, tail + " ").1 == "")
  {
    var all := tail + " ";
    assert all[0] == tail[0];
    if k == STRING { BlankFinishesNoString(tail, 1); }
    WordWithBlank(tail, "true");
    WordWithBlank(tail, "false");
    WordWithBlank(tail, "null");
    assert !ReadWith(k, all).Success?;
    Stuck(y, all);
  }

  /** An undecided tail that a blank turns into tokens to its end is a number. */
  lemma TailWithBlank(y: Stream, tail: string)
    requires y.st.Settled() && tail != "" && Step(y, tail).1.Waiting?
    ensures Unlimited(y, tail + " ").2 && Unlimited(y, tail + " ").1 == "" ==>
              LexerOf(tail[0]) == Some(NUMBER) && IsNumberText(tail, |tail|)
  {
    var k := LexerOf(tail[0]).value;
    if k == NUMBER {
      NumberWithBlank(y, tail);
    } else {
      OthersWithBlank(y, k, tail);
    }
  }

  // ---------------------------------------------------------------- with and without a blank behind

  lemma {:induction false} RunSize(x: Stream, s: string, lim: Limits)
    requires x.st.Settled() && lim.Allow(x.st, 0) && TokensFit(x, s, lim)
    ensures var (y, tail, _) := Unlimited(x, s);
            lim.Allow(y.st, 0) && |y.text| + |tail| <= |x.text| + |s|
    decreases |s|
  {
    if s != "" {
      var (y, o) := Step(x, s);
      if o.Consumed? { RunSize(y, s[o.len..], lim); }
    }
  }

  /** The last token of the text is a number that runs to its end: with a blank behind it, the
      text is a row of tokens of which the last one is that blank and the one before a number. */
  predicate EndsInNumber(s: string) {
    var ls := Lexemes(s + " ");
    ls.Some? && BlankBehindNumber(ls.value)
  }

  predicate BlankBehindNumber(ls: seq<Lexeme>) {
    |ls| >= 2 && ls[|ls| - 1].len == 1 && ls[|ls| - 2].tok.info.rtt == NUMBER
  }

  lemma {:induction false} LexesOn(x: Stream, s: string)
    requires x.st.Settled() && Unlimited(x, s).2 && Unlimited(x, s).1 == ""
    ensures Lexemes(s).Some?
    decreases |s|
  {
    if s != "" {
      var (y, o) := Step(x, s);
      LexesOn(y, s[o.len..]);
    }
  }

  lemma LexemeOfStep(x: Stream, s: string)
    requires x.st.Settled() && s != "" && Step(x, s).1.Consumed?
    ensures var o := Step(x, s).1;
            && (Lexemes(s[o.len..]).Some? ==> Lexemes(s) == Some([Lexeme(o.tok, o.len)] + Lexemes(s[o.len..]).value))
            && (o.tok.info.rtt == NUMBER ==> o.len < |s|)
  {
    var k := StepReads(x, s);
    NumberIsShort(k, s);
    FirstOfLexemes(k, s, Step(x, s).1.tok, Step(x, s).1.len);
  }

  lemma StepReads(x: Stream, s: string) returns (k: nat)
    requires x.st.Settled() && s != "" && Step(x, s).1.Consumed?
    ensures k < LEXERS && LexerOf(s[0]) == Some(k)
    ensures ReadWith(k, s) == Success(Step(x, s).1.tok, Step(x, s).1.len)
  {
    k := LexerOf(s[0]).value;
  }

  lemma FirstOfLexemes(k: nat, s: string, tok: Token, len: nat)
    requires k < LEXERS && s != "" && LexerOf(s[0]) == Some(k) && ReadWith(k, s) == Success(tok, len) && len <= |s|
    ensures Lexemes(s[len..]).Some? ==> Lexemes(s) == Some([Lexeme(tok, len)] + Lexemes(s[len..]).value)
  {}

  // A number in stream mode is never read up to the end of the text.
  lemma NumberIsShort(k: nat, s: string)
    requires k < LEXERS && s != ""
    ensures var r := ReadWith(k, s); r.Success? && r.tok.info.rtt == NUMBER ==> r.len < |s|
  {
    if k == NUMBER { RunDangles(s, 0, NUMBER_START); }
  }

  lemma OneMoreLexeme(l: Lexeme, ls: seq<Lexeme>)
    requires ls != [] && (l.tok.info.rtt == NUMBER && |ls| == 1 ==> ls[0].len != 1)
    ensures BlankBehindNumber([l] + ls) == BlankBehindNumber(ls)
  {}

  lemma OneLexeme(s: string)
    requires Lexemes(s).Some?
    ensures Lexemes(s).value == [] <==> s == ""
    ensures |Lexemes(s).value| == 1 ==> Lexemes(s).value[0].len == |s|
  {}

  lemma OneBlankLexeme()
    ensures Lexemes(" ").Some? && |Lexemes(" ").value| == 1 && Lexemes(" ").value[0].len == 1
    ensures !EndsInNumber("")
  {
    assert "" + " " == " " && " "[0] == ' ' && Blanks(" "[1..]) == 0 && Blanks(" ") == 1;
    assert " "[1..] == "";
  }

  lemma BlanksLexeme(x: Stream, s: string)
    requires x.st.Settled() && EndsInBlanks(s)
    ensures !EndsInNumber(s) && Unlimited(x, s).2 && Unlimited(x, s).1 == ""
  {
    BlanksStep(x, s);
    StepOn(x, s, Limits(0, 0, 0, 0), Stream(x.st, x.text + s), "");
    assert " "[0] == ' ' && Blanks(" "[1..]) == 0 && Blanks(" ") == 1;
    BlankSums("", s, " ", 1);
    RowOfBlanks(s + " ");
  }

  lemma RowOfBlanks(t: string)
    requires t != "" && Blanks(t) == |t|
    ensures Lexemes(t).Some? && |Lexemes(t).value| == 1
  {
    var tok := BlanksRead(t);
    assert t[|t|..] == "" && Lexemes("") == Some([]);
    FirstOfLexemes(BLANKS, t, tok, |t|);
  }

  // The first token, which a blank behind the text does not change.
  lemma StepLexemes(x: Stream, s: string)
    requires x.st.Settled() && s != "" && Step(x, s).1.Consumed? && Step(x, s + " ") == Step(x, s)
    requires (s + " ")[Step(x, s).1.len..] == s[Step(x, s).1.len..] + " "
    requires Lexemes(s[Step(x, s).1.len..] + " ").Some?
    ensures EndsInNumber(s) <==> EndsInNumber(s[Step(x, s).1.len..])
  {
    var o := Step(x, s).1;
    var ls := Lexemes(s[o.len..] + " ").value;
    LexemeOfStep(x, s);
    LexemeOfStep(x, s + " ");
    OneLexeme(s[o.len..] + " ");
    OneMoreLexeme(Lexeme(o.tok, o.len), ls);
  }

  // An undecided tail that a blank makes readable.
  lemma TailLexemes(x: Stream, s: string)
    requires x.st.Settled() && s != "" && Step(x, s).1.Waiting?
    requires Unlimited(x, s + " ").2 && Unlimited(x, s + " ").1 == ""
    ensures EndsInNumber(s)
  {
    TailWithBlank(x, s);
    NumberTail(s);
    MarkIsLongest(s);
    NumberLexemes(s, s + " ");
  }

  lemma NumberLexemes(s: string, t: string)
    requires s != "" && t == s + " " && LexerOf(s[0]) == Some(NUMBER) && LexNumber(t) == Taken(|s|)
    ensures Lexemes(t).Some? && BlankBehindNumber(Lexemes(t).value)
  {
    assert t[0] == s[0] && t[|s|..] == " ";
    OneBlankLexeme();
    var num := Lexeme(ReadWith(NUMBER, t).tok, |s|);
    assert Lexemes(t) == Some([num] + Lexemes(" ").value);
  }

  /** Where a blank behind makes the run succeed to the end: what is undecided without it is a
      number if and only if the text ends in one. */
  lemma {:induction false} TailIsNumber(x: Stream, s: string)
    requires x.st.Settled() && Unlimited(x, s + " ").2 && Unlimited(x, s + " ").1 == ""
    ensures Unlimited(x, s).2 && (EndsInNumber(s) <==> Unlimited(x, s).1 != "")
    decreases |s|
  {
    LexesOn(x, s + " ");
    RunSplits(x, s, " ", Limits(0, 0, 0, 0));
    if s == "" {
      OneBlankLexeme();
    } else if EndsInBlanks(s) {
      BlanksLexeme(x, s);
    } else {
      StepStable(x, s, " ");
      var (y, o) := Step(x, s);
      if o.Consumed? {
        DropOfSum(s, " ", o.len);
        TailIsNumber(y, s[o.len..]);
        LexesOn(y, s[o.len..] + " ");
        StepLexemes(x, s);
      } else {
        TailLexemes(x, s);
      }
    }
  }

  /** parse_full accepts a text that it accepts with one more blank behind it, unless the last
      token is a number that runs to the end of the text. If the limits leave room for the blank,
      that is all: parse_full accepts a text exactly when it accepts it with the blank and the
      text does not end in a number. */
  lemma BlankBehind(x: Stream, s: string, lim: Limits)
    requires x.st.Settled() && lim.pending == 0
    ensures Full(x, s + " ", lim) ==> (Full(x, s, lim) <==> !EndsInNumber(s))
    ensures lim.Allow(x.st, |x.text| + |s| + 1) ==>
              (Full(x, s, lim) <==> Full(x, s + " ", lim) && !EndsInNumber(s))
  {
    LimitsExactly(x, s, lim);
    LimitsExactly(x, s + " ", lim);
    RunSplits(x, s, " ", lim);
    var (y, tail, ok) := Unlimited(x, s);
    if Full(x, s + " ", lim) { TailIsNumber(x, s); }
    if ok && tail == "" {
      assert tail + " " == " ";
      OneBlank(y, lim);
      if Full(x, s, lim) && lim.Allow(x.st, |x.text| + |s| + 1) { RunSize(x, s, lim); }
    }
  }

  lemma OneBlank(y: Stream, lim: Limits)
    requires y.st.Settled()
    ensures Unlimited(y, " ") == (Stream(y.st, y.text + " "), "", true)
    ensures TokensFit(y, " ", lim) <==> lim.Allow(y.st, |y.text| + 1)
  {
    assert " "[0] == ' ' && Blanks(" "[1..]) == 0 && Blanks(" ") == 1;
    assert " "[..1] == " " && " "[1..] == "";
    BlanksStep(y, " ");
    StepOn(y, " ", lim, Stream(y.st, y.text + " "), "");
  }

  lemma NumberOne()
    ensures NumberRun("1", 0, NUMBER_START) == (1, Numbering(4, false, false, 1))
    ensures LexNumber("1").Undecided? && LexNumber("1 ") == Taken(1)
  {
    var v := Numbering(4, false, false, 1);
    assert NumberStep(NUMBER_START, "1"[0], 0) == Some(v);
    assert NumberRun("1", 1, v) == (1, v);
    BlankStops("1", 0, NUMBER_START);
    assert "1" + " " == "1 ";
  }

  // The first step on the text of a one and a blank.
  lemma OneIsRead(x: Stream, y: Stream)
    requires x == Stream(START, "") && y == Stream(State(Snoc(Empty, 0, Value(NUMBER, 0, 1), Empty), 1), "1")
    ensures x.st.Settled() && Step(x, "1").1.Waiting?
    ensures Step(x, "1 ").1.Consumed? && Step(x, "1 ").1.len == 1 && Step(x, "1 ").0 == y
    ensures y.st.Complete() && Size(y.st.root) == 1
  {
    NumberOne();
    assert "1 "[..1] == "1" && "" + "1" == "1";
    assert SpineLen(y.st.root) == 1 && At(y.st.root, 0).Complete();
  }

  /** The shortest text for which the blank makes the difference. */
  lemma OneDigit(lim: Limits)
    requires lim.pending == 0 && lim.depth >= 1 && lim.size >= 1 && lim.buffer >= 2
    ensures !Full(Stream(START, ""), "1", lim) && Full(Stream(START, ""), "1 ", lim)
  {
    var x, y := Stream(START, ""), Stream(State(Snoc(Empty, 0, Value(NUMBER, 0, 1), Empty), 1), "1");
    OneIsRead(x, y);
    LimitsExactly(x, "1", lim);
    LimitsExactly(x, "1 ", lim);
    assert "1 "[1..] == " ";
    StepOn(x, "1 ", lim, y, " ");
    OneBlank(y, lim);
  }
}
