/** readers::parse, parse, parse_stream and parse_full on the mutable expression tree. */
module JsonReader {
  import opened Wrappers
  import opened ExpressionForest
  import opened Placement
  import opened ExpressionArena
  import opened ExpressionTree
  import opened JsonLexers
  import opened JsonStream
  import opened JsonText
  import opened JsonFull

  // What a caller sees of a tree object.
  ghost function Seen(expr: Tree): Stream
    reads expr
  {
    Stream(expr.View(), expr.expressionString)
  }

  /** The limits of readers::parse: on the address stack, the nodes and the text. */
  predicate Within(expr: Tree, lim: Limits)
    reads expr
  {
    |expr.nodeAddress| <= lim.depth && |expr.memory| <= lim.size && |expr.expressionString| <= lim.buffer
  }

  /** readers::parse from the k-th lexer on; s is the text between the two iterators. */
  method ReadersParse(expr: Tree, k: nat, s: string, lim: Limits, waiting: bool) returns (o: Outcome)
    requires expr.Valid() && k <= LEXERS && s != ""
    modifies expr
    ensures expr.Valid()
    ensures (Seen(expr), o) == ParseFrom(k, old(Seen(expr)), s, lim, waiting)
    ensures o.Consumed? ==> Within(expr, lim)
    decreases LEXERS - k
  {
    if k == LEXERS {
      return if waiting then Waiting else Rejected;
    }
    var r := InternalRead(k, s);
    var pending := waiting;
    if r.Success? {
      ReadProduces(k, s);
      PlaceKeeps(expr.View(), r.tok, None, |expr.expressionString|);
      var placed := expr.ParseHelper(r.tok, None);
      if placed && |expr.nodeAddress| <= lim.depth && |expr.memory| <= lim.size
         && |expr.expressionString| + r.len <= lim.buffer
      {
        expr.expressionString := expr.expressionString + s[..r.len];
        return Consumed(r.tok, r.len);
      }
    } else if r.Attempt? && |s| <= lim.pending {
      pending := true;
    }
    o := ReadersParse(expr, k + 1, s, lim, pending);
  }

  /** parse: one token, or nothing at the end of the text. */
  method Parse(expr: Tree, s: string, lim: Limits) returns (ok: bool, len: nat)
    requires expr.Valid()
    modifies expr
    ensures expr.Valid() && len <= |s|
    ensures ok && (len > 0 || old(Within(expr, lim))) ==> Within(expr, lim)
    ensures s == "" ==> ok && len == 0 && Seen(expr) == old(Seen(expr))
    ensures s != "" ==> var (y, o) := ParseFrom(0, old(Seen(expr)), s, lim, false);
                        && Seen(expr) == y && ok == !o.Rejected?
                        && len == if o.Consumed? then o.len else 0
    ensures ParseStream(old(Seen(expr)), s, lim) ==
            if !ok then (Seen(expr), "", false)
            else if len == 0 then (Seen(expr), s, true)
            else ParseStream(Seen(expr), s[len..], lim)
  {
    if s == "" {
      return true, 0;
    }
    ParseIsStep(0, Seen(expr), s, lim);
    var o := ReadersParse(expr, 0, s, lim, false);
    return !o.Rejected?, if o.Consumed? then o.len else 0;
  }

  lemma EatenIs(input: string, begin: nat, begin': nat, eaten: string, left: string)
    requires begin <= begin' <= |input| && input[begin..] == eaten + left && left == input[begin'..]
    ensures eaten == input[begin..begin']
  {
    assert |eaten| == begin' - begin;
    assert eaten == input[begin..][..|eaten|];
  }

  /** parse_stream: reads until nothing more can be consumed. begin' is where the caller has to
      start next time; after an error it is the end of the text. */
  method ParseStreamInPlace(expr: Tree, input: string, begin: nat, lim: Limits) returns (ok: bool, begin': nat)
    requires expr.Valid() && begin <= |input|
    modifies expr
    ensures expr.Valid() && begin <= begin' <= |input|
    ensures (Seen(expr), input[begin'..], ok) == ParseStream(old(Seen(expr)), input[begin..], lim)
    ensures ok && begin' > begin ==> Within(expr, lim)
    ensures if ok then expr.expressionString == old(expr.expressionString) + input[begin..begin'] else begin' == |input|
  {
    begin' := begin;
    var s := input[begin..];
    ghost var eaten, left := TextIsConsumed(Seen(expr), s, lim);
    ghost var goal := ParseStream(Seen(expr), s, lim);
    while true
      invariant expr.Valid() && begin <= begin' <= |input| && s == input[begin'..]
      invariant ParseStream(Seen(expr), s, lim) == goal
      invariant begin' > begin ==> Within(expr, lim)
      decreases |input| - begin'
    {
      var len;
      ok, len := Parse(expr, s, lim);
      if !ok {
        begin' := |input|;
        assert input[begin'..] == "";
        return;
      }
      if len == 0 {
        EatenIs(input, begin, begin', eaten, left);
        return;
      }
      begin' := begin' + len;
      s := s[len..];
    }
  }

  // What a caller sees of a tree object determines all its fields.
  lemma SeenIsAll(e: Tree, e': Tree)
    requires e.Valid() && e'.Valid() && Seen(e) == Seen(e')
    ensures e.memory == e'.memory && e.nodeAddress == e'.nodeAddress && e.expressionString == e'.expressionString
  {
    ArenaIsUnique(e.memory, e'.memory, e.tree);
  }

  /** Two calls of parse_stream on one tree object against one call on an equal one: while no
      limit is hit, arena, address stack, text, unread text and verdict are equal in the end; and
      under any limits both calls succeed if and only if the one call does and the text undecided
      at the cut is within the pending limit. */
  method InTwoPieces(e: Tree, e': Tree, a: string, b: string, lim: Limits)
    returns (ok: bool, ok': bool, rest: string, rest': string)
    requires e.Valid() && e'.Valid() && e != e' && Seen(e) == Seen(e')
    modifies e, e'
    ensures e.Valid() && e'.Valid()
    ensures NoLimitHit(old(Seen(e)), a, lim) && NoLimitHit(old(Seen(e)), a + b, lim) ==>
              && ok == ok' && rest == rest'
              && e.memory == e'.memory && e.nodeAddress == e'.nodeAddress && e.expressionString == e'.expressionString
    ensures ok <==> ok' && |Unlimited(old(Seen(e)), a).1| <= lim.pending
  {
    ghost var x := Seen(e);
    assert a[0..] == a && (a + b)[0..] == a + b;
    var begin;
    ok', begin := ParseStreamInPlace(e', a + b, 0, lim);
    rest' := (a + b)[begin..];
    ok, begin := ParseStreamInPlace(e, a, 0, lim);
    rest := a[begin..];
    if ok {
      var more := rest + b;
      assert more[0..] == more;
      ok, begin := ParseStreamInPlace(e, more, 0, lim);
      rest := more[begin..];
    }
    ChunkIndependence(x, a, b, lim);
    if Seen(e) == Seen(e') { SeenIsAll(e, e'); }
  }

  /** parse_full: true exactly when the whole text was read without an error and the tree is
      complete. In any case the address stack is cut back to the root, so that depth() speaks
      about the whole tree. */
  method ParseFull(expr: Tree, input: string, lim: Limits) returns (ok: bool)
    requires expr.Valid() && lim.pending == 0
    modifies expr
    ensures var (y, rest, fine) := ParseStream(old(Seen(expr)), input, lim);
            && ok == Full(old(Seen(expr)), input, lim) == (fine && y.st.Complete())
            && expr.tree == y.st.root && expr.expressionString == y.text
            && Represents(expr.memory, expr.tree) && Covers(expr.tree, |expr.memory|)
            && expr.nodeAddress == (if y.st.n == 0 then [] else [AddrAt(expr.tree, 0)])
            && (ok ==> rest == "" && expr.Valid() && AllComplete(expr.tree))
  {
    assert input[0..] == input;
    var begin';
    ok, begin' := ParseStreamInPlace(expr, input, 0, lim);
    NothingPending(old(Seen(expr)), input, lim);
    CompleteIsExact(expr.View());
    var complete := expr.IsComplete();
    ok := ok && complete;
    if |expr.nodeAddress| > 1 {
      if ok { DropComplete(expr.tree, |expr.nodeAddress|, 1); }
      expr.nodeAddress := expr.nodeAddress[..1];
    }
  }

  /** Without room for an undecided token, parse_stream either reads everything or fails. */
  lemma {:induction false} NothingPending(x: Stream, s: string, lim: Limits)
    requires x.st.Settled() && lim.pending == 0
    ensures ParseStream(x, s, lim).1 == ""
    decreases |s|
  {
    if s != "" {
      NeverWaits(0, x, s, lim);
      var (y, o) := ParseFrom(0, x, s, lim, false);
      if o.Consumed? { NothingPending(y, s[o.len..], lim); }
    }
  }

  lemma {:induction false} NeverWaits(k: nat, x: Stream, s: string, lim: Limits)
    requires k <= LEXERS && s != "" && x.st.Settled() && lim.pending == 0
    ensures !ParseFrom(k, x, s, lim, false).1.Waiting?
    decreases LEXERS - k
  {
    if k < LEXERS {
      NeverWaits(k + 1, x, s, lim);
      var r := ReadWith(k, s);
      if r.Success? {
        ReadProduces(k, s);
        PlaceKeeps(x.st, r.tok, None, |x.text|);
        var p := Place(x.st, r.tok, None, |x.text|);
        if p.Some? { NeverWaits(k + 1, Stream(p.value, x.text), s, lim); }
      }
    }
  }
}
