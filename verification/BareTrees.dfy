/** Expression trees without their addresses and text positions, which never influence where
    a token goes. */
module BareTrees {
  import opened Wrappers
  import opened ExpressionForest
  import opened Placement
  import opened OperatorTable
  import opened TokenRuns

  function Norm(info: Info): Info {
    if info.Value? then info.(start := 0) else info
  }

  function Strip(f: Forest): Forest {
    if f.Empty? then Empty else Snoc(Strip(f.prev), 0, Norm(f.info), Strip(f.kids))
  }

  function Bare(s: State): State {
    State(Strip(s.root), s.n)
  }

  lemma {:induction false} StripSpine(f: Forest)
    ensures SpineLen(Strip(f)) == SpineLen(f) && Count(Strip(f)) == Count(f)
    ensures forall i :: 0 <= i < SpineLen(f) ==> At(Strip(f), i) == Norm(At(f, i))
    ensures Strip(Strip(f)) == Strip(f)
    ensures AllComplete(Strip(f)) == AllComplete(f)
  {
    if f.Snoc? {
      StripSpine(f.prev);
      StripSpine(f.kids);
      Descend(f);
      Descend(Strip(f));
    }
  }

  lemma {:induction false} StripOffSpine(f: Forest, n: nat)
    ensures OffSpineComplete(Strip(f), n) == OffSpineComplete(f, n)
  {
    if f.Snoc? {
      StripSpine(f.prev);
      StripSpine(f.kids);
      if n > 0 { StripOffSpine(f.kids, n - 1); }
    }
  }

  lemma BareSettled(s: State)
    requires s.Settled()
    ensures Bare(s).Settled()
  {
    StripSpine(s.root);
    StripOffSpine(s.root, s.n);
  }

  lemma {:induction false} StripScan(f: Forest, i: int, act: Option<Info>)
    requires -1 <= i < SpineLen(f)
    ensures SpineLen(Strip(f)) == SpineLen(f)
    ensures Scan(Strip(f), i, act) == Scan(f, i, act)
  {
    StripSpine(f);
    if i >= 0 {
      assert Stops(Strip(f), i, act) == Stops(f, i, act);
      StripScan(f, i - 1, act);
    }
  }

  lemma {:induction false} StripFix(f: Forest, d: nat, act: Info)
    requires d < SpineLen(f) && act.Operator? && At(f, d).Operator? && At(f, d).property != 0
    ensures d < SpineLen(Strip(f)) && At(Strip(f), d) == At(f, d)
    ensures Strip(Fix(f, d, act)) == Fix(Strip(f), d, act)
  {
    StripSpine(f);
    if d > 0 { StripFix(f.kids, d - 1, act); }
  }

  lemma {:induction false} StripWrap(f: Forest, d: nat, act: Info, a: nat, b: nat)
    requires d < SpineLen(f) && act.Operator?
    ensures d < SpineLen(Strip(f))
    ensures Strip(Wrap(f, d, act, a)) == Strip(Wrap(Strip(f), d, act, b))
  {
    StripSpine(f);
    StripSpine(f.prev);
    StripSpine(f.kids);
    if d > 0 { StripWrap(f.kids, d - 1, act, a, b); }
  }

  lemma {:induction false} StripAppend(f: Forest, d: nat, leaf: Info, leaf': Info, a: nat, b: nat)
    requires HasRoom(f, d) && Norm(leaf) == Norm(leaf')
    ensures HasRoom(Strip(f), d)
    ensures Strip(Append(f, d, leaf, a)) == Strip(Append(Strip(f), d, leaf', b))
  {
    StripSpine(f);
    StripSpine(f.prev);
    StripSpine(f.kids);
    if d > 0 { StripAppend(f.kids, d - 1, leaf, leaf', a, b); }
  }

  lemma SameScans(s: State, act: Info)
    requires s.Valid() && s.n > 0 && act.Operator? && s.n <= SpineLen(Strip(s.root))
    ensures Scan(Strip(s.root), s.n - 1, Some(act)) == Scan(s.root, s.n - 1, Some(act))
    ensures Scan(Strip(s.root), Unscanned(s, act), None) == Scan(s.root, Unscanned(s, act), None)
  {
    StripScan(s.root, s.n - 1, Some(act));
    StripScan(s.root, Unscanned(s, act), None);
  }

  lemma BareTarget(s: State, act: Info)
    requires s.Settled() && s.n > 0 && act.Operator?
    ensures Bare(s).Settled() && Target(Bare(s), act) == Target(s, act)
  {
    BareSettled(s);
    StripSpine(s.root);
    SameScans(s, act);
    var u := Scan(s.root, Unscanned(s, act), None);
    if u >= 0 { assert At(Strip(s.root), u) == Norm(At(s.root, u)); }
  }

  // Where the second scan begins.
  function Unscanned(s: State, act: Info): nat
    requires s.Valid() && s.n > 0
  {
    var b := Scan(s.root, s.n - 1, Some(act));
    if b != s.n - 1 then b + 1 else b
  }

  lemma BareOperator(s: State, act: Info)
    requires s.Settled() && s.n > 0 && act.Operator?
    ensures Bare(s).Settled() && Target(Bare(s), act) == Target(s, act)
    ensures var r, r' := PlaceOperator(s, act), PlaceOperator(Bare(s), act);
            r.Some? == r'.Some? && (r.Some? ==> Bare(r.value) == Bare(r'.value))
  {
    BareTarget(s, act);
    var f, c := s.root, Target(s, act);
    StripSpine(f);
    assert At(Strip(f), c) == Norm(At(f, c));
    if CanFix(f, c, act) {
      StripFix(f, c, act);
      StripSpine(Fix(f, c, act));
    } else {
      StripWrap(f, c, act, Size(f), Size(Strip(f)));
    }
  }

  lemma BareAppend(s: State, s': State, c: int, leaf: Info, leaf': Info)
    requires Bare(s) == Bare(s') && Norm(leaf) == Norm(leaf')
    requires c < SpineLen(s.root)
    ensures HasRoom(s.root, c) == HasRoom(s'.root, c)
    ensures HasRoom(s.root, c) ==> Bare(AppendAt(s, c, leaf)) == Bare(AppendAt(s', c, leaf'))
  {
    StripSpine(s.root);
    StripSpine(s'.root);
    if c >= 0 && HasRoom(s.root, c) {
      StripAppend(s.root, c, leaf, leaf, Size(s.root), 0);
      StripAppend(s'.root, c, leaf', leaf, Size(s'.root), 0);
    }
  }

  // The value half of parse_helper.
  lemma BareValue(s: State, leaf: Info, leaf': Info, fallback: Option<Info>)
    requires s.Settled() && s.n > 0 && Norm(leaf) == Norm(leaf')
    requires fallback.Some? ==> fallback.value.Operator? && fallback.value.right > 0
    ensures Bare(s).Settled()
    ensures var r, r' := PlaceValue(s, leaf, fallback), PlaceValue(Bare(s), leaf', fallback);
            r.Some? == r'.Some? && (r.Some? ==> Bare(r.value) == Bare(r'.value))
  {
    BareSettled(s);
    StripSpine(s.root);
    if fallback.None? {
      StripScan(s.root, s.n - 1, None);
      BareAppend(s, Bare(s), Scan(s.root, s.n - 1, None), leaf, leaf');
    } else {
      var act := fallback.value;
      BareOperator(s, act);
      BareAppend(s, Bare(s), Target(s, act), leaf, leaf');
      var r, r' := PlaceOperator(s, act), PlaceOperator(Bare(s), act);
      if r.Some? {
        PlaceOperatorKeeps(s, act);
        BareAppend(r.value, r'.value, Target(s, act), leaf, leaf');
      }
    }
  }

  /** Addresses and text positions never influence where a token goes. */
  lemma PlaceIgnoresLayout(s: State, tok: Token, fallback: Option<Info>, at: nat)
    requires s.Settled() && tok.Valid()
    requires fallback.Some? ==> fallback.value.Operator? && fallback.value.right > 0
    ensures Bare(s).Settled()
    ensures var r, r' := Place(s, tok, fallback, at), Place(Bare(s), tok, fallback, 0);
            r.Some? == r'.Some? && (r.Some? ==> Bare(r.value) == Bare(r'.value))
  {
    BareSettled(s);
    if s.n > 0 && tok.placeAs.AsOperator? {
      BareOperator(s, tok.info);
    } else if s.n > 0 && tok.placeAs.AsValue? {
      BareValue(s, Located(tok.info, at), Located(tok.info, 0), fallback);
    } else if tok.placeAs.AsValue? {
      var leaf, leaf' := Snoc(Empty, 0, Located(tok.info, at), Empty), Snoc(Empty, 0, Located(tok.info, 0), Empty);
      assert Strip(leaf) == Snoc(Empty, 0, Norm(leaf.info), Empty) == Strip(leaf');
    } else {
      StripSpine(s.root);
    }
  }

  // One token on the bare tree.
  ghost function Put(t: Table, s: State, tok: Token): (r: Option<State>)
    requires t.Valid() && s.Settled() && tok.Valid()
    ensures r.Some? ==> r.value.Settled()
  {
    match Place(s, tok, t.Fallback(), 0)
    case None => None
    case Some(m) =>
      PlaceKeeps(s, tok, t.Fallback(), 0);
      BareSettled(m);
      Some(Bare(m))
  }

  ghost function Feed(t: Table, s: State, toks: seq<Token>): (r: Option<State>)
    requires t.Valid() && s.Settled() && forall i :: 0 <= i < |toks| ==> toks[i].Valid()
    ensures r.Some? ==> r.value.Settled()
    decreases |toks|
  {
    if toks == [] then Some(s)
    else
      match Put(t, s, toks[0])
      case None => None
      case Some(m) => Feed(t, m, toks[1..])
  }

  lemma {:induction false} FeedConcat(t: Table, s: State, a: seq<Token>, b: seq<Token>)
    requires t.Valid() && s.Settled()
    requires (forall i :: 0 <= i < |a| ==> a[i].Valid()) && (forall i :: 0 <= i < |b| ==> b[i].Valid())
    ensures Feed(t, s, a + b) == (match Feed(t, s, a) case None => None case Some(m) => Feed(t, m, b))
    decreases |a|
  {
    if a == [] {
      assert a + b == b;
    } else {
      assert (a + b)[1..] == a[1..] + b;
      var m := Put(t, s, a[0]);
      if m.Some? { FeedConcat(t, m.value, a[1..], b); }
    }
  }

  /** A run over real tokens and positions builds the same bare tree. */
  lemma {:induction false} RunIsFeed(t: Table, steps: seq<Fed>, toks: seq<Token>)
    requires t.Valid() && |steps| == |toks|
    requires forall i :: 0 <= i < |steps| ==> steps[i].tok == toks[i] && toks[i].Valid()
    ensures var r, r' := Run(t, START, steps), Feed(t, START, toks);
            r.Some? == r'.Some? && (r.Some? ==> Bare(r.value) == r'.value)
  {
    if steps != [] {
      var k := |steps| - 1;
      RunIsFeed(t, steps[..k], toks[..k]);
      assert toks == toks[..k] + [toks[k]];
      FeedConcat(t, START, toks[..k], [toks[k]]);
      var m := Run(t, START, steps[..k]);
      if m.Some? {
        PlaceIgnoresLayout(m.value, toks[k], t.Fallback(), steps[k].at);
        var b := Feed(t, START, toks[..k]).value;
        assert Feed(t, b, [toks[k]]) == Put(t, b, toks[k]);
      }
    }
  }
}
