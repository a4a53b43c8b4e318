/** Feeding the tokens of an expression to the incremental parser yields the reference tree. */
module ParserCorrect {
  import opened Wrappers
  import opened ExpressionForest
  import opened Placement
  import opened OperatorTable
  import opened TokenRuns
  import opened Reference
  import opened BareTrees
  import opened Precedence

  // An operator that has just been read and waits for its operand.
  ghost predicate Waits(t: Table, info: Info) {
    var r := info.rtt;
    r < |t.kinds| &&
    match t.kinds[r]
    case Infix(_, _) => info == t.InfixInfo(r)
    case Prefix(_) => info == t.PrefixInfo(r)
    case Scope(_) => info == t.OpenInfo(r)
    case _ => false
  }

  // A bare state whose top waits for an operand, or the start.
  ghost predicate Ready(t: Table, s: State) {
    s.Settled() && Strip(s.root) == s.root && (s.n > 0 ==> Waits(t, At(s.root, s.n - 1)))
  }

  // A whole chain may follow: nothing outside it is finished yet.
  ghost predicate ReadyForChain(t: Table, s: State) {
    Ready(t, s) && (s.n > 0 ==> t.kinds[At(s.root, s.n - 1).rtt].Scope?)
  }

  ghost function Filled(t: Table, s: State, tree: Forest): State
    requires s.Valid() && Open(s.root, s.n) && ChainPath(t, tree) && tree.prev.Empty?
  {
    State(Graft(s.root, s.n, tree), s.n + OpenLen(t, tree))
  }

  lemma ReadyIsOpen(t: Table, s: State)
    requires Ready(t, s)
    ensures Open(s.root, s.n)
  {}

  lemma PutLeaf(t: Table, s: State, leaf: Info)
    requires t.Valid() && Ready(t, s) && t.Produces(Token(leaf, AsValue)) && Norm(leaf) == leaf
    ensures Open(s.root, s.n)
    ensures Put(t, s, Token(leaf, AsValue)) == Some(State(Graft(s.root, s.n, Snoc(Empty, 0, leaf, Empty)), s.n + 1))
  {
    ReadyIsOpen(t, s);
    var one := Snoc(Empty, 0, leaf, Empty);
    assert Strip(one) == one;
    StripGraft(s.root, s.n, one);
    if s.n > 0 {
      var f, c := s.root, s.n - 1;
      assert HasRoom(f, c);
      if t.default.Some? {
        var act := t.Fallback().value;
        assert Target(s, act) == c;
        if CanFix(f, c, act) { FixAgain(f, c, act); }
      }
      StripAppend(f, c, leaf, leaf, Size(f), 0);
      AppendIsGraft(f, c, leaf);
    }
  }

  // A chained operator read while the same one waits for an operand changes nothing.
  lemma {:induction false} FixAgain(f: Forest, d: nat, act: Info)
    requires d < SpineLen(f) && act.Operator? && act.property == 1
    requires At(f, d).Operator? && At(f, d).property == 1 && At(f, d).right == act.right
    ensures Fix(f, d, act) == f
  {
    if d > 0 { FixAgain(f.kids, d - 1, act); }
  }

  // ---------------------------------------------------------------- closing a scope

  lemma PutClose(t: Table, s: State, b: nat, r: nat)
    requires t.Valid() && s.Settled() && Strip(s.root) == s.root && b < s.n
    requires r < |t.kinds| && t.kinds[r].Scope?
    requires At(s.root, b).Operator? && At(s.root, b).rtt == r && At(s.root, b).property == 4
    requires forall i :: b < i < s.n ==> At(s.root, i).Complete()
    ensures CanFix(s.root, b, t.CloseInfo(r))
    ensures Put(t, s, Token(t.CloseInfo(r), AsOperator)) == Some(State(Fix(s.root, b, t.CloseInfo(r)), b + 1))
  {
    CloseTarget(s, b, t.CloseInfo(r));
    StripFix(s.root, b, t.CloseInfo(r));
    PutIs(t, s, t.CloseInfo(r), State(Fix(s.root, b, t.CloseInfo(r)), b + 1));
  }

  // The deepest incomplete node is the target of an operator of its own kind.
  lemma CloseTarget(s: State, b: nat, act: Info)
    requires s.Valid() && b < s.n && act.Operator? && At(s.root, b).rtt == act.rtt && !At(s.root, b).Complete()
    requires forall i :: b < i < s.n ==> At(s.root, i).Complete()
    ensures Target(s, act) == b
  {
    var k := Scan(s.root, s.n - 1, Some(act));
    assert Stops(s.root, b, Some(act)) && Stops(s.root, b, None);
    assert k >= b;
    assert Scan(s.root, if k != s.n - 1 then k + 1 else k, None) == b;
  }

  // ---------------------------------------------------------------- an infix operator after a chain

  ghost function Opened(t: Table, tree: Forest, op: nat): (g: Forest)
    requires ChainPath(t, tree) && op < |t.kinds| && t.kinds[op].Infix?
    ensures g.Snoc? && g.prev == tree.prev
  {
    var k := Sink(t, tree, t.kinds[op].priority);
    if CanFix(tree, k, t.InfixInfo(op)) then Fix(tree, k, t.InfixInfo(op)) else Wrap(tree, k, t.InfixInfo(op), 0)
  }

  lemma {:induction false} OpenedThenFilled(t: Table, tree: Forest, op: nat, x: Forest)
    requires ChainPath(t, tree) && op < |t.kinds| && t.kinds[op].Infix? && x.Snoc? && x.prev.Empty?
    ensures var g, k := Opened(t, tree, op), Sink(t, tree, t.kinds[op].priority);
            && Open(g, k + 1) && At(g, k) == t.InfixInfo(op) && g.prev == tree.prev
            && Graft(g, k + 1, x) == Insert(t, tree, op, x)
    decreases tree
  {
    Descend(tree);
    var g, k := Opened(t, tree, op), Sink(t, tree, t.kinds[op].priority);
    if k > 0 {
      OpenedThenFilled(t, tree.kids, op, x);
      assert g.kids == Opened(t, tree.kids, op);
      Descend(g);
    }
  }

  // Where the two scans stop on a chain below depth b.
  lemma ChainStops(t: Table, f: Forest, b: nat, n: nat, tree: Forest, op: nat, i: nat)
    requires t.Valid() && op < |t.kinds| && t.kinds[op].Infix? && ChainPath(t, tree)
    requires n == b + OpenLen(t, tree) <= SpineLen(f) && b <= i < n && At(f, i) == At(tree, i - b)
    ensures !Stops(f, i, None)
    ensures Stops(f, i, Some(t.InfixInfo(op))) <==> i - b < Sink(t, tree, t.kinds[op].priority)
  {
    PathPriorities(t, tree, op, i - b);
  }

  lemma InfixTarget(t: Table, s: State, b: nat, tree: Forest, op: nat)
    requires t.Valid() && s.Valid() && s.n > 0 && op < |t.kinds| && t.kinds[op].Infix? && ChainPath(t, tree)
    ensures HangsBelow(t, s, b, tree, op) ==> TargetInChain(s, t.InfixInfo(op), b + Sink(t, tree, t.kinds[op].priority))
  {
    if HangsBelow(t, s, b, tree, op) {
      var f, act, k := s.root, t.InfixInfo(op), Sink(t, tree, t.kinds[op].priority);
      forall i | b <= i < s.n
        ensures (Stops(f, i, Some(act)) <==> i - b < k) && !Stops(f, i, None)
      {
        ChainStops(t, f, b, s.n, tree, op, i);
      }
      PathPriorities(t, tree, op, k);
      if b > 0 {
        assert Stops(f, b - 1, Some(act)) && Stops(f, b - 1, None);
      }
      ScansStop(s, act, b, k);
    }
  }

  // The stack from depth b on is the open part of a chain.
  ghost predicate HangsBelow(t: Table, s: State, b: nat, tree: Forest, op: nat)
    requires s.Valid() && ChainPath(t, tree)
  {
    && s.n == b + OpenLen(t, tree)
    && (forall i :: b <= i < s.n ==> At(s.root, i) == At(tree, i - b))
    && (b > 0 ==> !At(s.root, b - 1).Complete() && At(s.root, b - 1).rtt != op)
  }

  ghost predicate TargetInChain(s: State, act: Info, c: nat)
    requires s.Valid() && s.n > 0 && act.Operator?
  {
    c < s.n && Target(s, act) == c && At(s.root, c).Complete()
  }

  // The two scans, from what is known of each node.
  lemma ScansStop(s: State, act: Info, b: nat, k: nat)
    requires s.Valid() && act.Operator? && b + k < s.n
    requires forall i :: b <= i < s.n ==> (Stops(s.root, i, Some(act)) <==> i - b < k) && !Stops(s.root, i, None)
    requires b > 0 ==> Stops(s.root, b - 1, Some(act)) && Stops(s.root, b - 1, None) && At(s.root, b - 1).rtt != act.rtt
    ensures Target(s, act) == b + k
  {
    if k > 0 { assert Stops(s.root, b + k - 1, Some(act)); }
    assert Scan(s.root, s.n - 1, Some(act)) == b + k - 1;
    assert Scan(s.root, b + k, None) == b - 1;
  }

  lemma PutAct(t: Table, s: State, act: Info, c: nat)
    requires t.Valid() && s.Settled() && s.n > 0 && Strip(s.root) == s.root && act.Operator? && c == Target(s, act)
    requires At(s.root, c).Complete()
    ensures Put(t, s, Token(act, AsOperator)) == Some(Edited(s, c, act))
  {
    if CanFix(s.root, c, act) {
      StripFix(s.root, c, act);
    } else {
      StripWrap(s.root, c, act, Size(s.root), 0);
      StripOfWrap(s.root, c, act);
    }
    PutIs(t, s, act, PlaceOperator(s, act).value);
  }

  lemma PutIs(t: Table, s: State, act: Info, placed: State)
    requires t.Valid() && s.Settled() && s.n > 0 && act.Operator? && PlaceOperator(s, act) == Some(placed)
    ensures Put(t, s, Token(act, AsOperator)) == Some(Bare(placed))
  {}

  // The edit that an operator makes of its target.
  function Edited(s: State, c: nat, act: Info): State
    requires c < SpineLen(s.root) && act.Operator?
  {
    State(if CanFix(s.root, c, act) then Fix(s.root, c, act) else Wrap(s.root, c, act, 0), c + 1)
  }

  lemma GraftOpened(t: Table, f: Forest, b: nat, tree: Forest, op: nat)
    requires Open(f, b) && ChainPath(t, tree) && tree.prev.Empty? && op < |t.kinds| && t.kinds[op].Infix?
    ensures var k, act, g := Sink(t, tree, t.kinds[op].priority), t.InfixInfo(op), Graft(f, b, tree);
            && SpineLen(g) == b + SpineLen(tree) && At(g, b + k) == At(tree, k)
            && Edited(State(g, b), b + k, act) == State(Graft(f, b, Opened(t, tree, op)), b + k + 1)
  {
    var k, act := Sink(t, tree, t.kinds[op].priority), t.InfixInfo(op);
    GraftSpine(f, b, tree);
    if CanFix(tree, k, act) { GraftFix(f, b, tree, k, act); } else { GraftWrap(f, b, tree, k, act, 0); }
  }

  // s is a tree that waits for a chain, with a chain in the place; an infix operator comes next.
  ghost predicate Behind(t: Table, s0: State, s: State, tree: Forest, op: nat) {
    && t.Valid() && ReadyForChain(t, s0) && Open(s0.root, s0.n)
    && ChainPath(t, tree) && tree.prev.Empty? && op < |t.kinds| && t.kinds[op].Infix?
    && s == Filled(t, s0, tree) && s.Settled() && Strip(s.root) == s.root
  }

  ghost function AfterInfix(t: Table, s0: State, tree: Forest, op: nat): State
    requires Open(s0.root, s0.n) && ChainPath(t, tree) && tree.prev.Empty? && op < |t.kinds| && t.kinds[op].Infix?
  {
    State(Graft(s0.root, s0.n, Opened(t, tree, op)), s0.n + Sink(t, tree, t.kinds[op].priority) + 1)
  }

  lemma FilledHangs(t: Table, s0: State, s: State, tree: Forest, op: nat)
    ensures Behind(t, s0, s, tree, op) ==> s.n > 0 && HangsBelow(t, s, s0.n, tree, op)
  {
    if Behind(t, s0, s, tree, op) { GraftSpine(s0.root, s0.n, tree); }
  }

  lemma EditedIs(t: Table, s0: State, s: State, tree: Forest, op: nat, c: nat)
    ensures Behind(t, s0, s, tree, op) && c == s0.n + Sink(t, tree, t.kinds[op].priority) ==>
              c < SpineLen(s.root) && Edited(s, c, t.InfixInfo(op)) == AfterInfix(t, s0, tree, op)
  {
    if Behind(t, s0, s, tree, op) { GraftOpened(t, s0.root, s0.n, tree, op); }
  }

  lemma PutBelow(t: Table, s0: State, s: State, tree: Forest, op: nat, c: nat, m: State)
    ensures Behind(t, s0, s, tree, op) && s.n > 0 && HangsBelow(t, s, s0.n, tree, op)
            && c == s0.n + Sink(t, tree, t.kinds[op].priority)
            && c < SpineLen(s.root) && m == Edited(s, c, t.InfixInfo(op)) ==>
              Put(t, s, Token(t.InfixInfo(op), AsOperator)) == Some(m)
  {
    if Behind(t, s0, s, tree, op) && s.n > 0 && HangsBelow(t, s, s0.n, tree, op) {
      InfixTarget(t, s, s0.n, tree, op);
      PutAct(t, s, t.InfixInfo(op), s0.n + Sink(t, tree, t.kinds[op].priority));
    }
  }

  lemma PutInfix(t: Table, s0: State, s: State, tree: Forest, op: nat)
    requires Behind(t, s0, s, tree, op)
    ensures Put(t, s, Token(t.InfixInfo(op), AsOperator)) == Some(AfterInfix(t, s0, tree, op))
  {
    var c := s0.n + Sink(t, tree, t.kinds[op].priority);
    FilledHangs(t, s0, s, tree, op);
    EditedIs(t, s0, s, tree, op, c);
    PutBelow(t, s0, s, tree, op, c, AfterInfix(t, s0, tree, op));
  }

  lemma {:induction false} StripOfWrap(f: Forest, d: nat, act: Info)
    requires d < SpineLen(f) && act.Operator? && Strip(f) == f
    ensures Strip(Wrap(f, d, act, 0)) == Wrap(f, d, act, 0)
  {
    if d > 0 { StripOfWrap(f.kids, d - 1, act); } else { assert Strip(f.(prev := Empty)) == f.(prev := Empty); }
  }

  // ---------------------------------------------------------------- whole expressions

  lemma {:induction false} PathComplete(t: Table, f: Forest, i: nat)
    requires ChainPath(t, f) && i < OpenLen(t, f)
    ensures At(f, i).Complete()
  {
    Descend(f);
    if i > 0 { PathComplete(t, f.kids, i - 1); }
  }

  lemma {:induction false} InsertOpenLen(t: Table, f: Forest, op: nat, x: Forest)
    requires t.Valid() && ChainPath(t, f) && op < |t.kinds| && t.kinds[op].Infix? && IsOperand(t, x)
    ensures ChainPath(t, Insert(t, f, op, x))
    ensures OpenLen(t, Insert(t, f, op, x)) == Sink(t, f, t.kinds[op].priority) + 1 + OpenLen(t, x)
    decreases f
  {
    InsertPath(t, f, op, x);
    PeersDoNotMatter(t, x, f.kids);
    PeersDoNotMatter(t, x, f.(prev := Empty));
    if t.IsInfix(f.info) && f.info.priority < t.kinds[op].priority { InsertOpenLen(t, f.kids, op, x); }
  }

  // The tokens take one bare state to another.
  ghost predicate Reads(t: Table, s: State, toks: seq<Token>, m: State) {
    && t.Valid() && s.Settled() && Strip(s.root) == s.root
    && (forall i :: 0 <= i < |toks| ==> toks[i].Valid())
    && Feed(t, s, toks) == Some(m)
  }

  lemma ReadsOne(t: Table, s: State, tok: Token, m: State)
    requires t.Valid() && s.Settled() && Strip(s.root) == s.root && tok.Valid() && Put(t, s, tok) == Some(m)
    ensures Reads(t, s, [tok], m)
  {}

  lemma {:induction false} ReadsBare(t: Table, s: State, toks: seq<Token>, m: State)
    requires Reads(t, s, toks, m)
    ensures m.Settled() && Strip(m.root) == m.root
    decreases |toks|
  {
    if toks != [] {
      var p := Put(t, s, toks[0]).value;
      StripSpine(Place(s, toks[0], t.Fallback(), 0).value.root);
      ReadsBare(t, p, toks[1..], m);
    }
  }

  lemma ReadsThen(t: Table, s: State, a: seq<Token>, m: State, b: seq<Token>, r: State)
    requires Reads(t, s, a, m) && Reads(t, m, b, r)
    ensures Reads(t, s, a + b, r)
  {
    FeedConcat(t, s, a, b);
  }

  // Reading a prefix operator or an opening scope token leaves it waiting at the top.
  lemma PutWaiting(t: Table, s: State, leaf: Info) returns (s1: State)
    requires t.Valid() && Ready(t, s) && t.Produces(Token(leaf, AsValue)) && leaf.Operator? && Waits(t, leaf)
    ensures Open(s.root, s.n)
    ensures s1 == State(Graft(s.root, s.n, Snoc(Empty, 0, leaf, Empty)), s.n + 1)
    ensures Reads(t, s, [Token(leaf, AsValue)], s1) && Ready(t, s1) && At(s1.root, s.n) == leaf
  {
    PutLeaf(t, s, leaf);
    s1 := Put(t, s, Token(leaf, AsValue)).value;
    ReadsOne(t, s, Token(leaf, AsValue), s1);
    ReadsBare(t, s, [Token(leaf, AsValue)], s1);
    GraftSpine(s.root, s.n, Snoc(Empty, 0, leaf, Empty));
  }

  // An operand in the slot of a prefix operator is the prefixed operand in the outer slot.
  lemma PrefixFilled(t: Table, s: State, s1: State, r: nat, tree: Forest)
    requires t.Valid() && s.Valid() && s1.Valid() && Open(s.root, s.n) && r < |t.kinds| && t.kinds[r].Prefix?
    requires s1 == State(Graft(s.root, s.n, Snoc(Empty, 0, t.PrefixInfo(r), Empty)), s.n + 1)
    requires Open(s1.root, s1.n) && IsOperand(t, tree)
    ensures var g := Snoc(Empty, 0, Operator(r, t.kinds[r].priority, 0, 1), tree);
            IsOperand(t, g) && Filled(t, s1, tree) == Filled(t, s, g)
  {
    var leaf := Snoc(Empty, 0, t.PrefixInfo(r), Empty);
    GraftGraft(s.root, s.n, leaf, 1, tree);
    assert Graft(leaf, 1, tree) == Snoc(Empty, 0, Operator(r, t.kinds[r].priority, 0, 1), tree);
  }

  lemma {:induction false} FeedOperand(t: Table, s: State, o: Operand)
    requires t.Valid() && Ready(t, s) && WellFormedOperand(t, o)
    ensures Open(s.root, s.n) && IsOperand(t, OperandTree(t, o))
    ensures Reads(t, s, OperandTokens(t, o), Filled(t, s, OperandTree(t, o)))
    decreases o, 0
  {
    ReadyIsOpen(t, s);
    if o.Atom? {
      PutLeaf(t, s, Value(o.rtt, 0, o.size));
      ReadsOne(t, s, Token(Value(o.rtt, 0, o.size), AsValue), Filled(t, s, OperandTree(t, o)));
    } else if o.Pre? {
      var s1 := PutWaiting(t, s, t.PrefixInfo(o.rtt));
      FeedOperand(t, s1, o.operand);
      var tree := OperandTree(t, o.operand);
      ReadsThen(t, s, [Token(t.PrefixInfo(o.rtt), AsValue)], s1, OperandTokens(t, o.operand), Filled(t, s1, tree));
      PrefixFilled(t, s, s1, o.rtt, tree);
    } else {
      FeedGroup(t, s, o.rtt, o.body);
    }
  }

  lemma {:induction false} FeedGroup(t: Table, s: State, r: nat, body: Body)
    requires t.Valid() && Ready(t, s) && Open(s.root, s.n) && WellFormedOperand(t, Group(r, body))
    ensures IsOperand(t, OperandTree(t, Group(r, body)))
    ensures Reads(t, s, OperandTokens(t, Group(r, body)), Filled(t, s, OperandTree(t, Group(r, body))))
    decreases body, 1
  {
    var open, close := Token(t.OpenInfo(r), AsValue), Token(t.CloseInfo(r), AsOperator);
    var s1 := PutWaiting(t, s, t.OpenInfo(r));
    var leaf := Snoc(Empty, 0, t.OpenInfo(r), Empty);
    if body.NoBody? {
      var m := Filled(t, s, OperandTree(t, Group(r, body)));
      PutClose(t, s1, s.n, r);
      GraftFix(s.root, s.n, leaf, 0, t.CloseInfo(r));
      ReadsOne(t, s1, close, m);
      ReadsThen(t, s, [open], s1, [close], m);
      assert [open] + [] + [close] == [open] + [close];
    } else {
      FeedChain(t, s1, body.chain);
      FeedInside(t, s, s1, r, body.chain);
    }
  }

  // The chain inside a scope has been read into the scope's slot.
  lemma FeedInside(t: Table, s: State, s1: State, r: nat, c: Chain)
    requires t.Valid() && s.Settled() && Open(s.root, s.n) && Open(s1.root, s1.n)
             && WellFormedOperand(t, Group(r, Inside(c)))
    requires s1 == State(Graft(s.root, s.n, Snoc(Empty, 0, t.OpenInfo(r), Empty)), s.n + 1)
    requires Reads(t, s, [Token(t.OpenInfo(r), AsValue)], s1)
    requires ChainPath(t, ChainTree(t, c)) && Reads(t, s1, ChainTokens(t, c), Filled(t, s1, ChainTree(t, c)))
    ensures IsOperand(t, OperandTree(t, Group(r, Inside(c))))
    ensures Reads(t, s, OperandTokens(t, Group(r, Inside(c))), Filled(t, s, OperandTree(t, Group(r, Inside(c)))))
  {
    var open, close := Token(t.OpenInfo(r), AsValue), Token(t.CloseInfo(r), AsOperator);
    var tree, toks := ChainTree(t, c), ChainTokens(t, c);
    var s2 := Filled(t, s1, tree);
    var m := State(Graft(s.root, s.n, Snoc(Empty, 0, Operator(r, t.kinds[r].priority, 0, 2), tree)), s.n + 1);
    ReadsThen(t, s, [open], s1, toks, s2);
    ReadsBare(t, s1, toks, s2);
    GraftGraft(s.root, s.n, Snoc(Empty, 0, t.OpenInfo(r), Empty), 1, tree);
    CloseAfter(t, s, s2, r, tree);
    ReadsOne(t, s2, close, m);
    ReadsThen(t, s, [open] + toks, s2, [close], m);
    assert m == Filled(t, s, OperandTree(t, Group(r, Inside(c))));
  }

  lemma CloseAfter(t: Table, s: State, s2: State, r: nat, tree: Forest)
    requires t.Valid() && s.Valid() && Open(s.root, s.n) && r < |t.kinds| && t.kinds[r].Scope?
    requires ChainPath(t, tree) && tree.prev.Empty?
    requires s2.Settled() && Strip(s2.root) == s2.root
    requires var g := Graft(Snoc(Empty, 0, t.OpenInfo(r), Empty), 1, tree);
             g.prev.Empty? && s2 == State(Graft(s.root, s.n, g), s.n + 1 + OpenLen(t, tree))
    ensures Put(t, s2, Token(t.CloseInfo(r), AsOperator))
            == Some(State(Graft(s.root, s.n, Snoc(Empty, 0, Operator(r, t.kinds[r].priority, 0, 2), tree)), s.n + 1))
  {
    var g := Snoc(Empty, 0, t.OpenInfo(r).(right := 0), tree);
    ClosingNodes(t, s.root, s.n, s2.n, t.OpenInfo(r).(right := 0), tree);
    PutClose(t, s2, s.n, r);
    GraftFix(s.root, s.n, g, 0, t.CloseInfo(r));
  }

  // Behind a whole chain inside a scope, all but the scope is complete.
  lemma ClosingNodes(t: Table, f: Forest, b: nat, n: nat, scope: Info, tree: Forest)
    requires Open(f, b) && ChainPath(t, tree) && n == b + 1 + OpenLen(t, tree)
    ensures var h := Graft(f, b, Snoc(Empty, 0, scope, tree));
            && n <= SpineLen(h) && At(h, b) == scope
            && forall i :: b < i < n ==> At(h, i).Complete()
  {
    var g := Snoc(Empty, 0, scope, tree);
    Descend(g);
    GraftSpine(f, b, g);
    forall i | b < i < n
      ensures At(Graft(f, b, g), i).Complete()
    {
      assert At(g, i - b) == At(tree, i - b - 1);
      PathComplete(t, tree, i - b - 1);
    }
  }

  // The tokens of a link after a chain: the operator, if it is written, and the operand.
  lemma FeedLink(t: Table, s1: State, s2: State, op: nat, explicit: bool, last: Operand, r: State)
    requires t.Valid() && s1.n > 0 && Ready(t, s2)
    requires op < |t.kinds| && t.kinds[op].Infix? && WellFormedOperand(t, last)
    requires !explicit ==> t.default == Some(op)
    requires Reads(t, s1, [Token(t.InfixInfo(op), AsOperator)], s2) && Reads(t, s2, OperandTokens(t, last), r)
    ensures Reads(t, s1, (if explicit then [Token(t.InfixInfo(op), AsOperator)] else []) + OperandTokens(t, last), r)
  {
    var tok, toks := Token(t.InfixInfo(op), AsOperator), OperandTokens(t, last);
    if explicit {
      ReadsThen(t, s1, [tok], s2, toks, r);
    } else {
      var p := Put(t, s1, tok);
      assert p.Some? ==> Feed(t, p.value, [tok][1..]) == p;
      FeedImplicit(t, s1, s2, last);
      assert [] + toks == toks;
    }
  }

  lemma FilledLink(t: Table, s: State, tree: Forest, op: nat, s2: State, x: Forest)
    requires t.Valid() && s.Valid() && Open(s.root, s.n) && ChainPath(t, tree) && tree.prev.Empty?
    requires op < |t.kinds| && t.kinds[op].Infix? && Opened(t, tree, op).prev.Empty? && IsOperand(t, x)
    requires s2 == State(Graft(s.root, s.n, Opened(t, tree, op)), s.n + Sink(t, tree, t.kinds[op].priority) + 1)
    requires s2.Valid() && Open(s2.root, s2.n)
    ensures ChainPath(t, Insert(t, tree, op, x)) && Insert(t, tree, op, x).prev.Empty?
    ensures Filled(t, s2, x) == Filled(t, s, Insert(t, tree, op, x))
  {
    InsertPath(t, tree, op, x);
    OpenedThenFilled(t, tree, op, x);
    GraftGraft(s.root, s.n, Opened(t, tree, op), Sink(t, tree, t.kinds[op].priority) + 1, x);
    InsertOpenLen(t, tree, op, x);
  }

  lemma {:induction false} FeedChain(t: Table, s: State, c: Chain)
    requires t.Valid() && ReadyForChain(t, s) && WellFormedChain(t, c)
    ensures Open(s.root, s.n) && ChainPath(t, ChainTree(t, c))
    ensures Reads(t, s, ChainTokens(t, c), Filled(t, s, ChainTree(t, c)))
    decreases c, 2
  {
    ReadyIsOpen(t, s);
    if c.One? {
      FeedOperand(t, s, c.first);
      assert Build(t, OperandTree(t, c.first), []) == OperandTree(t, c.first);
    } else {
      FeedChain(t, s, c.front);
      var tree, x := ChainTree(t, c.front), OperandTree(t, c.last);
      var s1 := Filled(t, s, tree);
      ReadsBare(t, s, ChainTokens(t, c.front), s1);
      var s2 := ReadInfix(t, s, s1, tree, c.op);
      FeedOperand(t, s2, c.last);
      FilledLink(t, s, tree, c.op, s2, x);
      FeedLink(t, s1, s2, c.op, c.explicit, c.last, Filled(t, s2, x));
      ChainTreeGrows(t, c.front, c.op, c.explicit, c.last);
      FeedMoreTokens(t, s, s1, c, Filled(t, s2, x));
    }
  }

  lemma ReadInfix(t: Table, s: State, s1: State, tree: Forest, op: nat) returns (s2: State)
    requires t.Valid() && ReadyForChain(t, s) && Open(s.root, s.n)
    requires ChainPath(t, tree) && tree.prev.Empty? && op < |t.kinds| && t.kinds[op].Infix?
    requires s1 == Filled(t, s, tree) && s1.Settled() && Strip(s1.root) == s1.root
    ensures Opened(t, tree, op).prev.Empty?
    ensures s2 == State(Graft(s.root, s.n, Opened(t, tree, op)), s.n + Sink(t, tree, t.kinds[op].priority) + 1)
    ensures Reads(t, s1, [Token(t.InfixInfo(op), AsOperator)], s2) && Ready(t, s2)
  {
    var tok := Token(t.InfixInfo(op), AsOperator);
    PutInfix(t, s, s1, tree, op);
    s2 := Put(t, s1, tok).value;
    ReadsOne(t, s1, tok, s2);
    ReadsBare(t, s1, [tok], s2);
    ReadyAfterInfix(t, s, tree, op, s2);
  }

  lemma FeedMoreTokens(t: Table, s: State, s1: State, c: Chain, r: State)
    requires WellFormedChain(t, c) && c.More?
    requires Reads(t, s, ChainTokens(t, c.front), s1)
    requires Reads(t, s1, (if c.explicit then [Token(t.InfixInfo(c.op), AsOperator)] else [])
             + OperandTokens(t, c.last), r)
    ensures Reads(t, s, ChainTokens(t, c), r)
  {
    var a, b := ChainTokens(t, c.front), OperandTokens(t, c.last);
    var o := if c.explicit then [Token(t.InfixInfo(c.op), AsOperator)] else [];
    ReadsThen(t, s, a, s1, o + b, r);
    assert a + o + b == a + (o + b);
  }

  lemma ReadyAfterInfix(t: Table, s: State, tree: Forest, op: nat, s2: State)
    requires t.Valid() && Ready(t, s) && Open(s.root, s.n) && ChainPath(t, tree) && tree.prev.Empty?
    requires op < |t.kinds| && t.kinds[op].Infix? && Opened(t, tree, op).prev.Empty?
    requires s2 == State(Graft(s.root, s.n, Opened(t, tree, op)), s.n + Sink(t, tree, t.kinds[op].priority) + 1)
    requires s2.Settled() && Strip(s2.root) == s2.root
    ensures Ready(t, s2) && At(s2.root, s2.n - 1) == t.InfixInfo(op)
  {
    var one := Snoc(Empty, 0, Value(0, 0, 0), Empty);
    OpenedThenFilled(t, tree, op, one);
    GraftSpine(s.root, s.n, Opened(t, tree, op));
  }

  /** An operand right after a finished operand is read as if the default operator stood
      between them. */
  lemma PutImplicit(t: Table, s1: State, s2: State, leaf: Info)
    requires t.Valid() && t.default.Some? && s1.Settled() && s1.n > 0 && Strip(s1.root) == s1.root
    requires Put(t, s1, Token(t.Fallback().value, AsOperator)) == Some(s2) && Ready(t, s2)
    requires t.Produces(Token(leaf, AsValue)) && Norm(leaf) == leaf
    ensures Put(t, s1, Token(leaf, AsValue)) == Put(t, s2, Token(leaf, AsValue))
  {
    var act := t.Fallback().value;
    var p, c := PlaceOperator(s1, act).value, Target(s1, act);
    PlaceOperatorKeeps(s1, act);
    assert HasRoom(p.root, c);
    PutLeaf(t, s2, leaf);
    StripAppend(p.root, c, leaf, leaf, Size(p.root), 0);
    AppendIsGraft(s2.root, c, leaf);
    var one := Snoc(Empty, 0, leaf, Empty);
    assert Strip(one) == one;
    StripGraft(s2.root, s2.n, one);
  }

  lemma FeedImplicit(t: Table, s1: State, s2: State, o: Operand)
    requires t.Valid() && t.default.Some? && s1.Settled() && s1.n > 0 && Strip(s1.root) == s1.root
    requires Put(t, s1, Token(t.Fallback().value, AsOperator)) == Some(s2) && Ready(t, s2)
    requires WellFormedOperand(t, o)
    ensures Feed(t, s1, OperandTokens(t, o)) == Feed(t, s2, OperandTokens(t, o))
  {
    var toks := OperandTokens(t, o);
    assert toks[0].placeAs.AsValue? && Norm(toks[0].info) == toks[0].info;
    PutImplicit(t, s1, s2, toks[0].info);
  }

  lemma ItemsAreReady(t: Table, c: Chain)
    requires t.Valid() && WellFormedChain(t, c)
    ensures ItemsReady(t, Items(t, c))
    ensures WellFormedOperand(t, First(c)) && IsOperand(t, OperandTree(t, First(c)))
    decreases c, 0
  {
    match c
    case One(o) => TreeIsOperand(t, o);
    case More(front, op, _, last) =>
      ItemsAreReady(t, front);
      TreeIsOperand(t, last);
  }

  lemma {:induction false} TreeIsOperand(t: Table, o: Operand)
    requires t.Valid() && WellFormedOperand(t, o)
    ensures IsOperand(t, OperandTree(t, o))
    decreases o, 0
  {
    if o.Pre? { TreeIsOperand(t, o.operand); }
  }

  lemma ChainTreeGrows(t: Table, front: Chain, op: nat, explicit: bool, last: Operand)
    requires t.Valid() && WellFormedChain(t, More(front, op, explicit, last))
    ensures ChainPath(t, ChainTree(t, front))
    ensures ChainTree(t, More(front, op, explicit, last)) == Insert(t, ChainTree(t, front), op, OperandTree(t, last))
  {
    ItemsAreReady(t, More(front, op, explicit, last));
    ItemsAreReady(t, front);
    TreeIsOperand(t, last);
    BuildSnoc(t, OperandTree(t, First(front)), Items(t, front), Item(op, OperandTree(t, last)));
  }

  /** Whatever the text positions, the tokens of a well-formed expression are all accepted,
      leave a complete tree, and that tree is the reference tree. */
  lemma {:induction false} ParserBuildsReference(t: Table, c: Chain, steps: seq<Fed>)
    requires t.Valid() && WellFormedChain(t, c) && |steps| == |ChainTokens(t, c)|
    requires forall i :: 0 <= i < |steps| ==> steps[i].tok == ChainTokens(t, c)[i]
    ensures var out := Run(t, START, steps);
            out.Some? && Strip(out.value.root) == ChainTree(t, c) && out.value.Complete()
  {
    FeedChain(t, START, c);
    RunIsFeed(t, steps, ChainTokens(t, c));
    var s := Run(t, START, steps).value;
    StripSpine(s.root);
    var tree := ChainTree(t, c);
    forall i | 0 <= i < s.n
      ensures At(s.root, i).Complete()
    {
      PathComplete(t, tree, i);
      assert At(Strip(s.root), i) == Norm(At(s.root, i));
    }
  }
}
