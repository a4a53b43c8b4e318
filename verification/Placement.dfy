/** The meaning of one call of parse_helper: where a token goes in the expression tree.
    ExpressionTree.dfy proves the in-place arena code equal to Place. */
module Placement {
  import opened Wrappers
  import opened ExpressionForest

  datatype PlaceAs = Discard | AsValue | AsOperator

  datatype Token = Token(info: Info, placeAs: PlaceAs) {
    predicate Valid() { placeAs.AsOperator? ==> info.Operator? }
  }

  /** A tree and the length of the address stack, which names the first n nodes of the
      rightmost path. */
  datatype State = State(root: Forest, n: nat) {
    predicate Valid() {
      && n <= SpineLen(root)
      && (root.Snoc? ==> root.prev.Empty?)
      && (n == 0 <==> root.Empty?)
    }

    // expression_tree::complete()
    predicate Complete()
      requires Valid()
    {
      n > 0 && forall i :: 0 <= i < n ==> At(root, i).Complete()
    }

    ghost predicate Settled() {
      Valid() && OffSpineComplete(root, n)
    }
  }

  const START := State(Empty, 0)

  predicate Stops(f: Forest, i: nat, act: Option<Info>)
    requires i < SpineLen(f)
  {
    !At(f, i).Complete() || (act.Some? && At(f, i).WeakerThan(act.value))
  }

  /** The deepest spine node at or above i where the backward scan stops, or -1. */
  function Scan(f: Forest, i: int, act: Option<Info>): (r: int)
    requires -1 <= i < SpineLen(f)
    ensures -1 <= r <= i
    ensures r >= 0 ==> Stops(f, r, act)
    ensures forall k {:trigger At(f, k)} {:trigger Stops(f, k, act)} :: r < k <= i ==> !Stops(f, k, act)
  {
    if i < 0 || Stops(f, i, act) then i else Scan(f, i - 1, act)
  }

  /** The spine node an operator token acts on. */
  function Target(s: State, act: Info): (c: nat)
    requires s.Valid() && s.n > 0 && act.Operator?
    ensures c < s.n
    ensures forall k :: c < k < s.n ==> At(s.root, k).Complete()
  {
    var b := Scan(s.root, s.n - 1, Some(act));
    var c := if b != s.n - 1 then b + 1 else b;
    var u := Scan(s.root, c, None);
    if u >= 0 && At(s.root, u).rtt == act.rtt then u else c
  }

  // An operator token of the node's own kind that its property still takes in.
  predicate Extends(act: Info, node: Info) {
    act.Operator? && node.rtt == act.rtt && node.Operator? && PropertyCheck(node.property, act.property)
  }

  predicate CanFix(f: Forest, c: nat, act: Info)
    requires c < SpineLen(f)
  {
    Extends(act, At(f, c))
  }

  /** Fix the target, or wrap it, or refuse. */
  function PlaceOperator(s: State, act: Info): Option<State>
    requires s.Valid() && s.n > 0 && act.Operator?
  {
    var c := Target(s, act);
    if CanFix(s.root, c, act) then
      Some(State(Fix(s.root, c, act), c + 1))
    else if At(s.root, c).Complete() then
      Some(State(Wrap(s.root, c, act, Size(s.root)), c + 1))
    else
      None
  }

  // A value token is a slice of the consumed text that starts where that text ends now.
  function Located(info: Info, at: nat): Info {
    if info.Value? then info.(start := at) else info
  }

  function AppendAt(s: State, c: nat, leaf: Info): State
    requires c < SpineLen(s.root) && At(s.root, c).Operator? && At(s.root, c).right > 0
  {
    State(Append(s.root, c, leaf, Size(s.root)), c + 2)
  }

  predicate HasRoom(f: Forest, c: int) {
    0 <= c < SpineLen(f) && At(f, c).Operator? && At(f, c).right > 0
  }

  function PlaceValue(s: State, leaf: Info, fallback: Option<Info>): Option<State>
    requires s.Valid() && s.n > 0
    requires fallback.Some? ==> fallback.value.Operator?
  {
    if fallback.None? then
      var c := Scan(s.root, s.n - 1, None);
      if HasRoom(s.root, c) then Some(AppendAt(s, c, leaf)) else None
    else
      var c := Target(s, fallback.value);
      match PlaceOperator(s, fallback.value)
      case Some(s1) => if HasRoom(s1.root, c) then Some(AppendAt(s1, c, leaf)) else Some(s1)
      case None => if HasRoom(s.root, c) then Some(AppendAt(s, c, leaf)) else None
  }

  /** One call of parse_helper with a token read after `at` characters of text; fallback is
      the default operator of the lexer table, if it has one. */
  function Place(s: State, tok: Token, fallback: Option<Info>, at: nat): (r: Option<State>)
    requires s.Valid() && tok.Valid()
    requires fallback.Some? ==> fallback.value.Operator?
  {
    match tok.placeAs
    case Discard => Some(s)
    case AsValue =>
      if s.n == 0 then Some(State(Snoc(Empty, 0, Located(tok.info, at), Empty), 1))
      else PlaceValue(s, Located(tok.info, at), fallback)
    case AsOperator =>
      if s.n == 0 then None else PlaceOperator(s, tok.info)
  }

  // ---------------------------------------------------------------- what every step keeps

  lemma PlaceOperatorKeeps(s: State, act: Info)
    requires s.Settled() && s.n > 0 && act.Operator?
    ensures var r := PlaceOperator(s, act);
            r.Some? ==> && r.value.Settled() && r.value.n == Target(s, act) + 1
                        && At(r.value.root, Target(s, act)).Operator?
                        && At(r.value.root, Target(s, act)).rtt == act.rtt
                        && At(r.value.root, Target(s, act)).right == act.right
                        && Yield(r.value.root) == Yield(s.root)
                        && Size(s.root) <= Size(r.value.root) <= Size(s.root) + 1
  {
    var c := Target(s, act);
    DropComplete(s.root, s.n, c + 1);
    if CanFix(s.root, c, act) {
      SpineOfFix(s.root, c, act);
      FixKeepsOffSpine(s.root, c, act);
    } else if At(s.root, c).Complete() {
      SpineOfWrap(s.root, c, act, Size(s.root));
      WrapKeepsOffSpine(s.root, c, act, Size(s.root));
    }
  }

  lemma AppendAtKeeps(s: State, c: nat, leaf: Info)
    requires s.Settled() && HasRoom(s.root, c) && c < s.n
    requires forall k :: c < k < s.n ==> At(s.root, k).Complete()
    ensures var t := AppendAt(s, c, leaf);
            && t.Settled() && Size(t.root) == Size(s.root) + 1
            && Yield(t.root) == Yield(s.root) + if leaf.Value? then [(leaf.start, leaf.size)] else []
  {
    DropComplete(s.root, s.n, c + 1);
    SpineOfAppend(s.root, c, leaf, Size(s.root));
    AppendKeepsOffSpine(s.root, c, leaf, Size(s.root));
  }

  // A value behind the default operator.
  lemma FallbackKeeps(s: State, leaf: Info, act: Info)
    requires s.Settled() && s.n > 0 && act.Operator? && act.right > 0
    ensures var r := PlaceValue(s, leaf, Some(act));
            r.Some? ==>
              && r.value.Settled()
              && Size(s.root) <= Size(r.value.root) <= Size(s.root) + 2
              && Yield(r.value.root) == Yield(s.root) + if leaf.Value? then [(leaf.start, leaf.size)] else []
  {
    var c := Target(s, act);
    PlaceOperatorKeeps(s, act);
    match PlaceOperator(s, act)
    case Some(s1) =>
      if CanFix(s.root, c, act) {
        SpineOfFix(s.root, c, act);
      } else {
        SpineOfWrap(s.root, c, act, Size(s.root));
      }
      assert HasRoom(s1.root, c);
      AppendAtKeeps(s1, c, leaf);
    case None =>
      if HasRoom(s.root, c) { AppendAtKeeps(s, c, leaf); }
  }

  /** Every placed token keeps the address stack on the rightmost path and drops only
      complete nodes from it, adds at most two nodes, and a value token (and no other) adds
      its slice at the right end of the tree's values. A fallback operator takes an operand
      (right > 0), as every default operator of the source does. */
  lemma PlaceKeeps(s: State, tok: Token, fallback: Option<Info>, at: nat)
    requires s.Settled() && tok.Valid()
    requires fallback.Some? ==> fallback.value.Operator? && fallback.value.right > 0
    ensures var r := Place(s, tok, fallback, at);
            r.Some? ==>
              && r.value.Settled()
              && Size(s.root) <= Size(r.value.root) <= Size(s.root) + (if fallback.Some? then 2 else 1)
              && Yield(r.value.root) == Yield(s.root) +
                   if tok.placeAs.AsValue? && tok.info.Value? then [(at, tok.info.size)] else []
  {
    if tok.placeAs.AsOperator? && s.n > 0 {
      PlaceOperatorKeeps(s, tok.info);
    } else if tok.placeAs.AsValue? && s.n == 0 {
      var leaf := Snoc(Empty, 0, Located(tok.info, at), Empty);
      assert SpineLen(leaf) == 1 && Size(leaf) == 1;
      assert OffSpineComplete(leaf, 1);
    } else if tok.placeAs.AsValue? {
      var leaf := Located(tok.info, at);
      if fallback.None? {
        var c := Scan(s.root, s.n - 1, None);
        if HasRoom(s.root, c) { AppendAtKeeps(s, c, leaf); }
      } else {
        FallbackKeeps(s, leaf, fallback.value);
      }
    }
  }

  // ---------------------------------------------------------------- what is refused, and where the rest goes

  /** Node u of the stack is incomplete, and everything above it is complete. */
  predicate LastIncomplete(s: State, u: nat) {
    && s.n <= SpineLen(s.root) && u < s.n && !At(s.root, u).Complete()
    && forall k :: u < k < s.n ==> At(s.root, k).Complete()
  }

  /** What stops an operator token: an empty stack, or an unfinished node that the token does not
      extend, if that is the node on top or one of the token's kind. */
  ghost predicate Blocks(s: State, act: Info) {
    s.n == 0 || exists u: nat :: LastIncomplete(s, u) && !Extends(act, At(s.root, u))
                                 && (u == s.n - 1 || At(s.root, u).rtt == act.rtt)
  }

  // An unfinished node waits for an operand.
  ghost predicate TakesOperand(s: State) {
    exists u: nat :: LastIncomplete(s, u) && At(s.root, u).Operator? && At(s.root, u).right > 0
  }

  // The target against the last incomplete node.
  lemma TargetAt(s: State, act: Info, u: nat)
    requires s.Valid() && act.Operator? && LastIncomplete(s, u)
    ensures At(s.root, u).rtt == act.rtt || u == s.n - 1 ==> Target(s, act) == u
    ensures At(s.root, u).rtt != act.rtt && u != s.n - 1 ==> At(s.root, Target(s, act)).Complete()
  {
    var b := Scan(s.root, s.n - 1, Some(act));
    assert Stops(s.root, u, Some(act)) && Stops(s.root, u, None);
    assert Scan(s.root, if b != s.n - 1 then b + 1 else b, None) == u;
  }

  lemma BlocksMeans(s: State, act: Info)
    requires s.Valid() && s.n > 0 && act.Operator?
    ensures Blocks(s, act) <==> PlaceOperator(s, act).None?
    ensures Blocks(s, act) ==> (TakesOperand(s) <==> HasRoom(s.root, Target(s, act)))
  {
    var u := Scan(s.root, s.n - 1, None);
    if u >= 0 {
      assert LastIncomplete(s, u);
      TargetAt(s, act, u);
    }
  }

  /** An operator token is refused exactly when something stops it. A value token is refused exactly
      when no unfinished node waits for an operand and, if there is a default operator, that is
      stopped too; into an empty tree it always goes. */
  lemma RefusedExactly(s: State, tok: Token, fallback: Option<Info>, at: nat)
    requires s.Valid() && tok.Valid()
    requires fallback.Some? ==> fallback.value.Operator?
    ensures tok.placeAs.AsOperator? ==> (Place(s, tok, fallback, at).None? <==> Blocks(s, tok.info))
    ensures tok.placeAs.AsValue? ==>
              (Place(s, tok, fallback, at).None? <==>
               s.n > 0 && !TakesOperand(s) && (fallback.Some? ==> Blocks(s, fallback.value)))
    ensures tok.placeAs.Discard? ==> Place(s, tok, fallback, at) == Some(s)
  {
    if s.n > 0 {
      if tok.placeAs.AsOperator? {
        BlocksMeans(s, tok.info);
      } else if tok.placeAs.AsValue? && fallback.Some? {
        BlocksMeans(s, fallback.value);
        if TakesOperand(s) && fallback.Some? {}
      } else {
        var u := Scan(s.root, s.n - 1, None);
        if u >= 0 { assert LastIncomplete(s, u); }
      }
    }
  }

  /** The node that an operator token acts on. An unfinished node of the token's kind, or on top, if
      that is the last unfinished one; else the lowest of the nodes that end the stack and are at
      least as strong as the token, or the node on top if that is weaker. */
  ghost predicate ActsOn(s: State, act: Info, c: nat) {
    && s.n <= SpineLen(s.root) && c < s.n
    && if exists u: nat :: LastIncomplete(s, u) && (u == s.n - 1 || At(s.root, u).rtt == act.rtt) then
         LastIncomplete(s, c) && (c == s.n - 1 || At(s.root, c).rtt == act.rtt)
       else if At(s.root, s.n - 1).WeakerThan(act) then c == s.n - 1
       else
         && (forall k :: c <= k < s.n ==> At(s.root, k).Complete() && !At(s.root, k).WeakerThan(act))
         && (c > 0 ==> !At(s.root, c - 1).Complete() || At(s.root, c - 1).WeakerThan(act))
  }

  /** An operator token that is not refused merges into the node it acts on, if it extends that node,
      and becomes its parent otherwise; the nodes above it leave the stack. */
  lemma OperatorGoes(s: State, tok: Token, fallback: Option<Info>, at: nat, c: nat)
    requires s.Valid() && tok.placeAs.AsOperator? && tok.info.Operator? && !Blocks(s, tok.info)
    requires fallback.Some? ==> fallback.value.Operator?
    requires ActsOn(s, tok.info, c)
    ensures Place(s, tok, fallback, at) ==
            Some(State(if Extends(tok.info, At(s.root, c)) then Fix(s.root, c, tok.info)
                       else Wrap(s.root, c, tok.info, Size(s.root)), c + 1))
  {
    BlocksMeans(s, tok.info);
    ActsOnTarget(s, tok.info, c);
  }

  lemma ActsOnTarget(s: State, act: Info, c: nat)
    requires s.Valid() && act.Operator? && ActsOn(s, act, c)
    ensures Target(s, act) == c
  {
    var u := Scan(s.root, s.n - 1, None);
    if u >= 0 {
      assert LastIncomplete(s, u);
      TargetAt(s, act, u);
    }
    if u >= 0 && (u == s.n - 1 || At(s.root, u).rtt == act.rtt) {
      assert c == u;
    } else {
      ActsOnComplete(s, act, c);
    }
  }

  lemma ActsOnComplete(s: State, act: Info, c: nat)
    requires s.Valid() && act.Operator? && ActsOn(s, act, c)
    requires forall u: nat :: LastIncomplete(s, u) ==> u != s.n - 1 && At(s.root, u).rtt != act.rtt
    ensures Target(s, act) == c
  {
    var b := Scan(s.root, s.n - 1, Some(act));
    if At(s.root, s.n - 1).WeakerThan(act) {
      assert Stops(s.root, s.n - 1, Some(act));
    } else {
      assert forall k :: c <= k < s.n ==> !Stops(s.root, k, Some(act));
      if c > 0 { assert Stops(s.root, c - 1, Some(act)); }
    }
    var u := Scan(s.root, c, None);
    if u >= 0 {
      assert forall k :: c < k < s.n ==> At(s.root, k).Complete();
      assert LastIncomplete(s, u);
    }
  }

  /** What a placed token leaves on top of the stack: an operator token its kind and its operands, a
      value token itself. */
  ghost predicate OnTop(s: State, tok: Token, at: nat)
    requires tok.Valid()
  {
    && 0 < s.n <= SpineLen(s.root)
    && var top := At(s.root, s.n - 1);
       if tok.placeAs.AsOperator? then top.Operator? && top.rtt == tok.info.rtt && top.right == tok.info.right
       else top == Located(tok.info, at)
  }

  lemma PlacedOnTop(s: State, tok: Token, fallback: Option<Info>, at: nat)
    requires s.Settled() && tok.Valid() && !tok.placeAs.Discard?
    requires fallback.Some? ==> fallback.value.Operator? && fallback.value.right > 0
    ensures var r := Place(s, tok, fallback, at); r.Some? ==> OnTop(r.value, tok, at)
  {
    if tok.placeAs.AsOperator? {
      if s.n > 0 { PlaceOperatorKeeps(s, tok.info); }
    } else if s.n > 0 {
      var leaf := Located(tok.info, at);
      if fallback.None? {
        var c := Scan(s.root, s.n - 1, None);
        if HasRoom(s.root, c) { SpineOfAppend(s.root, c, leaf, Size(s.root)); }
      } else {
        FallbackOnTop(s, leaf, fallback.value);
      }
    }
  }

  lemma FallbackOnTop(s: State, leaf: Info, act: Info)
    requires s.Settled() && s.n > 0 && act.Operator? && act.right > 0
    ensures var r := PlaceValue(s, leaf, Some(act));
            r.Some? ==> 0 < r.value.n <= SpineLen(r.value.root) && At(r.value.root, r.value.n - 1) == leaf
  {
    var c := Target(s, act);
    PlaceOperatorKeeps(s, act);
    match PlaceOperator(s, act)
    case Some(s1) =>
      assert HasRoom(s1.root, c);
      SpineOfAppend(s1.root, c, leaf, Size(s1.root));
    case None =>
      if HasRoom(s.root, c) { SpineOfAppend(s.root, c, leaf, Size(s.root)); }
  }

  /** expression_tree::complete(), which looks at the address stack only, is true exactly
      when the tree is non-empty and every node of it is complete. */
  lemma CompleteIsExact(s: State)
    requires s.Settled()
    ensures s.Complete() <==> s.root.Snoc? && AllComplete(s.root)
  {
    SpineTestIsExact(s.root, s.n);
  }
}
