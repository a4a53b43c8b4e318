/** Operator tables as the lexers of json.hpp and math_expression.hpp declare them, and what
    each token placed keeps of the expression tree: arity, the order of priorities, and the
    number of scope tokens taken in. */
module OperatorTable {
  import opened Wrappers
  import opened ExpressionForest
  import opened Placement

  /** What one lexer of the list reads. A chained infix operator (property 1) takes further
      operands of its own kind; an unchained one (property 0) never does. */
  datatype Kind =
    | Blank
    | Word
    | Infix(priority: nat, chained: bool)
    | Prefix(priority: nat)
    | Scope(priority: nat)

  // How often a token counts as one of kind r.
  function CountsAs(tok: Token, r: nat): nat {
    if !tok.placeAs.Discard? && tok.info.rtt == r then 1 else 0
  }

  datatype Table = Table(kinds: seq<Kind>, default: Option<nat>) {
    /** Infix operators are weaker than prefix operators and scopes; the default operator,
        used between adjacent operands, is a chained infix operator. */
    ghost predicate Valid() {
      && (default.Some? ==> default.value < |kinds| && kinds[default.value].Infix? && kinds[default.value].chained)
      && (forall r, q :: 0 <= r < |kinds| && 0 <= q < |kinds| ==>
            kinds[r].Infix? && (kinds[q].Prefix? || kinds[q].Scope?) ==> kinds[r].priority < kinds[q].priority)
    }

    function InfixInfo(r: nat): Info
      requires r < |kinds| && kinds[r].Infix?
    {
      Operator(r, kinds[r].priority, 1, if kinds[r].chained then 1 else 0)
    }

    function PrefixInfo(r: nat): Info
      requires r < |kinds| && kinds[r].Prefix?
    {
      Operator(r, kinds[r].priority, 1, 1)
    }

    function OpenInfo(r: nat): Info
      requires r < |kinds| && kinds[r].Scope?
    {
      Operator(r, kinds[r].priority, 1, 4)
    }

    function CloseInfo(r: nat): Info
      requires r < |kinds| && kinds[r].Scope?
    {
      Operator(r, kinds[r].priority, 0, 8)
    }

    function Fallback(): Option<Info>
      requires Valid()
    {
      if default.None? then None else Some(InfixInfo(default.value))
    }

    /** The tokens the lexers of this table produce. */
    predicate Produces(tok: Token) {
      tok.placeAs.Discard? ||
      (var r := tok.info.rtt;
       r < |kinds| &&
       match kinds[r]
       case Blank => false
       case Word => tok.placeAs.AsValue? && tok.info.Value?
       case Infix(_, _) => tok.placeAs.AsOperator? && tok.info == InfixInfo(r)
       case Prefix(_) => tok.placeAs.AsValue? && tok.info == PrefixInfo(r)
       case Scope(_) => tok.info == if tok.placeAs.AsValue? then OpenInfo(r) else CloseInfo(r))
    }

    /** Operands had and operands still needed. A scope holds at most one child; its property
        says which of its tokens it has seen: 4 the opening one, 8 a closing one, 2 one of
        each, 1 two closing ones. */
    predicate NodeOk(info: Info, children: nat) {
      var r := info.rtt;
      r < |kinds| &&
      match kinds[r]
      case Blank => false
      case Word => info.Value? && children == 0
      case Infix(p, chained) =>
        && info.Operator? && info.priority == p && info.property == (if chained then 1 else 0)
        && info.right <= 1 && children >= 1 && children + info.right >= 2
        && (!chained ==> children + info.right == 2)
      case Prefix(p) =>
        && info.Operator? && info.priority == p && info.property == 1
        && info.right <= 1 && children + info.right == 1
      case Scope(p) =>
        && info.Operator? && info.priority == p
        && match info.property
           case 4 => children + info.right == 1
           case 8 => info.right == 0 && children == 1
           case 1 => info.right == 0 && children == 1
           case 2 => info.right == 0 && children <= 1
           case _ => false
    }

    predicate IsInfix(info: Info) {
      info.rtt < |kinds| && kinds[info.rtt].Infix?
    }

    /** Under an infix operator of priority p the first child is not weaker than p and every
        later child is strictly stronger. */
    predicate KidsOrdered(kids: Forest, p: nat) {
      kids.Empty? ||
      ((kids.info.Value? || if kids.prev.Empty? then kids.info.priority >= p else kids.info.priority > p)
       && KidsOrdered(kids.prev, p))
    }

    predicate TreeOk(f: Forest) {
      f.Empty? ||
      (&& TreeOk(f.prev)
       && NodeOk(f.info, Count(f.kids))
       && (IsInfix(f.info) && f.info.Operator? ==> KidsOrdered(f.kids, f.info.priority))
       && TreeOk(f.kids))
    }

    // Only the top of the address stack can still take an operand; a finished operator there is a closed scope.
    predicate SpineOk(s: State)
      requires s.Valid()
    {
      && (forall i :: 0 <= i < s.n - 1 ==> At(s.root, i).Operator? && At(s.root, i).right == 0)
      && (s.n > 0 && At(s.root, s.n - 1).Operator? && At(s.root, s.n - 1).Complete()
          ==> At(s.root, s.n - 1).rtt < |kinds| && kinds[At(s.root, s.n - 1).rtt].Scope?)
    }

    ghost predicate StateOk(s: State) {
      s.Settled() && TreeOk(s.root) && SpineOk(s)
    }

    predicate IsScope(r: nat) {
      r < |kinds| && kinds[r].Scope?
    }

    // Scope tokens of kind r that a node has taken in, read off its property.
    function TokensIn(info: Info, r: nat): nat {
      if info.Value? || info.rtt != r then 0 else if info.property == 4 || info.property == 8 then 1 else 2
    }

    function ScopeTokens(f: Forest, r: nat): nat {
      if f.Empty? then 0 else ScopeTokens(f.prev, r) + TokensIn(f.info, r) + ScopeTokens(f.kids, r)
    }

    function ScopeNodes(f: Forest, r: nat): nat {
      if f.Empty? then 0 else ScopeNodes(f.prev, r) + (if f.info.rtt == r then 1 else 0) + ScopeNodes(f.kids, r)
    }

    // ---------------------------------------------------------------- the edits

    lemma {:induction false} SubOk(f: Forest, d: nat)
      requires d < SpineLen(f) && TreeOk(f)
      ensures var g := Sub(f, d);
              NodeOk(g.info, Count(g.kids)) && (IsInfix(g.info) ==> KidsOrdered(g.kids, g.info.priority))
    {
      if d > 0 { SubOk(f.kids, d - 1); }
    }

    lemma {:induction false} FixOk(f: Forest, d: nat, act: Info, r: nat)
      requires d < SpineLen(f) && TreeOk(f) && CanFix(f, d, act)
      requires Produces(Token(act, AsOperator))
      ensures var g := Fix(f, d, act);
              && TreeOk(g) && g.info.rtt == f.info.rtt && g.prev == f.prev && Count(g) == Count(f)
              && g.info.Value? == f.info.Value? && (f.info.Operator? ==> g.info.priority == f.info.priority)
              && (IsScope(r) ==> ScopeTokens(g, r) == ScopeTokens(f, r) + if act.rtt == r then 1 else 0)
    {
      if d > 0 {
        Descend(f);
        FixOk(f.kids, d - 1, act, r);
      }
    }

    lemma {:induction false} WrapOk(f: Forest, d: nat, act: Info, a: nat, r: nat)
      requires d < SpineLen(f) && TreeOk(f)
      requires Produces(Token(act, AsOperator))
      requires kinds[act.rtt].Infix? ==> At(f, d).Value? || At(f, d).priority >= act.priority
      requires d > 0 && IsInfix(At(f, d - 1)) ==> At(f, d - 1).Operator? && act.priority > At(f, d - 1).priority
      ensures var g := Wrap(f, d, act, a);
              && TreeOk(g) && Count(g) == Count(f)
              && (IsScope(r) ==> ScopeTokens(g, r) == ScopeTokens(f, r) + if act.rtt == r then 1 else 0)
    {
      Descend(f);
      var g := Wrap(f, d, act, a);
      if d > 0 {
        WrapOk(f.kids, d - 1, act, a, r);
        if d > 1 { assert g.kids.info == f.kids.info; }
        assert g.kids.prev == f.kids.prev;
      } else {
        var inner := f.(prev := Empty);
        assert Count(inner) == 1 && KidsOrdered(Empty, act.priority);
        assert TreeOk(inner) && (kinds[act.rtt].Infix? ==> KidsOrdered(inner, act.priority));
        assert ScopeTokens(inner, r) == TokensIn(f.info, r) + ScopeTokens(f.kids, r);
      }
    }

    lemma {:induction false} AppendOk(f: Forest, d: nat, leaf: Info, a: nat, r: nat)
      requires d < SpineLen(f) && TreeOk(f) && HasRoom(f, d)
      requires Produces(Token(leaf, AsValue))
      requires IsInfix(At(f, d)) ==> leaf.Value? || leaf.priority > At(f, d).priority
      ensures At(f, d).right == 1
      ensures var g := Append(f, d, leaf, a);
              && TreeOk(g) && g.info.rtt == f.info.rtt && g.prev == f.prev && Count(g) == Count(f)
              && g.info.Value? == f.info.Value? && (f.info.Operator? ==> g.info.priority == f.info.priority)
              && (IsScope(r) ==> ScopeTokens(g, r) == ScopeTokens(f, r) + if leaf.rtt == r then 1 else 0)
    {
      Descend(f);
      var g := Append(f, d, leaf, a);
      if d > 0 {
        AppendOk(f.kids, d - 1, leaf, a, r);
      } else {
        assert ScopeTokens(Empty, r) == 0;
      }
    }

    // ---------------------------------------------------------------- every run

    /** A node that is about to be wrapped is no weaker than the new operator, and its parent,
        unless that is a scope, is strictly weaker. */
    lemma WrapFits(s: State, act: Info)
      requires Valid() && StateOk(s) && s.n > 0 && Produces(Token(act, AsOperator))
      requires At(s.root, Target(s, act)).Complete()
      ensures var f, c := s.root, Target(s, act);
              && (kinds[act.rtt].Infix? ==> At(f, c).Value? || At(f, c).priority >= act.priority)
              && (c > 0 && IsInfix(At(f, c - 1)) ==> At(f, c - 1).Operator? && act.priority > At(f, c - 1).priority)
    {
      var f, c := s.root, Target(s, act);
      var b := Scan(f, s.n - 1, Some(act));
      assert c == if b != s.n - 1 then b + 1 else b;
      SubOk(f, c);
      if c > 0 {
        SubOk(f, c - 1);
        assert b != s.n - 1 ==> Stops(f, c - 1, Some(act));
      }
    }

    predicate EndsOpen(act: Info) {
      act.Operator? && (act.right == 1 || (act.rtt < |kinds| && kinds[act.rtt].Scope?))
    }

    lemma FixSpineOk(s: State, c: nat, act: Info)
      requires s.Valid() && SpineOk(s) && c < s.n && CanFix(s.root, c, act) && EndsOpen(act)
      ensures var t := State(Fix(s.root, c, act), c + 1);
              t.Valid() && SpineOk(t)
    {
      SpineOfFix(s.root, c, act);
    }

    lemma WrapSpineOk(s: State, c: nat, act: Info)
      requires s.Valid() && SpineOk(s) && c < s.n && EndsOpen(act)
      ensures var t := State(Wrap(s.root, c, act, Size(s.root)), c + 1);
              t.Valid() && SpineOk(t)
    {
      SpineOfWrap(s.root, c, act, Size(s.root));
    }

    lemma PlaceOperatorOk(s: State, act: Info, r: nat)
      requires Valid() && StateOk(s) && s.n > 0
      requires Produces(Token(act, AsOperator))
      ensures var t := PlaceOperator(s, act);
              t.Some? ==> && StateOk(t.value)
                          && (IsScope(r) ==>
                                ScopeTokens(t.value.root, r) == ScopeTokens(s.root, r) + if act.rtt == r then 1 else 0)
    {
      var c := Target(s, act);
      PlaceOperatorKeeps(s, act);
      if CanFix(s.root, c, act) {
        FixOk(s.root, c, act, r);
        FixSpineOk(s, c, act);
      } else if At(s.root, c).Complete() {
        WrapFits(s, act);
        WrapOk(s.root, c, act, Size(s.root), r);
        WrapSpineOk(s, c, act);
      }
    }

    /** Every token of the table that finds a place keeps the tree's arity and priority order,
        and a scope token is counted exactly once. */
    lemma PlaceOk(s: State, tok: Token, at: nat, r: nat)
      requires Valid() && StateOk(s) && Produces(tok) && tok.Valid()
      ensures var t := Place(s, tok, Fallback(), at);
              t.Some? ==> && StateOk(t.value)
                          && (IsScope(r) ==> ScopeTokens(t.value.root, r) == ScopeTokens(s.root, r) + CountsAs(tok, r))
    {
      PlaceKeeps(s, tok, Fallback(), at);
      var leaf := Located(tok.info, at);
      if tok.placeAs.AsOperator? && s.n > 0 {
        PlaceOperatorOk(s, tok.info, r);
      } else if tok.placeAs.AsValue? && s.n == 0 {
        var one := Snoc(Empty, 0, leaf, Empty);
        assert Count(Empty) == 0 && ScopeTokens(one, r) == TokensIn(leaf, r);
      } else if tok.placeAs.AsValue? {
        if default.None? {
          var c := Scan(s.root, s.n - 1, None);
          if HasRoom(s.root, c) { AppendStateOk(s, c, leaf, r); }
        } else {
          var act := Fallback().value;
          var c := Target(s, act);
          PlaceOperatorOk(s, act, r);
          var t := PlaceOperator(s, act);
          if t.Some? {
            PlaceOperatorKeeps(s, act);
            if HasRoom(t.value.root, c) { AppendStateOk(t.value, c, leaf, r); }
          } else if HasRoom(s.root, c) {
            AppendStateOk(s, c, leaf, r);
          }
        }
      }
    }

    lemma AppendStateOk(s: State, c: nat, leaf: Info, r: nat)
      requires Valid() && StateOk(s) && c < s.n && HasRoom(s.root, c)
      requires Produces(Token(leaf, AsValue))
      ensures var t := AppendAt(s, c, leaf);
              && StateOk(t)
              && (IsScope(r) ==> ScopeTokens(t.root, r) == ScopeTokens(s.root, r) + if leaf.rtt == r then 1 else 0)
    {
      assert c == s.n - 1;
      AppendAtKeeps(s, c, leaf);
      SubOk(s.root, c);
      AppendOk(s.root, c, leaf, Size(s.root), r);
      SpineOfAppend(s.root, c, leaf, Size(s.root));
    }
  }
}
