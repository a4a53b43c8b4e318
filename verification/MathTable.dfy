/** The operator table of math_expression.hpp, and how leniently any table takes repeated
    operators and stray closing scopes. */
module MathTable {
  import opened Wrappers
  import opened ExpressionForest
  import opened Placement
  import opened OperatorTable
  import opened TokenRuns
  import opened Reference
  import opened BareTrees
  import opened Precedence
  import opened ParserCorrect

  const PLUS: nat := 1
  const MINUS: nat := 2
  const TIMES: nat := 4
  const DIVIDE: nat := 5
  const POWER: nat := 6
  const PARENS: nat := 7

  /** Numbered as in the list of lexers: blanks, plus, minus, numbers, times, divide, power,
      parentheses, sign. Multiplication is the default operator. */
  const MATH: Table :=
    Table([Blank, Infix(1, true), Infix(1, true), Word, Infix(2, true), Infix(2, true), Infix(3, true), Scope(5),
           Prefix(4)], Some(TIMES))

  lemma MathTableIsValid()
    ensures MATH.Valid() && MATH.Fallback() == Some(Operator(TIMES, 2, 1, 1))
  {}

  /** Every well-formed arithmetic expression gets its reference tree, and in every complete tree
      of arithmetic tokens, however they were strung together, each operator has its operands
      and the parentheses read are two for every scope node. */
  lemma MathExpressions(c: Chain, steps: seq<Fed>)
    requires FromTable(MATH, steps)
    ensures MATH.Valid()
    ensures var out := Run(MATH, START, steps);
            out.Some? && out.value.Complete() ==>
              Arity(MATH, out.value.root) && Counted(steps, PARENS) == 2 * MATH.ScopeNodes(out.value.root, PARENS)
    ensures WellFormedChain(MATH, c) && |steps| == |ChainTokens(MATH, c)|
            && (forall i :: 0 <= i < |steps| ==> steps[i].tok == ChainTokens(MATH, c)[i]) ==>
              Run(MATH, START, steps).Some? && Strip(Run(MATH, START, steps).value.root) == ChainTree(MATH, c)
  {
    MathTableIsValid();
    CompleteRun(MATH, steps);
    BalancedWhenComplete(MATH, steps, PARENS);
    if WellFormedChain(MATH, c) && |steps| == |ChainTokens(MATH, c)|
       && forall i :: 0 <= i < |steps| ==> steps[i].tok == ChainTokens(MATH, c)[i] {
      ParserBuildsReference(MATH, c, steps);
    }
  }

  // ---------------------------------------------------------------- what binds tighter

  // A node of this kind with exactly these operands.
  ghost predicate IsNode(f: Forest, op: nat, operands: seq<Forest>) {
    f.Snoc? && f.info.Operator? && f.info.rtt == op && Trees(f.kids) == operands
  }

  // The tree of three operands with the operators x and y between them.
  ghost predicate Grouped(f: Forest, x: nat, y: nat, a: Forest, b: Forest, c: Forest, tighter: bool) {
    f.Snoc? &&
    if tighter then |Trees(f.kids)| == 2 && IsNode(f, x, [a, Trees(f.kids)[1]]) && IsNode(Trees(f.kids)[1], y, [b, c])
    else if x == y then IsNode(f, x, [a, b, c])
    else |Trees(f.kids)| == 2 && IsNode(f, y, [Trees(f.kids)[0], c]) && IsNode(Trees(f.kids)[0], x, [a, b])
  }

  lemma OneInsert(t: Table, x: nat, a: Forest, b: Forest)
    requires t.Valid() && x < |t.kinds| && t.kinds[x].Infix? && IsOperand(t, a) && b.Snoc? && b.prev.Empty?
    ensures Insert(t, a, x, b) == Snoc(Empty, 0, Done(t, x), b.(prev := a)) && Trees(b.(prev := a)) == [a, b]
  {
    TreesOfLast(a, a);
    TreesOfLast(a, b);
  }

  lemma TwoInserts(t: Table, x: nat, y: nat, a: Forest, b: Forest, c: Forest, f: Forest)
    requires t.Valid() && x < |t.kinds| && t.kinds[x].Infix? && t.kinds[x].chained
    requires y < |t.kinds| && t.kinds[y].Infix?
    requires IsOperand(t, a) && IsOperand(t, b) && c.Snoc? && c.prev.Empty?
    requires f == Insert(t, a, x, b) && ChainPath(t, f)
    ensures Grouped(Insert(t, f, y, c), x, y, a, b, c, t.kinds[x].priority < t.kinds[y].priority)
  {
    OneInsert(t, x, a, b);
    TreesOfLast(b.(prev := a), c);
    TreesOfLast(f, f);
    TreesOfLast(f, c);
    TreesOfLast(b, b);
    TreesOfLast(b, c);
    var g := Snoc(Empty, 0, Done(t, y), c.(prev := b));
    TreesOfLast(a, g);
    TreesOfLast(a, a);
  }

  // Links of operators that may be left out, if they are the default ones.
  ghost function ThreeOperands(a: Operand, x: nat, shown: bool, b: Operand, y: nat, shown': bool, c: Operand): Chain {
    More(More(One(a), x, shown, b), y, shown', c)
  }

  lemma ThreeAreGrouped(t: Table, a: Operand, x: nat, shown: bool, b: Operand, y: nat, shown': bool, c: Operand)
    requires t.Valid() && WellFormedOperand(t, a) && WellFormedOperand(t, b) && WellFormedOperand(t, c)
    requires x < |t.kinds| && t.kinds[x].Infix? && t.kinds[x].chained && y < |t.kinds| && t.kinds[y].Infix?
    requires (!shown ==> t.default == Some(x)) && (!shown' ==> t.default == Some(y))
    ensures WellFormedChain(t, ThreeOperands(a, x, shown, b, y, shown', c))
    ensures Grouped(ChainTree(t, ThreeOperands(a, x, shown, b, y, shown', c)), x, y,
                    OperandTree(t, a), OperandTree(t, b), OperandTree(t, c), t.kinds[x].priority < t.kinds[y].priority)
  {
    TreeIsOperand(t, a);
    TreeIsOperand(t, b);
    ChainTreeGrows(t, One(a), x, shown, b);
    ChainTreeGrows(t, More(One(a), x, shown, b), y, shown', c);
    assert ChainTree(t, One(a)) == OperandTree(t, a);
    var f := ChainTree(t, More(One(a), x, shown, b));
    TwoInserts(t, x, y, OperandTree(t, a), OperandTree(t, b), OperandTree(t, c), f);
  }

  predicate IsBinary(op: nat) {
    op == PLUS || op == MINUS || op == TIMES || op == DIVIDE || op == POWER
  }

  // Times and divide before plus and minus, and power before all of them.
  predicate BindsTighter(y: nat, x: nat) {
    || ((x == PLUS || x == MINUS) && (y == TIMES || y == DIVIDE || y == POWER))
    || ((x == TIMES || x == DIVIDE) && y == POWER)
  }

  lemma MathPriorities(x: nat, y: nat)
    requires IsBinary(x) && IsBinary(y)
    ensures x < |MATH.kinds| && MATH.kinds[x].Infix? && MATH.kinds[x].chained
    ensures y < |MATH.kinds| && MATH.kinds[y].Infix?
    ensures MATH.kinds[x].priority < MATH.kinds[y].priority <==> BindsTighter(y, x)
  {}

  /** a x b y c, whatever the operands are: where y binds tighter than x it joins b and c first; the
      same operator twice makes one node with three operands; otherwise x joins a and b first.
      TIMES may be left out. */
  lemma UsualPrecedence(a: Operand, x: nat, shown: bool, b: Operand, y: nat, shown': bool, c: Operand, steps: seq<Fed>)
    requires IsBinary(x) && IsBinary(y) && (!shown ==> x == TIMES) && (!shown' ==> y == TIMES)
    requires WellFormedOperand(MATH, a) && WellFormedOperand(MATH, b) && WellFormedOperand(MATH, c)
    ensures MATH.Valid() && WellFormedChain(MATH, ThreeOperands(a, x, shown, b, y, shown', c))
    ensures var toks := ChainTokens(MATH, ThreeOperands(a, x, shown, b, y, shown', c));
            |steps| == |toks| && (forall i :: 0 <= i < |steps| ==> steps[i].tok == toks[i]) ==>
              && (forall i :: 0 <= i < |steps| ==> steps[i].tok.Valid()) && Run(MATH, START, steps).Some?
              && Grouped(Strip(Run(MATH, START, steps).value.root), x, y,
                         OperandTree(MATH, a), OperandTree(MATH, b), OperandTree(MATH, c), BindsTighter(y, x))
  {
    MathTableIsValid();
    MathPriorities(x, y);
    var chain := ThreeOperands(a, x, shown, b, y, shown', c);
    var toks := ChainTokens(MATH, chain);
    ThreeAreGrouped(MATH, a, x, shown, b, y, shown', c);
    if |steps| == |toks| && forall i :: 0 <= i < |steps| ==> steps[i].tok == toks[i] {
      ParserBuildsReference(MATH, chain, steps);
    }
  }

  // ---------------------------------------------------------------- leniency

  // The node an infix operator has just made or fixed waits for an operand.
  lemma JustPlaced(s: State, act: Info)
    requires s.Settled() && s.n > 0 && act.Operator? && act.right == 1 && act.property <= 1
    ensures var r := PlaceOperator(s, act);
            r.Some? ==> && r.value.Settled() && r.value.n == Target(s, act) + 1
                        && At(r.value.root, Target(s, act)).Operator? && At(r.value.root, Target(s, act)).rtt == act.rtt
                        && At(r.value.root, Target(s, act)).right == 1
                        && At(r.value.root, Target(s, act)).property == act.property
  {
    var c := Target(s, act);
    PlaceOperatorKeeps(s, act);
    if CanFix(s.root, c, act) {
      SpineOfFix(s.root, c, act);
    } else if At(s.root, c).Complete() {
      SpineOfWrap(s.root, c, act, Size(s.root));
    }
  }

  // Such a node at the top of the stack takes the same operator again, or refuses it.
  lemma AgainOnTop(s: State, act: Info, c: nat)
    requires s.Settled() && s.n == c + 1 && act.Operator? && act.right == 1 && act.property <= 1
    requires At(s.root, c).Operator? && At(s.root, c).rtt == act.rtt
    requires At(s.root, c).right == 1 && At(s.root, c).property == act.property
    ensures PlaceOperator(s, act) == if act.property == 1 then Some(s) else None
  {
    assert Stops(s.root, c, Some(act)) && Stops(s.root, c, None);
    assert Target(s, act) == c;
    if act.property == 1 { FixAgain(s.root, c, act); }
  }

  /** An infix operator read twice in a row: a chained one is absorbed, whatever the tree; any
      other one is refused. */
  lemma RepeatedInfix(t: Table, s: State, r: nat, at: nat, at': nat)
    requires t.Valid() && s.Settled() && r < |t.kinds| && t.kinds[r].Infix?
    ensures var tok := Token(t.InfixInfo(r), AsOperator);
            match Place(s, tok, t.Fallback(), at)
            case None => true
            case Some(s1) =>
              s1.Settled() && Place(s1, tok, t.Fallback(), at') == if t.kinds[r].chained then Some(s1) else None
  {
    var act := t.InfixInfo(r);
    if s.n > 0 {
      JustPlaced(s, act);
      var placed := PlaceOperator(s, act);
      if placed.Some? { AgainOnTop(placed.value, act, Target(s, act)); }
    }
  }

  /** A closing token that meets no opening one is wrapped around its target and leaves its scope
      incomplete; a second one in a row completes that scope, without a new node. */
  lemma StrayClosersMerge(t: Table, s: State, r: nat, at: nat, at': nat)
    requires t.Valid() && s.Settled() && s.n > 0 && t.IsScope(r)
    requires !CanFix(s.root, Target(s, t.CloseInfo(r)), t.CloseInfo(r))
    ensures var tok := Token(t.CloseInfo(r), AsOperator);
            match Place(s, tok, t.Fallback(), at)
            case None => !At(s.root, Target(s, t.CloseInfo(r))).Complete()
            case Some(s1) =>
              && s1.Settled() && Size(s1.root) == Size(s.root) + 1 && !s1.Complete()
              && SecondCloser(t, s1, r, Place(s1, tok, t.Fallback(), at'))
  {
    var act := t.CloseInfo(r);
    var c := Target(s, act);
    if At(s.root, c).Complete() {
      PlaceOperatorKeeps(s, act);
      SpineOfWrap(s.root, c, act, Size(s.root));
      CloserOnTop(t, PlaceOperator(s, act).value, r);
    }
  }

  // The scope at the top of the stack is complete now, and nothing else has happened.
  ghost predicate SecondCloser(t: Table, s1: State, r: nat, out: Option<State>)
    requires t.IsScope(r)
  {
    && out.Some? && out.value.Valid() && out.value.n == s1.n > 0 && Size(out.value.root) == Size(s1.root)
    && At(out.value.root, s1.n - 1) == Operator(r, t.kinds[r].priority, 0, 1) && At(out.value.root, s1.n - 1).Complete()
  }

  lemma CloserOnTop(t: Table, s1: State, r: nat)
    requires t.Valid() && s1.Settled() && s1.n > 0 && t.IsScope(r) && At(s1.root, s1.n - 1) == t.CloseInfo(r)
    ensures !s1.Complete() && SecondCloser(t, s1, r, PlaceOperator(s1, t.CloseInfo(r)))
  {
    var act := t.CloseInfo(r);
    assert !At(s1.root, s1.n - 1).Complete();
    assert Stops(s1.root, s1.n - 1, Some(act)) && Stops(s1.root, s1.n - 1, None);
    SpineOfFix(s1.root, s1.n - 1, act);
  }
}
