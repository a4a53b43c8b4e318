/** A recursive definition of operator precedence, by splitting a chain of operands at its
    weakest operator. Precedence.dfy proves that the incremental parser builds these trees. */
module Reference {
  import opened ExpressionForest
  import opened Placement
  import opened OperatorTable

  /** Expressions: a word, a prefix operator before an operand, or a scope around an optional
      chain of operands joined by infix operators. A link without an explicit operator token
      stands for the default operator. */
  datatype Operand =
    | Atom(rtt: nat, size: nat)
    | Pre(rtt: nat, operand: Operand)
    | Group(rtt: nat, body: Body)

  datatype Body = NoBody | Inside(chain: Chain)

  datatype Chain =
    | One(first: Operand)
    | More(front: Chain, op: nat, explicit: bool, last: Operand)

  ghost predicate WellFormedOperand(t: Table, o: Operand) {
    o.rtt < |t.kinds| &&
    match o
    case Atom(r, _) => t.kinds[r].Word?
    case Pre(r, inner) => t.kinds[r].Prefix? && WellFormedOperand(t, inner)
    case Group(r, body) => t.kinds[r].Scope? && (body.Inside? ==> WellFormedChain(t, body.chain))
  }

  ghost predicate WellFormedChain(t: Table, c: Chain) {
    match c
    case One(o) => WellFormedOperand(t, o)
    case More(front, op, explicit, last) =>
      && WellFormedChain(t, front) && WellFormedOperand(t, last)
      && op < |t.kinds| && t.kinds[op].Infix?
      && (!explicit ==> t.default.Some? && t.default.value == op)
  }

  // The tokens of an expression, in input order.
  ghost function OperandTokens(t: Table, o: Operand): (toks: seq<Token>)
    requires WellFormedOperand(t, o)
    ensures forall i :: 0 <= i < |toks| ==> toks[i].Valid() && t.Produces(toks[i])
  {
    match o
    case Atom(r, size) => [Token(Value(r, 0, size), AsValue)]
    case Pre(r, inner) => [Token(t.PrefixInfo(r), AsValue)] + OperandTokens(t, inner)
    case Group(r, body) =>
      [Token(t.OpenInfo(r), AsValue)] + (if body.NoBody? then [] else ChainTokens(t, body.chain))
      + [Token(t.CloseInfo(r), AsOperator)]
  }

  ghost function ChainTokens(t: Table, c: Chain): (toks: seq<Token>)
    requires WellFormedChain(t, c)
    ensures forall i :: 0 <= i < |toks| ==> toks[i].Valid() && t.Produces(toks[i])
  {
    match c
    case One(o) => OperandTokens(t, o)
    case More(front, op, explicit, last) =>
      ChainTokens(t, front) + (if explicit then [Token(t.InfixInfo(op), AsOperator)] else []) + OperandTokens(t, last)
  }

  // ---------------------------------------------------------------- the reference trees

  /** An operator and the operand tree to its right. */
  datatype Item = Item(op: nat, tree: Forest)

  ghost predicate ItemOk(t: Table, it: Item) {
    it.op < |t.kinds| && t.kinds[it.op].Infix? && it.tree.Snoc? && it.tree.prev.Empty?
  }

  ghost function Priority(t: Table, it: Item): nat
    requires ItemOk(t, it)
  {
    t.kinds[it.op].priority
  }

  // An infix operator that has all its operands.
  ghost function Done(t: Table, op: nat): Info
    requires op < |t.kinds| && t.kinds[op].Infix?
  {
    Operator(op, t.kinds[op].priority, 0, if t.kinds[op].chained then 1 else 0)
  }

  /** The last of the weakest operators. */
  ghost function Split(t: Table, items: seq<Item>): (k: nat)
    requires |items| > 0 && forall i :: 0 <= i < |items| ==> ItemOk(t, items[i])
    ensures k < |items|
    ensures forall i :: 0 <= i < k ==> Priority(t, items[k]) <= Priority(t, items[i])
    ensures forall i :: k < i < |items| ==> Priority(t, items[k]) < Priority(t, items[i])
  {
    if |items| == 1 then 0 else
    var k := Split(t, items[..|items| - 1]);
    if Priority(t, items[|items| - 1]) <= Priority(t, items[k]) then |items| - 1 else k
  }

  /** Joins two operands under an operator. A chained operator whose left operand is already
      such an operator takes the right operand as one more child. */
  ghost function Join(t: Table, op: nat, left: Forest, right: Forest): (f: Forest)
    requires op < |t.kinds| && t.kinds[op].Infix?
    requires left.Snoc? && right.Snoc? && left.prev.Empty?
    ensures f.Snoc? && f.prev.Empty?
  {
    if left.info.rtt == op && t.kinds[op].chained then left.(kids := right.(prev := left.kids))
    else Snoc(Empty, 0, Done(t, op), right.(prev := left))
  }

  ghost function Build(t: Table, first: Forest, items: seq<Item>): (f: Forest)
    requires first.Snoc? && first.prev.Empty?
    requires forall i :: 0 <= i < |items| ==> ItemOk(t, items[i])
    ensures f.Snoc? && f.prev.Empty?
    decreases |items|
  {
    if items == [] then first else
    var k := Split(t, items);
    Join(t, items[k].op, Build(t, first, items[..k]), Build(t, items[k].tree, items[k + 1..]))
  }

  ghost function OperandTree(t: Table, o: Operand): (f: Forest)
    requires WellFormedOperand(t, o)
    ensures f.Snoc? && f.prev.Empty?
    decreases o, 0
  {
    match o
    case Atom(r, size) => Snoc(Empty, 0, Value(r, 0, size), Empty)
    case Pre(r, inner) => Snoc(Empty, 0, Operator(r, t.kinds[r].priority, 0, 1), OperandTree(t, inner))
    case Group(r, body) =>
      Snoc(Empty, 0, Operator(r, t.kinds[r].priority, 0, 2),
           if body.NoBody? then Empty else ChainTree(t, body.chain))
  }

  ghost function First(c: Chain): Operand {
    if c.One? then c.first else First(c.front)
  }

  ghost function Items(t: Table, c: Chain): (items: seq<Item>)
    requires WellFormedChain(t, c)
    ensures forall i :: 0 <= i < |items| ==> ItemOk(t, items[i])
    decreases c, 0
  {
    if c.One? then [] else Items(t, c.front) + [Item(c.op, OperandTree(t, c.last))]
  }

  lemma {:induction false} FirstFits(t: Table, c: Chain)
    requires WellFormedChain(t, c)
    ensures WellFormedOperand(t, First(c)) && (First(c) < c)
  {
    if c.More? { FirstFits(t, c.front); }
  }

  ghost function ChainTree(t: Table, c: Chain): (f: Forest)
    requires WellFormedChain(t, c)
    ensures f.Snoc? && f.prev.Empty?
    decreases c, 1
  {
    FirstFits(t, c);
    Build(t, OperandTree(t, First(c)), Items(t, c))
  }

  // ---------------------------------------------------------------- reading trees

  // The trees that stand side by side in a forest, from left to right.
  function Trees(f: Forest): seq<Forest> {
    if f.Empty? then [] else Trees(f.prev) + [f.(prev := Empty)]
  }

  lemma TreesOfLast(f: Forest, last: Forest)
    requires last.Snoc? && last.prev.Empty?
    ensures Trees(last.(prev := f)) == Trees(f) + [last]
    ensures f.Snoc? && f.prev.Empty? ==> Trees(f) == [f]
  {}
}
