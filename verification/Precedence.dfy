/** The incremental in-place parser builds the trees of Reference.dfy. */
module Precedence {
  import opened ExpressionForest
  import opened Placement
  import opened OperatorTable
  import opened Reference
  import opened BareTrees

  // ---------------------------------------------------------------- filling an open operand

  // The next operand goes under the spine node above depth b, or is the whole tree.
  predicate Open(f: Forest, b: nat) {
    if b == 0 then f.Empty? else b <= SpineLen(f) && At(f, b - 1).Operator? && At(f, b - 1).right > 0
  }

  function Graft(f: Forest, b: nat, t: Forest): (g: Forest)
    requires Open(f, b) && t.Snoc? && t.prev.Empty?
    ensures g.Snoc?
  {
    if b == 0 then t
    else if b == 1 then f.(info := f.info.(right := f.info.right - 1), kids := t.(prev := f.kids))
    else f.(kids := Graft(f.kids, b - 1, t))
  }

  lemma {:induction false} GraftSpine(f: Forest, b: nat, t: Forest)
    requires Open(f, b) && t.Snoc? && t.prev.Empty?
    ensures var g := Graft(f, b, t);
            && SpineLen(g) == b + SpineLen(t)
            && (forall i :: b <= i < b + SpineLen(t) ==> At(g, i) == At(t, i - b))
            && (forall i :: 0 <= i < b - 1 ==> At(g, i) == At(f, i))
            && (b > 0 ==> At(g, b - 1) == At(f, b - 1).(right := At(f, b - 1).right - 1))
            && (b > 0 ==> g.prev == f.prev)
  {
    var g := Graft(f, b, t);
    Descend(g);
    Descend(t);
    if b > 0 { Descend(f); }
    if b == 1 {
      Descend(t.(prev := f.kids));
    } else if b > 1 {
      GraftSpine(f.kids, b - 1, t);
    }
  }

  lemma {:induction false} GraftGraft(f: Forest, b: nat, t: Forest, m: nat, u: Forest)
    requires Open(f, b) && t.Snoc? && t.prev.Empty? && m > 0 && Open(t, m) && u.Snoc? && u.prev.Empty?
    ensures Open(Graft(f, b, t), b + m)
    ensures Graft(Graft(f, b, t), b + m, u) == Graft(f, b, Graft(t, m, u))
    ensures Graft(t, m, u).prev == Empty
  {
    GraftSpine(f, b, t);
    GraftSpine(t, m, u);
    if b == 1 {
      GraftPeers(t, m, f.kids, u);
    } else if b > 1 {
      GraftGraft(f.kids, b - 1, t, m, u);
    }
  }

  lemma GraftPeers(t: Forest, m: nat, peers: Forest, u: Forest)
    requires t.Snoc? && t.prev.Empty? && m > 0 && Open(t, m) && u.Snoc? && u.prev.Empty?
    ensures Open(t.(prev := peers), m)
    ensures Graft(t, m, u).Snoc?
    ensures Graft(t.(prev := peers), m, u) == Graft(t, m, u).(prev := peers)
  {
    Descend(t);
    Descend(t.(prev := peers));
  }

  // Peers before the node do not matter.
  lemma FixPeers(t: Forest, peers: Forest, k: nat, act: Info)
    requires t.Snoc? && k < SpineLen(t) && CanFix(t, k, act)
    ensures var u := t.(prev := peers);
            && k < SpineLen(u) && CanFix(u, k, act) && Fix(t, k, act).Snoc?
            && Fix(u, k, act) == Fix(t, k, act).(prev := peers)
  {
    Descend(t.(prev := peers));
    Descend(t);
  }

  lemma {:induction false} GraftFix(f: Forest, b: nat, t: Forest, k: nat, act: Info)
    requires Open(f, b) && t.Snoc? && t.prev.Empty? && k < SpineLen(t) && CanFix(t, k, act)
    ensures SpineLen(Graft(f, b, t)) == b + SpineLen(t) && At(Graft(f, b, t), b + k) == At(t, k)
    ensures Fix(t, k, act).Snoc? && Fix(t, k, act).prev.Empty?
    ensures Fix(Graft(f, b, t), b + k, act) == Graft(f, b, Fix(t, k, act))
  {
    GraftedAt(f, b, t, k);
    if b == 1 {
      FixPeers(t, f.kids, k, act);
      FixBelow(Graft(f, 1, t), 1 + k, act);
    } else if b > 1 {
      GraftFix(f.kids, b - 1, t, k, act);
      FixBelow(Graft(f, b, t), b + k, act);
    }
  }

  lemma GraftedAt(f: Forest, b: nat, t: Forest, k: nat)
    requires Open(f, b) && t.Snoc? && t.prev.Empty? && k < SpineLen(t)
    ensures SpineLen(Graft(f, b, t)) == b + SpineLen(t) && At(Graft(f, b, t), b + k) == At(t, k)
    ensures b > 1 ==> Open(f.kids, b - 1)
  {
    GraftSpine(f, b, t);
    if b > 1 { Descend(f); }
  }

  lemma FixBelow(f: Forest, d: nat, act: Info)
    requires 0 < d < SpineLen(f) && CanFix(f, d, act)
    ensures CanFix(f.kids, d - 1, act) && Fix(f, d, act) == f.(kids := Fix(f.kids, d - 1, act))
  {
    Descend(f);
  }

  lemma {:induction false} GraftWrap(f: Forest, b: nat, t: Forest, k: nat, act: Info, a: nat)
    requires Open(f, b) && t.Snoc? && t.prev.Empty? && k < SpineLen(t)
    ensures SpineLen(Graft(f, b, t)) == b + SpineLen(t)
    ensures Wrap(t, k, act, a).Snoc? && Wrap(t, k, act, a).prev.Empty?
    ensures Wrap(Graft(f, b, t), b + k, act, a) == Graft(f, b, Wrap(t, k, act, a))
  {
    GraftSpine(f, b, t);
    if b == 1 {
      var u := t.(prev := f.kids);
      Descend(u);
      Descend(t);
      assert Wrap(t, k, act, a).Snoc?;
      assert Wrap(u, k, act, a) == Wrap(t, k, act, a).(prev := f.kids);
    } else if b > 1 {
      GraftWrap(f.kids, b - 1, t, k, act, a);
    }
  }

  lemma {:induction false} AppendIsGraft(f: Forest, c: nat, leaf: Info)
    requires HasRoom(f, c)
    ensures Open(f, c + 1)
    ensures Append(f, c, leaf, 0) == Graft(f, c + 1, Snoc(Empty, 0, leaf, Empty))
  {
    if c > 0 { Descend(f); AppendIsGraft(f.kids, c - 1, leaf); }
  }

  lemma {:induction false} StripGraft(f: Forest, b: nat, t: Forest)
    requires Open(f, b) && t.Snoc? && t.prev.Empty? && Strip(f) == f && Strip(t) == t
    ensures Strip(Graft(f, b, t)) == Graft(f, b, t)
  {
    if b > 1 { Descend(f); StripGraft(f.kids, b - 1, t); }
  }

  // ---------------------------------------------------------------- the open path of a finished chain

  /** Infix operators of rising priority down the rightmost path, ending in a finished
      operand: a word, a closed scope, or prefix operators before one of these. */
  ghost predicate ChainPath(t: Table, f: Forest) {
    f.Snoc? && f.info.rtt < |t.kinds| && f.info.Complete() &&
    match t.kinds[f.info.rtt]
    case Blank => false
    case Word => f.info.Value?
    case Scope(p) => f.info.Operator? && f.info.priority == p
    case Prefix(p) => f.info.Operator? && f.info.priority == p && ChainPath(t, f.kids) && !t.IsInfix(f.kids.info)
    case Infix(p, _) =>
      && f.info == Done(t, f.info.rtt)
      && ChainPath(t, f.kids)
      && (t.IsInfix(f.kids.info) ==> f.kids.info.priority > p)
  }

  ghost function OpenLen(t: Table, f: Forest): (n: nat)
    requires ChainPath(t, f)
    ensures 0 < n <= SpineLen(f)
    decreases f
  {
    if t.kinds[f.info.rtt].Infix? || t.kinds[f.info.rtt].Prefix? then 1 + OpenLen(t, f.kids) else 1
  }

  // How far an infix operator of priority p sinks into the tree.
  ghost function Sink(t: Table, f: Forest, p: nat): (k: nat)
    requires ChainPath(t, f)
    ensures k < OpenLen(t, f)
    decreases f
  {
    if t.kinds[f.info.rtt].Infix? && f.info.priority < p then 1 + Sink(t, f.kids, p) else 0
  }

  lemma {:induction false} PathPriorities(t: Table, f: Forest, op: nat, i: nat)
    requires t.Valid() && ChainPath(t, f) && i < OpenLen(t, f)
    requires op < |t.kinds| && t.kinds[op].Infix?
    ensures At(f, i).Complete()
    ensures At(f, i).WeakerThan(t.InfixInfo(op)) <==> i < Sink(t, f, t.kinds[op].priority)
  {
    Descend(f);
    if i > 0 { PathPriorities(t, f.kids, op, i - 1); }
  }

  // ---------------------------------------------------------------- one more operator on a chain

  /** An infix operator and its right operand, added at the end of a chain: under every
      weaker operator of the rightmost path, around everything else. */
  ghost function Insert(t: Table, f: Forest, op: nat, right: Forest): (g: Forest)
    requires ChainPath(t, f) && op < |t.kinds| && t.kinds[op].Infix? && right.Snoc?
    ensures g.Snoc?
    decreases f
  {
    if t.IsInfix(f.info) && f.info.priority < t.kinds[op].priority then f.(kids := Insert(t, f.kids, op, right))
    else if f.info.rtt == op && t.kinds[op].chained then f.(kids := right.(prev := f.kids))
    else Snoc(f.prev, 0, Done(t, op), right.(prev := f.(prev := Empty)))
  }

  lemma {:induction false} InsertPath(t: Table, f: Forest, op: nat, right: Forest)
    requires t.Valid() && ChainPath(t, f) && op < |t.kinds| && t.kinds[op].Infix?
    requires ChainPath(t, right) && !t.IsInfix(right.info)
    ensures var g := Insert(t, f, op, right);
            && ChainPath(t, g) && g.prev == f.prev && t.IsInfix(g.info)
            && (g.info.rtt == f.info.rtt || g.info.rtt == op)
    decreases f
  {
    assert forall x: Forest, p: Forest :: x.Snoc? && ChainPath(t, x) ==> ChainPath(t, x.(prev := p));
    if t.IsInfix(f.info) && f.info.priority < t.kinds[op].priority {
      InsertPath(t, f.kids, op, right);
    }
  }

  lemma PeersDoNotMatter(t: Table, f: Forest, p: Forest)
    requires ChainPath(t, f)
    ensures ChainPath(t, f.(prev := p)) && OpenLen(t, f.(prev := p)) == OpenLen(t, f)
  {}

  ghost predicate IsOperand(t: Table, f: Forest) {
    ChainPath(t, f) && !t.IsInfix(f.info) && f.prev.Empty?
  }

  ghost predicate ItemsReady(t: Table, items: seq<Item>) {
    forall i :: 0 <= i < |items| ==> ItemOk(t, items[i]) && IsOperand(t, items[i].tree)
  }

  // The operator joins two chains that the reference may join.
  ghost predicate Joins(t: Table, op: nat, left: Forest, right: Forest) {
    && op < |t.kinds| && t.kinds[op].Infix?
    && ChainPath(t, left) && left.prev.Empty? && (left.info.rtt == op ==> left.info == Done(t, op))
    && ChainPath(t, right) && right.prev.Empty?
    && (t.IsInfix(right.info) ==> right.info.priority > t.kinds[op].priority)
  }

  lemma JoinPath(t: Table, op: nat, left: Forest, right: Forest)
    requires Joins(t, op, left, right)
    ensures var f := Join(t, op, left, right);
            ChainPath(t, f) && f.info == Done(t, op)
  {
    PeersDoNotMatter(t, right, left);
    PeersDoNotMatter(t, right, left.kids);
  }

  // Below a weaker operator the insertion goes into the right operand.
  lemma InsertBelow(t: Table, op: nat, left: Forest, right: Forest, op2: nat, x: Forest)
    requires Joins(t, op, left, right) && op2 < |t.kinds| && t.kinds[op2].Infix? && x.Snoc?
    requires t.kinds[op].priority < t.kinds[op2].priority
    requires ChainPath(t, Join(t, op, left, right))
    ensures Insert(t, right, op2, x).Snoc? && Insert(t, right, op2, x).prev == Empty
    ensures Insert(t, Join(t, op, left, right), op2, x) == Join(t, op, left, Insert(t, right, op2, x))
  {
    var p := if left.info.rtt == op && t.kinds[op].chained then left.kids else left;
    PeersDoNotMatter(t, right, p);
    assert Insert(t, right, op2, x).Snoc?;
    assert Insert(t, right.(prev := p), op2, x) == Insert(t, right, op2, x).(prev := p);
  }

  // Around anything that is not weaker, the insertion is a join.
  lemma InsertAround(t: Table, f: Forest, op: nat, x: Forest)
    requires ChainPath(t, f) && f.prev.Empty? && op < |t.kinds| && t.kinds[op].Infix? && x.Snoc?
    requires t.IsInfix(f.info) ==> f.info.priority >= t.kinds[op].priority
    ensures Insert(t, f, op, x) == Join(t, op, f, x)
  {}

  // The root of a built tree is its operand or the operator it was split at.
  ghost predicate Built(t: Table, first: Forest, items: seq<Item>, f: Forest)
    requires forall i :: 0 <= i < |items| ==> ItemOk(t, items[i])
  {
    && ChainPath(t, f) && f.prev.Empty?
    && if items == [] then f == first else f.info == Done(t, items[Split(t, items)].op)
  }

  lemma PartsReady(t: Table, items: seq<Item>, k: nat)
    requires ItemsReady(t, items) && k < |items|
    ensures ItemsReady(t, items[..k]) && ItemsReady(t, items[k + 1..])
    ensures ItemOk(t, items[k]) && IsOperand(t, items[k].tree)
  {}

  lemma SplitJoins(t: Table, first: Forest, items: seq<Item>, k: nat, left: Forest, right: Forest)
    requires t.Valid() && ItemsReady(t, items) && items != [] && k == Split(t, items)
    requires ItemsReady(t, items[..k]) && ItemsReady(t, items[k + 1..])
    requires IsOperand(t, first) && IsOperand(t, items[k].tree)
    requires Built(t, first, items[..k], left) && Built(t, items[k].tree, items[k + 1..], right)
    ensures Joins(t, items[k].op, left, right)
  {
    if k + 1 < |items| {
      var j := Split(t, items[k + 1..]);
      assert items[k + 1..][j] == items[k + 1 + j];
    }
  }

  /** The tree of a chain has its weakest operator at the root and rising priorities down its
      rightmost path. */
  lemma {:induction false} BuildPath(t: Table, first: Forest, items: seq<Item>)
    requires t.Valid() && IsOperand(t, first) && ItemsReady(t, items)
    ensures Built(t, first, items, Build(t, first, items))
    decreases |items|
  {
    if items != [] {
      var k := Split(t, items);
      PartsReady(t, items, k);
      BuildPath(t, first, items[..k]);
      BuildPath(t, items[k].tree, items[k + 1..]);
      var left, right := Build(t, first, items[..k]), Build(t, items[k].tree, items[k + 1..]);
      SplitJoins(t, first, items, k, left, right);
      JoinPath(t, items[k].op, left, right);
    }
  }

  lemma SnocParts(items: seq<Item>, it: Item, k: nat)
    requires k <= |items|
    ensures var all := items + [it];
            && all[..k] == items[..k] && all[k] == (if k < |items| then items[k] else it)
            && all[k + 1..] == if k < |items| then items[k + 1..] + [it] else []
    ensures items[..|items|] == items
  {}

  lemma SplitSnoc(t: Table, items: seq<Item>, it: Item)
    requires ItemsReady(t, items) && ItemsReady(t, items + [it]) && ItemOk(t, it)
    ensures Split(t, items + [it]) ==
            if items == [] || Priority(t, it) <= Priority(t, items[Split(t, items)]) then |items| else Split(t, items)
  {
    SnocParts(items, it, |items|);
  }

  // The new operator is not stronger than the weakest one: the whole chain is its left operand.
  lemma SnocAround(t: Table, first: Forest, items: seq<Item>, it: Item)
    requires t.Valid() && IsOperand(t, first) && ItemsReady(t, items + [it]) && ItemsReady(t, items) && ItemOk(t, it)
    requires items == [] || Priority(t, it) <= Priority(t, items[Split(t, items)])
    requires Built(t, first, items, Build(t, first, items))
    ensures Build(t, first, items + [it]) == Insert(t, Build(t, first, items), it.op, it.tree)
  {
    SnocParts(items, it, |items|);
    SplitSnoc(t, items, it);
    assert Build(t, it.tree, []) == it.tree;
    InsertAround(t, Build(t, first, items), it.op, it.tree);
  }

  // Build, taken apart at the split.
  lemma BuildAt(t: Table, first: Forest, items: seq<Item>, k: nat, before: seq<Item>, after: seq<Item>)
    requires first.Snoc? && first.prev.Empty? && items != [] && forall i :: 0 <= i < |items| ==> ItemOk(t, items[i])
    requires k == Split(t, items) && before == items[..k] && after == items[k + 1..]
    ensures Build(t, first, items) == Join(t, items[k].op, Build(t, first, before), Build(t, items[k].tree, after))
  {}

  // The new operator is stronger: it goes into the right operand of the weakest one.
  lemma SnocBelow(t: Table, first: Forest, items: seq<Item>, it: Item, k: nat, left: Forest, right: Forest)
    requires t.Valid() && IsOperand(t, first) && ItemsReady(t, items + [it]) && ItemsReady(t, items) && ItemOk(t, it)
    requires items != [] && k == Split(t, items) && Priority(t, it) > Priority(t, items[k])
    requires ItemsReady(t, items[..k]) && ItemsReady(t, items[k + 1..]) && ItemsReady(t, items[k + 1..] + [it])
    requires left == Build(t, first, items[..k]) && right == Build(t, items[k].tree, items[k + 1..])
    requires Joins(t, items[k].op, left, right)
    requires Build(t, items[k].tree, items[k + 1..] + [it]) == Insert(t, right, it.op, it.tree)
    ensures ChainPath(t, Build(t, first, items))
    ensures Build(t, first, items + [it]) == Insert(t, Build(t, first, items), it.op, it.tree)
  {
    SnocParts(items, it, k);
    SplitSnoc(t, items, it);
    BuildAt(t, first, items, k, items[..k], items[k + 1..]);
    BuildAt(t, first, items + [it], k, items[..k], items[k + 1..] + [it]);
    JoinPath(t, items[k].op, left, right);
    InsertBelow(t, items[k].op, left, right, it.op, it.tree);
  }

  /** Adding an operator at the end of a chain is what splitting at the weakest operator
      does to the longer chain. */
  lemma {:induction false} BuildSnoc(t: Table, first: Forest, items: seq<Item>, it: Item)
    requires t.Valid() && IsOperand(t, first) && ItemsReady(t, items + [it]) && ItemsReady(t, items)
    requires ItemOk(t, it)
    ensures ChainPath(t, Build(t, first, items))
    ensures Build(t, first, items + [it]) == Insert(t, Build(t, first, items), it.op, it.tree)
    decreases |items|
  {
    BuildPath(t, first, items);
    if items == [] || Priority(t, it) <= Priority(t, items[Split(t, items)]) {
      SnocAround(t, first, items, it);
    } else {
      var k := Split(t, items);
      SnocParts(items, it, k);
      PartsReady(t, items, k);
      PartsReady(t, items + [it], k);
      BuildSnoc(t, items[k].tree, items[k + 1..], it);
      BuildPath(t, first, items[..k]);
      BuildPath(t, items[k].tree, items[k + 1..]);
      var left, right := Build(t, first, items[..k]), Build(t, items[k].tree, items[k + 1..]);
      SplitJoins(t, first, items, k, left, right);
      SnocBelow(t, first, items, it, k, left, right);
    }
  }
}
