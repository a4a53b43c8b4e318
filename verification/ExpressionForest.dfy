/** The data of one expression node, the ordered forest that the arena of
    ExpressionTree.dfy lays out in memory, and the four edits the parser makes on its
    rightmost path. */
module ExpressionForest {

  /** What the source calls expression_data without its links: either a value, which is a
      slice of the consumed text, or an operator with the number of operands it still
      needs (right) and its property. */
  datatype Info =
    | Value(rtt: nat, start: nat, size: nat)
    | Operator(rtt: nat, priority: nat, right: nat, property: nat)
  {
    predicate Complete() {
      Value? || (right == 0 && PropertyFinal(property))
    }

    predicate WeakerThan(act: Info) {
      Operator? && act.Operator? && priority < act.priority
    }
  }

  predicate PropertyCheck(first: nat, second: nat) {
    first != 0 && second % first == 0 && first * first >= second
  }

  function PropertyCombine(first: nat, second: nat): nat
    requires first != 0
  {
    second / first
  }

  predicate PropertyFinal(property: nat) {
    property <= 2
  }

  /** An ordered forest as the source links it: a node, the peers before it (its
      previous_peer chain) and its own children (its last_child chain). addr is the place
      of the node in the arena. */
  datatype Forest =
    | Empty
    | Snoc(prev: Forest, addr: nat, info: Info, kids: Forest)

  // Number of peers in a chain.
  function Count(f: Forest): nat {
    if f.Empty? then 0 else 1 + Count(f.prev)
  }

  // Number of nodes in the forest.
  function Size(f: Forest): nat {
    if f.Empty? then 0 else Size(f.prev) + 1 + Size(f.kids)
  }

  // Number of nodes on the rightmost path.
  function SpineLen(f: Forest): nat {
    if f.Empty? then 0 else 1 + SpineLen(f.kids)
  }

  // The part of the forest headed by the d-th node of the rightmost path.
  function Sub(f: Forest, d: nat): (s: Forest)
    requires d < SpineLen(f)
    ensures s.Snoc?
    ensures d < SpineLen(f) && SpineLen(s) == SpineLen(f) - d
  {
    if d == 0 then f else Sub(f.kids, d - 1)
  }

  function At(f: Forest, d: nat): Info
    requires d < SpineLen(f)
  {
    Sub(f, d).info
  }

  function AddrAt(f: Forest, d: nat): nat
    requires d < SpineLen(f)
  {
    Sub(f, d).addr
  }

  // How often the forest places a node at address a.
  function Occ(f: Forest, a: nat): nat {
    if f.Empty? then 0 else Occ(f.prev, a) + (if f.addr == a then 1 else 0) + Occ(f.kids, a)
  }

  /** The property of the d-th spine node is advanced by one more token of its own kind. */
  function Fix(f: Forest, d: nat, act: Info): (g: Forest)
    requires d < SpineLen(f)
    requires act.Operator? && At(f, d).Operator? && At(f, d).property != 0
    ensures g.Snoc?
  {
    if d == 0 then
      f.(info := f.info.(right := act.right, property := PropertyCombine(f.info.property, act.property)))
    else
      f.(kids := Fix(f.kids, d - 1, act))
  }

  /** A new operator takes the place of the d-th spine node, which becomes its only child. */
  function Wrap(f: Forest, d: nat, act: Info, a: nat): (g: Forest)
    requires d < SpineLen(f)
    ensures g.Snoc?
  {
    if d == 0 then Snoc(f.prev, a, act, f.(prev := Empty)) else f.(kids := Wrap(f.kids, d - 1, act, a))
  }

  /** A new leaf becomes the last child of the d-th spine node, using up one operand. */
  function Append(f: Forest, d: nat, leaf: Info, a: nat): (g: Forest)
    requires d < SpineLen(f)
    requires At(f, d).Operator? && At(f, d).right > 0
    ensures g.Snoc?
  {
    if d == 0 then
      f.(info := f.info.(right := f.info.right - 1), kids := Snoc(f.kids, a, leaf, Empty))
    else
      f.(kids := Append(f.kids, d - 1, leaf, a))
  }

  predicate AllComplete(f: Forest) {
    f.Empty? || (AllComplete(f.prev) && f.info.Complete() && AllComplete(f.kids))
  }

  /** All nodes but the first n of the rightmost path are complete. */
  predicate OffSpineComplete(f: Forest, n: nat) {
    f.Empty? || (AllComplete(f.prev) &&
                 if n == 0 then f.info.Complete() && AllComplete(f.kids) else OffSpineComplete(f.kids, n - 1))
  }

  // Left-to-right list of the values as (start, size).
  function Yield(f: Forest): seq<(nat, nat)> {
    if f.Empty? then []
    else Yield(f.prev) + (if f.info.Value? then [(f.info.start, f.info.size)] else []) + Yield(f.kids)
  }

  // ---------------------------------------------------------------- the edits

  lemma Descend(f: Forest)
    requires f.Snoc?
    ensures At(f, 0) == f.info && AddrAt(f, 0) == f.addr
    ensures forall i {:trigger At(f, i)} :: 0 < i < SpineLen(f) ==> At(f, i) == At(f.kids, i - 1)
    ensures forall i {:trigger AddrAt(f, i)} :: 0 < i < SpineLen(f) ==> AddrAt(f, i) == AddrAt(f.kids, i - 1)
  {}

  lemma {:induction false} SpineOfFix(f: Forest, d: nat, act: Info)
    requires d < SpineLen(f)
    requires act.Operator? && At(f, d).Operator? && At(f, d).property != 0
    ensures var g := Fix(f, d, act);
            && SpineLen(g) == SpineLen(f) && Size(g) == Size(f) && Count(g) == Count(f) && g.prev == f.prev
            && (forall i :: 0 <= i < SpineLen(f) ==> AddrAt(g, i) == AddrAt(f, i))
            && (forall i :: 0 <= i < SpineLen(f) && i != d ==> At(g, i) == At(f, i))
            && At(g, d) == At(f, d).(right := act.right, property := PropertyCombine(At(f, d).property, act.property))
            && (forall a :: Occ(g, a) == Occ(f, a))
            && Yield(g) == Yield(f)
  {
    var g := Fix(f, d, act);
    Descend(f);
    Descend(g);
    if d > 0 { SpineOfFix(f.kids, d - 1, act); }
  }

  lemma {:induction false} SpineOfWrap(f: Forest, d: nat, act: Info, a: nat)
    requires d < SpineLen(f) && act.Operator?
    ensures var g := Wrap(f, d, act, a);
            && SpineLen(g) == SpineLen(f) + 1 && Size(g) == Size(f) + 1 && Count(g) == Count(f) && g.prev == f.prev
            && (forall i :: 0 <= i < d ==> AddrAt(g, i) == AddrAt(f, i) && At(g, i) == At(f, i))
            && AddrAt(g, d) == a && At(g, d) == act
            && (forall x :: Occ(g, x) == Occ(f, x) + if x == a then 1 else 0)
            && Yield(g) == Yield(f)
  {
    var g := Wrap(f, d, act, a);
    Descend(f);
    Descend(g);
    if d > 0 {
      SpineOfWrap(f.kids, d - 1, act, a);
    } else {
      var inner := f.(prev := Empty);
      assert Count(inner) == 1 && Size(inner) == 1 + Size(f.kids) && SpineLen(inner) == SpineLen(f);
      assert forall x :: Occ(inner, x) == (if f.addr == x then 1 else 0) + Occ(f.kids, x);
      assert Yield(inner) == (if f.info.Value? then [(f.info.start, f.info.size)] else []) + Yield(f.kids);
      assert Yield(g) == Yield(f.prev) + [] + Yield(inner);
    }
  }

  lemma {:induction false} SpineOfAppend(f: Forest, d: nat, leaf: Info, a: nat)
    requires d < SpineLen(f)
    requires At(f, d).Operator? && At(f, d).right > 0
    ensures var g := Append(f, d, leaf, a);
            && SpineLen(g) == d + 2 && Size(g) == Size(f) + 1 && Count(g) == Count(f) && g.prev == f.prev
            && (forall i :: 0 <= i <= d ==> AddrAt(g, i) == AddrAt(f, i))
            && (forall i :: 0 <= i < d ==> At(g, i) == At(f, i))
            && At(g, d) == At(f, d).(right := At(f, d).right - 1)
            && AddrAt(g, d + 1) == a && At(g, d + 1) == leaf
            && (forall x :: Occ(g, x) == Occ(f, x) + if x == a then 1 else 0)
            && Yield(g) == Yield(f) + if leaf.Value? then [(leaf.start, leaf.size)] else []
  {
    var g := Append(f, d, leaf, a);
    Descend(f);
    Descend(g);
    if d > 0 {
      SpineOfAppend(f.kids, d - 1, leaf, a);
    } else {
      var last := g.kids;
      assert Size(last) == Size(f.kids) + 1 && SpineLen(last) == 1 && last.kids == Empty;
      assert forall x :: Occ(last, x) == Occ(f.kids, x) + (if a == x then 1 else 0) + Occ(Empty, x);
      assert Yield(last) == Yield(f.kids) + if leaf.Value? then [(leaf.start, leaf.size)] else [];
    }
  }

  // ---------------------------------------------------------------- completeness

  /** The spine-only test of completeness agrees with completeness of every node. */
  lemma {:induction false} SpineTestIsExact(f: Forest, n: nat)
    requires n <= SpineLen(f) && OffSpineComplete(f, n)
    ensures (forall i :: 0 <= i < n ==> At(f, i).Complete()) <==> AllComplete(f)
  {
    if f.Snoc? && n > 0 {
      SpineTestIsExact(f.kids, n - 1);
      Descend(f);
      if forall i :: 0 <= i < n ==> At(f, i).Complete() {
        forall i | 0 <= i < n - 1 ensures At(f.kids, i).Complete() { assert At(f.kids, i) == At(f, i + 1); }
      }
    }
  }

  /** Complete nodes may leave the address stack. */
  lemma {:induction false} DropComplete(f: Forest, n: nat, m: nat)
    requires m <= n <= SpineLen(f) && OffSpineComplete(f, n)
    requires forall i :: m <= i < n ==> At(f, i).Complete()
    ensures OffSpineComplete(f, m)
  {
    if f.Snoc? && n > 0 {
      Descend(f);
      forall i | m - 1 <= i < n - 1 && 0 <= i ensures At(f.kids, i).Complete() { assert At(f.kids, i) == At(f, i + 1); }
      DropComplete(f.kids, n - 1, if m > 0 then m - 1 else 0);
      DropAll(f.kids);
    }
  }

  lemma {:induction false} DropAll(f: Forest)
    ensures OffSpineComplete(f, 0) <==> AllComplete(f)
  {}

  lemma {:induction false} FixKeepsOffSpine(f: Forest, d: nat, act: Info)
    requires d < SpineLen(f) && OffSpineComplete(f, d + 1)
    requires act.Operator? && At(f, d).Operator? && At(f, d).property != 0
    ensures OffSpineComplete(Fix(f, d, act), d + 1)
  {
    if d > 0 { FixKeepsOffSpine(f.kids, d - 1, act); }
  }

  lemma {:induction false} WrapKeepsOffSpine(f: Forest, d: nat, act: Info, a: nat)
    requires d < SpineLen(f) && OffSpineComplete(f, d + 1) && At(f, d).Complete()
    ensures OffSpineComplete(Wrap(f, d, act, a), d + 1)
  {
    if d > 0 { WrapKeepsOffSpine(f.kids, d - 1, act, a); }
  }

  lemma {:induction false} AppendKeepsOffSpine(f: Forest, d: nat, leaf: Info, a: nat)
    requires d < SpineLen(f) && OffSpineComplete(f, d + 1)
    requires At(f, d).Operator? && At(f, d).right > 0
    ensures OffSpineComplete(Append(f, d, leaf, a), d + 2)
  {
    if d > 0 { AppendKeepsOffSpine(f.kids, d - 1, leaf, a); }
  }
}
