/** The flat arena of the expression tree: nodes linked by last-child and previous-peer
    addresses, the stack of addresses into it, and parse_helper, which edits both in place. */
module ExpressionArena {
  import opened ExpressionForest
  import opened Placement

  // T_size_type(-1): no such address.
  const NONE: int := -1

  datatype Node = Node(info: Info, childrenCount: nat, lastChild: int, previousPeer: int)

  function Link(f: Forest): int {
    if f.Empty? then NONE else f.addr
  }

  function NodeOf(f: Forest): Node
    requires f.Snoc?
  {
    Node(f.info, Count(f.kids), Link(f.kids), Link(f.prev))
  }

  /** Every node of the forest lies at its address, and its links are the forest's. */
  ghost predicate Represents(mem: seq<Node>, f: Forest) {
    f.Empty? || (f.addr < |mem| && mem[f.addr] == NodeOf(f) && Represents(mem, f.prev) && Represents(mem, f.kids))
  }

  /** Every cell of an arena of the given size is reached exactly once. */
  ghost predicate Covers(f: Forest, size: nat) {
    forall a: nat :: Occ(f, a) == if a < size then 1 else 0
  }

  ghost predicate NoSharing(f: Forest) {
    forall a: nat :: Occ(f, a) <= 1
  }

  lemma {:induction false} SameCell(mem: seq<Node>, mem': seq<Node>, f: Forest, a: nat)
    requires Represents(mem, f) && Represents(mem', f) && Occ(f, a) > 0
    ensures a < |mem| && a < |mem'| && mem[a] == mem'[a]
  {
    if f.addr != a {
      if Occ(f.prev, a) > 0 { SameCell(mem, mem', f.prev, a); } else { SameCell(mem, mem', f.kids, a); }
    }
  }

  /** A forest has only one arena. */
  lemma ArenaIsUnique(mem: seq<Node>, mem': seq<Node>, f: Forest)
    requires Represents(mem, f) && Covers(f, |mem|)
    requires Represents(mem', f) && Covers(f, |mem'|)
    ensures mem == mem'
  {
    assert Occ(f, |mem|) == 0 && Occ(f, |mem'|) == 0;
    forall a | 0 <= a < |mem|
      ensures mem[a] == mem'[a]
    {
      SameCell(mem, mem', f, a);
    }
  }

  // ---------------------------------------------------------------- layout of the edits

  lemma {:induction false} Frame(mem: seq<Node>, mem': seq<Node>, f: Forest)
    requires Represents(mem, f) && |mem| <= |mem'|
    requires forall a: nat :: a < |mem| && Occ(f, a) > 0 ==> mem'[a] == mem[a]
    ensures Represents(mem', f)
  {
    if f.Snoc? {
      assert Occ(f, f.addr) > 0;
      Frame(mem, mem', f.prev);
      Frame(mem, mem', f.kids);
    }
  }

  lemma {:induction false} SpineOccurs(mem: seq<Node>, f: Forest, d: nat)
    requires d < SpineLen(f) && Represents(mem, f)
    ensures Occ(f, AddrAt(f, d)) >= 1
    ensures AddrAt(f, d) < |mem| && mem[AddrAt(f, d)] == NodeOf(Sub(f, d))
  {
    if d > 0 { SpineOccurs(mem, f.kids, d - 1); }
  }

  lemma {:induction false} SpineRepresented(mem: seq<Node>, f: Forest, d: nat)
    requires d < SpineLen(f) && Represents(mem, f)
    ensures Represents(mem, Sub(f, d))
  {
    if d > 0 { SpineRepresented(mem, f.kids, d - 1); }
  }

  lemma {:induction false} SpineInjective(f: Forest, mem: seq<Node>, d: nat, e: nat)
    requires d < e < SpineLen(f) && Represents(mem, f) && NoSharing(f)
    ensures AddrAt(f, d) != AddrAt(f, e)
  {
    Descend(f);
    assert forall a :: Occ(f.kids, a) <= Occ(f, a);
    if d > 0 {
      SpineInjective(f.kids, mem, d - 1, e - 1);
    } else {
      SpineOccurs(mem, f.kids, e - 1);
      assert Occ(f, f.addr) <= 1;
    }
  }

  function FixMem(mem: seq<Node>, x: nat, act: Info): seq<Node>
    requires x < |mem| && act.Operator? && mem[x].info.Operator? && mem[x].info.property != 0
  {
    mem[x := mem[x].(info := mem[x].info.(right := act.right,
                                          property := PropertyCombine(mem[x].info.property, act.property)))]
  }

  lemma {:induction false} FixLayout(mem: seq<Node>, f: Forest, d: nat, act: Info)
    requires d < SpineLen(f) && Represents(mem, f) && NoSharing(f)
    requires act.Operator? && At(f, d).Operator? && At(f, d).property != 0
    ensures AddrAt(f, d) < |mem| && mem[AddrAt(f, d)].info == At(f, d)
    ensures Represents(FixMem(mem, AddrAt(f, d), act), Fix(f, d, act))
  {
    SpineOccurs(mem, f, d);
    var x := AddrAt(f, d);
    var mem' := FixMem(mem, x, act);
    var g := Fix(f, d, act);
    assert forall a :: Occ(f, a) == Occ(f.prev, a) + (if f.addr == a then 1 else 0) + Occ(f.kids, a);
    assert Occ(f, x) <= 1;
    if d > 0 {
      SpineOccurs(mem, f.kids, d - 1);
      FixLayout(mem, f.kids, d - 1, act);
      SpineOfFix(f.kids, d - 1, act);
      assert Link(g.kids) == Link(f.kids) by { Descend(f.kids); Descend(g.kids); }
    } else {
      Frame(mem, mem', f.kids);
    }
    Frame(mem, mem', f.prev);
  }

  /** The wrapped node loses its peers to the new operator; its parent, if it is not the
      root, now ends its children with the new operator. */
  function WrapMem(mem: seq<Node>, x: nat, parent: int, act: Info): seq<Node>
    requires x < |mem| && parent < |mem|
  {
    var m1 := mem[x := mem[x].(previousPeer := NONE)];
    var m2 := if parent >= 0 then m1[parent := m1[parent].(lastChild := |mem|)] else m1;
    m2 + [Node(act, 1, x, mem[x].previousPeer)]
  }

  lemma {:induction false} WrapLayout(mem: seq<Node>, f: Forest, d: nat, parent: int, act: Info)
    requires d < SpineLen(f) && Represents(mem, f) && NoSharing(f)
    requires parent < |mem|
    requires if d > 0 then parent == AddrAt(f, d - 1) else parent < 0 || Occ(f, parent) == 0
    ensures AddrAt(f, d) < |mem|
    ensures Represents(WrapMem(mem, AddrAt(f, d), parent, act), Wrap(f, d, act, |mem|))
  {
    SpineOccurs(mem, f, d);
    var x := AddrAt(f, d);
    var mem' := WrapMem(mem, x, parent, act);
    var g := Wrap(f, d, act, |mem|);
    assert forall a :: Occ(f, a) == Occ(f.prev, a) + (if f.addr == a then 1 else 0) + Occ(f.kids, a);
    assert Occ(f, x) <= 1;
    Descend(f);
    if d > 0 {
      SpineOccurs(mem, f.kids, d - 1);
      assert Occ(f, f.addr) <= 1;
      if d > 1 { SpineOccurs(mem, f.kids, d - 2); assert Occ(f, parent) <= 1; }
      WrapLayout(mem, f.kids, d - 1, parent, act);
      WrapHead(f.kids, d - 1, act, |mem|);
      assert mem'[f.addr] == NodeOf(g);
      Frame(mem, mem', f.prev);
    } else {
      WrapHere(mem, f, parent, act);
    }
  }

  lemma WrapHere(mem: seq<Node>, f: Forest, parent: int, act: Info)
    requires f.Snoc? && Represents(mem, f) && NoSharing(f) && parent < |mem|
    requires parent < 0 || Occ(f, parent) == 0
    ensures Represents(WrapMem(mem, f.addr, parent, act), Wrap(f, 0, act, |mem|))
  {
    var mem', node := WrapMem(mem, f.addr, parent, act), f.(prev := Empty);
    assert forall a :: Occ(f, a) == Occ(f.prev, a) + (if f.addr == a then 1 else 0) + Occ(f.kids, a);
    assert Occ(f, f.addr) <= 1;
    Frame(mem, mem', f.kids);
    Frame(mem, mem', f.prev);
    assert mem'[f.addr] == NodeOf(node) && Count(node) == 1;
    assert mem'[|mem|] == NodeOf(Wrap(f, 0, act, |mem|));
  }

  lemma WrapHead(f: Forest, d: nat, act: Info, a: nat)
    requires d < SpineLen(f)
    ensures var g := Wrap(f, d, act, a);
            Count(g) == Count(f) && Link(g) == if d == 0 then a else Link(f)
  {}

  function AppendMem(mem: seq<Node>, x: nat, leaf: Info): seq<Node>
    requires x < |mem| && mem[x].info.Operator? && mem[x].info.right > 0
  {
    mem[x := Node(mem[x].info.(right := mem[x].info.right - 1), mem[x].childrenCount + 1, |mem|, mem[x].previousPeer)]
    + [Node(leaf, 0, NONE, mem[x].lastChild)]
  }

  lemma {:induction false} AppendLayout(mem: seq<Node>, f: Forest, d: nat, leaf: Info)
    requires d < SpineLen(f) && Represents(mem, f) && NoSharing(f) && HasRoom(f, d)
    ensures AddrAt(f, d) < |mem| && mem[AddrAt(f, d)].info == At(f, d)
    ensures Represents(AppendMem(mem, AddrAt(f, d), leaf), Append(f, d, leaf, |mem|))
  {
    SpineOccurs(mem, f, d);
    var x := AddrAt(f, d);
    var mem' := AppendMem(mem, x, leaf);
    var g := Append(f, d, leaf, |mem|);
    assert forall a :: Occ(f, a) == Occ(f.prev, a) + (if f.addr == a then 1 else 0) + Occ(f.kids, a);
    assert Occ(f, x) <= 1;
    if d > 0 {
      SpineOccurs(mem, f.kids, d - 1);
      AppendLayout(mem, f.kids, d - 1, leaf);
      SpineOfAppend(f.kids, d - 1, leaf, |mem|);
      assert Link(g.kids) == Link(f.kids) by { Descend(f.kids); Descend(g.kids); }
      Frame(mem, mem', f.prev);
    } else {
      AppendHere(mem, f, leaf);
    }
  }

  lemma AppendHere(mem: seq<Node>, f: Forest, leaf: Info)
    requires f.Snoc? && Represents(mem, f) && NoSharing(f) && HasRoom(f, 0)
    ensures Represents(AppendMem(mem, f.addr, leaf), Append(f, 0, leaf, |mem|))
  {
    var mem', g := AppendMem(mem, f.addr, leaf), Append(f, 0, leaf, |mem|);
    assert forall a :: Occ(f, a) == Occ(f.prev, a) + (if f.addr == a then 1 else 0) + Occ(f.kids, a);
    assert Occ(f, f.addr) <= 1;
    Frame(mem, mem', f.kids);
    Frame(mem, mem', f.prev);
    assert mem'[|mem|] == NodeOf(g.kids);
  }
}
