/** expression_tree: the arena, the address stack and the consumed text as fields that
    parse_helper changes in place. The ghost field tree is the forest the arena lays out. */
module ExpressionTree {
  import opened Wrappers
  import opened ExpressionForest
  import opened Placement
  import opened ExpressionArena
  import opened TreeDepth

  class Tree {
    var memory: seq<Node>
    var nodeAddress: seq<nat>
    var expressionString: string
    ghost var tree: Forest

    ghost function View(): State
      reads this
    {
      State(tree, |nodeAddress|)
    }

    /** The memory is one ordered tree that reaches every cell exactly once, each
        previous-peer chain lists exactly the children counted, the address stack is a
        prefix of the rightmost path, and only nodes on it can be incomplete. */
    ghost predicate Valid()
      reads this
    {
      && Represents(memory, tree)
      && Covers(tree, |memory|)
      && Size(tree) == |memory|
      && View().Settled()
      && (forall i :: 0 <= i < |nodeAddress| ==> nodeAddress[i] == AddrAt(tree, i))
    }

    constructor ()
      ensures Valid() && View() == START && expressionString == "" && memory == []
    {
      memory := [];
      nodeAddress := [];
      expressionString := "";
      tree := Empty;
    }

    // item2(i) for an index on the stack.
    function Item(i: nat): (node: Node)
      reads this
      requires Valid() && i < |nodeAddress|
      ensures nodeAddress[i] < |memory| && node == NodeOf(Sub(tree, i))
    {
      SpineOccurs(memory, tree, i);
      memory[nodeAddress[i]]
    }

    /** complete(): looks at the nodes on the address stack only. */
    method IsComplete() returns (r: bool)
      requires Valid()
      ensures r <==> tree.Snoc? && AllComplete(tree)
    {
      CompleteIsExact(View());
      if |memory| == 0 || |nodeAddress| == 0 {
        assert tree.Empty?;
        return false;
      }
      var index := |nodeAddress| - 1;
      while index >= 0
        invariant -1 <= index < |nodeAddress|
        invariant forall k :: index < k < |nodeAddress| ==> At(tree, k).Complete()
      {
        if !Item(index).info.Complete() {
          assert !At(tree, index).Complete();
          return false;
        }
        index := index - 1;
      }
      return true;
    }

    /** The first backward scan of parse_helper. */
    method ScanBack(act: Option<Info>) returns (current: int)
      requires Valid() && |nodeAddress| > 0
      ensures current == Scan(tree, |nodeAddress| - 1, act)
    {
      current := |nodeAddress| - 1;
      while current >= 0
        invariant -1 <= current < |nodeAddress|
        invariant Scan(tree, |nodeAddress| - 1, act) == Scan(tree, current, act)
      {
        var info := Item(current).info;
        if !info.Complete() || (act.Some? && info.Operator? && act.value.Operator?
          && info.priority < act.value.priority) {
          break;
        }
        current := current - 1;
      }
    }

    /** The second scan: an enclosing unfinished operator of the same kind. */
    method ScanSame(start: nat, act: Info) returns (current: nat)
      requires Valid() && start < |nodeAddress| && act.Operator?
      ensures current == var u := Scan(tree, start, None);
                         if u >= 0 && At(tree, u).rtt == act.rtt then u else start
    {
      current := start;
      var index: int := start;
      while index >= 0
        invariant -1 <= index < |nodeAddress|
        invariant Scan(tree, start, None) == Scan(tree, index, None)
      {
        var info := Item(index).info;
        if !info.Complete() {
          if info.rtt == act.rtt {
            current := index;
          }
          break;
        }
        index := index - 1;
      }
    }

    /** The stack is cut back to the current node, whose property then takes in the token. */
    method FixNode(c: nat, act: Info)
      requires Valid() && c < |nodeAddress| && act.Operator? && CanFix(tree, c, act)
      requires forall k :: c < k < |nodeAddress| ==> At(tree, k).Complete()
      modifies this`memory, this`nodeAddress, this`tree
      ensures Valid() && View() == State(Fix(old(tree), c, act), c + 1)
    {
      DropComplete(tree, |nodeAddress|, c + 1);
      FixLayout(memory, tree, c, act);
      SpineOfFix(tree, c, act);
      FixKeepsOffSpine(tree, c, act);
      nodeAddress := nodeAddress[..c + 1];
      var x := nodeAddress[c];
      memory := FixMem(memory, x, act);
      tree := Fix(tree, c, act);
    }

    /** The new operator takes over the current node's place among its peers and in its
        parent's last-child link, and the current node becomes its only child. */
    method WrapNode(c: nat, act: Info)
      requires Valid() && c < |nodeAddress| && act.Operator? && At(tree, c).Complete()
      requires forall k :: c < k < |nodeAddress| ==> At(tree, k).Complete()
      modifies this`memory, this`nodeAddress, this`tree
      ensures Valid() && View() == State(Wrap(old(tree), c, act, Size(old(tree))), c + 1)
    {
      DropComplete(tree, |nodeAddress|, c + 1);
      var x := nodeAddress[c];
      SpineOccurs(memory, tree, c);
      if c > 0 { SpineOccurs(memory, tree, c - 1); SpineInjective(tree, memory, c - 1, c); }
      var parent: int := if c > 0 then nodeAddress[c - 1] else NONE;
      WrapLayout(memory, tree, c, parent, act);
      SpineOfWrap(tree, c, act, |memory|);
      WrapKeepsOffSpine(tree, c, act, |memory|);

      nodeAddress := nodeAddress[..c] + [|memory|];
      memory := WrapMem(memory, x, parent, act);
      tree := Wrap(tree, c, act, |memory| - 1);
    }

    /** The new node becomes the last child of the current one. */
    method AppendNode(c: nat, leaf: Info)
      requires Valid() && c < |nodeAddress| && HasRoom(tree, c)
      requires forall k :: c < k < |nodeAddress| ==> At(tree, k).Complete()
      modifies this`memory, this`nodeAddress, this`tree
      ensures Valid() && View() == State(Append(old(tree), c, leaf, Size(old(tree))), c + 2)
    {
      DropComplete(tree, |nodeAddress|, c + 1);
      AppendLayout(memory, tree, c, leaf);
      SpineOfAppend(tree, c, leaf, |memory|);
      AppendKeepsOffSpine(tree, c, leaf, |memory|);

      var x := nodeAddress[c];
      nodeAddress := nodeAddress[..c + 1] + [|memory|];
      memory := AppendMem(memory, x, leaf);
      tree := Append(tree, c, leaf, |memory| - 1);
    }

    /** The operator part of parse_helper: find the target, then fix or wrap it. */
    method PlaceAct(act: Info) returns (current: nat, placed: bool)
      requires Valid() && |nodeAddress| > 0 && act.Operator?
      modifies this`memory, this`nodeAddress, this`tree
      ensures Valid() && current == Target(old(View()), act) && current < |nodeAddress|
      ensures placed == PlaceOperator(old(View()), act).Some?
      ensures placed ==> View() == PlaceOperator(old(View()), act).value
      ensures !placed ==> memory == old(memory) && nodeAddress == old(nodeAddress) && tree == old(tree)
    {
      var scanned := ScanBack(Some(act));
      if scanned != |nodeAddress| - 1 {
        scanned := scanned + 1;
      }
      current := ScanSame(scanned, act);
      assert current == Target(View(), act);
      placed := true;
      var info := Item(current).info;
      if Extends(act, info) {
        FixNode(current, act);
      } else if info.Complete() {
        WrapNode(current, act);
      } else {
        placed := false;
      }
    }

    /** The value part of parse_helper: append if the current node still takes an operand. */
    method AppendIfRoom(current: int, leaf: Info) returns (placed: bool)
      requires Valid() && -1 <= current < |nodeAddress|
      requires forall k :: current < k < |nodeAddress| ==> At(tree, k).Complete()
      modifies this`memory, this`nodeAddress, this`tree
      ensures Valid() && placed == HasRoom(old(tree), current)
      ensures placed ==> View() == AppendAt(old(View()), current, leaf)
      ensures !placed ==> memory == old(memory) && nodeAddress == old(nodeAddress) && tree == old(tree)
    {
      placed := false;
      if current >= 0 {
        var info := Item(current).info;
        if info.Operator? && info.right > 0 {
          AppendNode(current, leaf);
          placed := true;
        }
      }
    }

    // A value behind the default operator, if there is one.
    method AddValue(leaf: Info, fallback: Option<Info>) returns (success: bool)
      requires Valid() && |nodeAddress| > 0
      requires fallback.Some? ==> fallback.value.Operator? && fallback.value.right > 0
      modifies this`memory, this`nodeAddress, this`tree
      ensures Valid()
      ensures var r := PlaceValue(old(View()), leaf, fallback); success == r.Some? && (r.Some? ==> View() == r.value)
      ensures !success ==> memory == old(memory) && nodeAddress == old(nodeAddress) && tree == old(tree)
    {
      var current: int;
      success := false;
      if fallback.Some? {
        current, success := PlaceAct(fallback.value);
      } else {
        current := ScanBack(None);
      }
      var placed := AppendIfRoom(current, leaf);
      success := success || placed;
    }

    /** parse_helper: places one token, or refuses it and changes nothing. */
    method ParseHelper(tok: Token, fallback: Option<Info>) returns (success: bool)
      requires Valid() && tok.Valid()
      requires fallback.Some? ==> fallback.value.Operator? && fallback.value.right > 0
      modifies this`memory, this`nodeAddress, this`tree
      ensures Valid()
      ensures var r := Place(old(View()), tok, fallback, |expressionString|);
              && success == r.Some?
              && (r.Some? ==> View() == r.value)
      ensures !success ==> memory == old(memory) && nodeAddress == old(nodeAddress) && tree == old(tree)
      ensures tok.placeAs.AsOperator? ==> (success <==> !Blocks(old(View()), tok.info))
      ensures tok.placeAs.AsValue? ==>
                (success <==> old(View()).n == 0 || TakesOperand(old(View()))
                              || (fallback.Some? && !Blocks(old(View()), fallback.value)))
      ensures success && !tok.placeAs.Discard? ==> OnTop(View(), tok, |expressionString|)
    {
      RefusedExactly(View(), tok, fallback, |expressionString|);
      if !tok.placeAs.Discard? { PlacedOnTop(View(), tok, fallback, |expressionString|); }
      if tok.placeAs.Discard? {
        return true;
      }
      var leaf := Located(tok.info, |expressionString|);
      if |nodeAddress| == 0 {
        if tok.placeAs.AsValue? {
          Create(leaf);
        }
        return tok.placeAs.AsValue?;
      }

      if tok.placeAs.AsOperator? {
        var _, placed := PlaceAct(tok.info);
        return placed;
      }
      success := AddValue(leaf, fallback);
    }

    /** child(): follows the previous-peer links back from the last child. */
    method Child(address: nat, childIndex: nat, ghost at: Forest) returns (result: nat)
      requires Represents(memory, at) && at.Snoc? && at.addr == address && childIndex < Count(at.kids)
      ensures result == Nth(at.kids, childIndex).addr
    {
      var last := memory[address].lastChild;
      var count := memory[address].childrenCount;
      result := last;
      ghost var here := at.kids;
      var index := childIndex + 1;
      while index != count
        invariant childIndex + 1 <= index <= count == Count(at.kids)
        invariant here.Snoc? && Count(here) == Count(at.kids) + childIndex + 1 - index
        invariant Represents(memory, here) && result == here.addr
        invariant Nth(here, childIndex) == Nth(at.kids, childIndex)
      {
        result := memory[result].previousPeer;
        here := here.prev;
        index := index + 1;
      }
    }

    /** The node that the walk of depth() has reached. */
    method Locate(track: seq<nat>, ghost start: Forest) returns (address: nat)
      requires Valid() && |nodeAddress| > 0 && start == Sub(tree, |nodeAddress| - 1)
      requires ValidPath(start, track)
      ensures address < |memory| && memory[address] == NodeOf(Walk(start, track))
    {
      SpineOccurs(memory, tree, |nodeAddress| - 1);
      SpineRepresented(memory, tree, |nodeAddress| - 1);
      address := nodeAddress[|nodeAddress| - 1];
      ghost var here := start;
      var index := 0;
      while index != |track|
        invariant 0 <= index <= |track|
        invariant ValidPath(here, track[index..]) && Walk(here, track[index..]) == Walk(start, track)
        invariant Represents(memory, here) && address == here.addr
      {
        assert track[index..][1..] == track[index + 1..];
        NthRepresented(memory, here.kids, track[index]);
        address := Child(address, track[index], here);
        here := Nth(here.kids, track[index]);
        index := index + 1;
      }
      assert track[index..] == [];
    }

    // Turns the odometer at one level and says whether that still names a child.
    static method NextChild(track0: seq<nat>, depth: nat, count: nat) returns (track: seq<nat>, next: int)
      requires depth > 0 && |track0| >= depth - 1
      ensures |track| >= depth - 1 && track[..depth - 1] == track0[..depth - 1]
      ensures var done := if |track0| < depth then 0 else track0[depth - 1] + 1;
              next == if done < count then done else -1
      ensures next != -1 ==> |track| >= depth && track[depth - 1] == next
    {
      track := track0;
      next := -1;
      if count != 0 {
        var childIndex;
        if |track| < depth {
          track := track + [0];
          childIndex := 0;
        } else {
          track := track[depth - 1 := track[depth - 1] + 1];
          childIndex := track[depth - 1];
        }
        if childIndex < count {
          next := childIndex;
        }
      }
    }

    /** depth(): an odometer of child indices instead of recursion. The result is the height
        in edges of the subtree at the top of the address stack. */
    method Depth() returns (result: nat)
      requires Valid()
      ensures result == if |nodeAddress| == 0 then 0 else Height(Sub(tree, |nodeAddress| - 1).kids)
    {
      if |memory| == 0 || |nodeAddress| == 0 {
        return 0;
      }
      ghost var start := Sub(tree, |nodeAddress| - 1);
      var maxDepth, depth := 1, 1;
      var track: seq<nat> := [];
      ghost var path: seq<nat>, done := [], 0;
      while depth != 0
        invariant depth > 0 ==> Walking(start, path, done, maxDepth)
        invariant depth > 0 ==> |path| == depth - 1 <= |track| && track[..depth - 1] == path
        invariant depth > 0 ==> done == if |track| < depth then 0 else track[depth - 1] + 1
        invariant depth == 0 ==> maxDepth - 1 == Height(start.kids)
        decreases if depth > 0 then Left(start, path, done) else 0
      {
        var address := Locate(track[..depth - 1], start);
        var next;
        track, next := NextChild(track, depth, memory[address].childrenCount);
        if next != -1 {
          WalkDown(start, path, done, maxDepth);
          assert track[..depth] == track[..depth - 1] + [next];
          path, done := path + [done], 0;
          depth := depth + 1;
          if maxDepth < depth {
            maxDepth := depth;
          }
          if |track| > depth - 1 {
            track := track[..depth - 1];
          }
        } else {
          depth := depth - 1;
          if depth > 0 {
            WalkUp(start, path, done, maxDepth);
            assert track[..depth][..depth - 1] == track[..depth - 1];
            path, done := path[..depth - 1], path[depth - 1] + 1;
          } else {
            WalkEnd(start, done, maxDepth);
          }
        }
      }
      result := maxDepth - 1;
    }

    method Create(leaf: Info)
      requires Valid() && |nodeAddress| == 0
      modifies this`memory, this`nodeAddress, this`tree
      ensures Valid() && View() == State(Snoc(Empty, 0, leaf, Empty), 1)
    {
      assert tree.Empty?;
      var one := Snoc(Empty, 0, leaf, Empty);
      assert SpineLen(one) == 1 && Size(one) == 1 && AddrAt(one, 0) == 0;
      assert forall a :: Occ(one, a) == if a == 0 then 1 else 0;
      memory := memory + [Node(leaf, 0, NONE, NONE)];
      nodeAddress := nodeAddress + [0];
      tree := one;
    }
  }
}
