/** Height of a tree, and how far the iterative walk of expression_tree::depth() has got. */
module TreeDepth {
  import opened ExpressionForest
  import opened ExpressionArena

  function Max(a: int, b: int): int {
    if a < b then b else a
  }

  // Height of the highest tree of a forest, counted in nodes.
  function Height(f: Forest): nat {
    if f.Empty? then 0 else Max(Height(f.prev), 1 + Height(f.kids))
  }

  // The peers up to and including the i-th.
  function Nth(f: Forest, i: nat): (r: Forest)
    requires i < Count(f)
    ensures r.Snoc? && Count(r) == i + 1
  {
    if i == Count(f) - 1 then f else Nth(f.prev, i)
  }

  // The first i peers.
  function Prefix(f: Forest, i: nat): (r: Forest)
    requires i <= Count(f)
    ensures Count(r) == i
  {
    if i == 0 then Empty else Nth(f, i - 1)
  }

  lemma {:induction false} NthPrefix(f: Forest, i: nat)
    requires i < Count(f)
    ensures Nth(f, i).prev == Prefix(f, i)
  {
    if i < Count(f) - 1 {
      NthPrefix(f.prev, i);
    } else if i > 0 {
      assert Nth(f, i - 1) == Nth(f.prev, i - 1);
    }
  }

  lemma {:induction false} NthRepresented(mem: seq<Node>, f: Forest, i: nat)
    requires i < Count(f) && Represents(mem, f)
    ensures Represents(mem, Nth(f, i))
  {
    if i < Count(f) - 1 { NthRepresented(mem, f.prev, i); }
  }

  ghost predicate ValidPath(f: Forest, path: seq<nat>)
    decreases |path|
  {
    f.Snoc? && (path == [] || (path[0] < Count(f.kids) && ValidPath(Nth(f.kids, path[0]), path[1..])))
  }

  // The node reached from the head of f by following child indices.
  ghost function Walk(f: Forest, path: seq<nat>): (r: Forest)
    requires ValidPath(f, path)
    ensures r.Snoc?
    decreases |path|
  {
    if path == [] then f else Walk(Nth(f.kids, path[0]), path[1..])
  }

  /** Height below the head of f of the part already walked: all that lies before the path,
      and the first `done` children of its end. */
  ghost function Explored(f: Forest, path: seq<nat>, done: nat): nat
    requires ValidPath(f, path) && done <= Count(Walk(f, path).kids)
    decreases |path|
  {
    if path == [] then Height(Prefix(f.kids, done))
    else Max(Height(Prefix(f.kids, path[0])), 1 + Explored(Nth(f.kids, path[0]), path[1..], done))
  }

  // One iteration per visit: once on arrival and once after each child.
  ghost function Visits(f: Forest): nat {
    if f.Empty? then 0 else Visits(f.prev) + 1 + Count(f.kids) + Visits(f.kids)
  }

  ghost function Spent(f: Forest, path: seq<nat>, done: nat): nat
    requires ValidPath(f, path) && done <= Count(Walk(f, path).kids)
    decreases |path|
  {
    if path == [] then done + Visits(Prefix(f.kids, done))
    else path[0] + Visits(Prefix(f.kids, path[0])) + 1 + Spent(Nth(f.kids, path[0]), path[1..], done)
  }

  lemma {:induction false} VisitsOfPrefix(f: Forest, i: nat)
    requires i < Count(f)
    ensures Visits(Prefix(f, i)) + 1 + Count(Nth(f, i).kids) + Visits(Nth(f, i).kids) == Visits(Prefix(f, i + 1))
    ensures Visits(Prefix(f, i + 1)) <= Visits(f)
    ensures Height(Prefix(f, i + 1)) == Max(Height(Prefix(f, i)), 1 + Height(Nth(f, i).kids))
  {
    NthPrefix(f, i);
    assert Prefix(f, i + 1) == Nth(f, i);
    if i < Count(f) - 1 { VisitsOfPrefix(f.prev, i); NthPrefix(f.prev, i); }
  }

  lemma {:induction false} SpentBound(f: Forest, path: seq<nat>, done: nat)
    requires ValidPath(f, path) && done <= Count(Walk(f, path).kids)
    ensures Spent(f, path, done) <= Count(f.kids) + Visits(f.kids)
    decreases |path|
  {
    if path == [] {
      if done > 0 { VisitsOfPrefix(f.kids, done - 1); }
    } else {
      SpentBound(Nth(f.kids, path[0]), path[1..], done);
      VisitsOfPrefix(f.kids, path[0]);
    }
  }

  /** Going down to the next child. */
  lemma {:induction false} Down(f: Forest, path: seq<nat>, next: nat)
    requires ValidPath(f, path) && next < Count(Walk(f, path).kids)
    ensures ValidPath(f, path + [next])
    ensures Walk(f, path + [next]) == Nth(Walk(f, path).kids, next)
    ensures Explored(f, path + [next], 0) == Max(Explored(f, path, next), |path| + 1)
    ensures Spent(f, path + [next], 0) == Spent(f, path, next) + 1
    decreases |path|
  {
    var p := path + [next];
    if path == [] {
      assert p[1..] == [];
    } else {
      assert p[1..] == path[1..] + [next];
      Down(Nth(f.kids, path[0]), path[1..], next);
    }
  }

  /** Going back up from a node all of whose children are done. */
  lemma {:induction false} Up(f: Forest, path: seq<nat>)
    requires ValidPath(f, path) && path != []
    ensures var up, last := path[..|path| - 1], path[|path| - 1];
            && ValidPath(f, up)
            && last + 1 <= Count(Walk(f, up).kids)
            && Explored(f, path, Count(Walk(f, path).kids)) == Explored(f, up, last + 1)
            && Spent(f, path, Count(Walk(f, path).kids)) + 1 == Spent(f, up, last + 1)
    decreases |path|
  {
    var up, last := path[..|path| - 1], path[|path| - 1];
    var child := Nth(f.kids, path[0]);
    if |path| == 1 {
      assert path[1..] == [];
      assert Walk(f, path) == child;
      assert Prefix(child.kids, Count(child.kids)) == child.kids;
      VisitsOfPrefix(f.kids, path[0]);
    } else {
      Up(child, path[1..]);
      assert path[1..][..|path| - 2] == up[1..];
      assert path[1..][|path| - 2] == last;
      assert Walk(f, path) == Walk(child, path[1..]);
    }
  }

  /** The loop invariant of the walk: the path is in the tree, and the deepest level seen is
      that of the part explored. */
  ghost predicate Walking(f: Forest, path: seq<nat>, done: nat, maxDepth: int) {
    && ValidPath(f, path)
    && done <= Count(Walk(f, path).kids)
    && maxDepth - 1 == Explored(f, path, done)
  }

  // Iterations left.
  ghost function Left(f: Forest, path: seq<nat>, done: nat): (n: int)
    requires ValidPath(f, path) && done <= Count(Walk(f, path).kids)
    ensures n > 0
  {
    SpentBound(f, path, done);
    1 + Count(f.kids) + Visits(f.kids) - Spent(f, path, done)
  }

  lemma WalkDown(f: Forest, path: seq<nat>, done: nat, maxDepth: int)
    requires Walking(f, path, done, maxDepth) && done < Count(Walk(f, path).kids)
    ensures Walking(f, path + [done], 0, Max(maxDepth, |path| + 2))
    ensures Left(f, path + [done], 0) < Left(f, path, done)
  {
    Down(f, path, done);
  }

  lemma WalkUp(f: Forest, path: seq<nat>, done: nat, maxDepth: int)
    requires Walking(f, path, done, maxDepth) && done == Count(Walk(f, path).kids) && path != []
    ensures Walking(f, path[..|path| - 1], path[|path| - 1] + 1, maxDepth)
    ensures Left(f, path[..|path| - 1], path[|path| - 1] + 1) < Left(f, path, done)
  {
    Up(f, path);
  }

  lemma WalkEnd(f: Forest, done: nat, maxDepth: int)
    requires Walking(f, [], done, maxDepth) && done == Count(f.kids)
    ensures maxDepth - 1 == Height(f.kids)
  {
    assert Prefix(f.kids, done) == f.kids;
  }
}
