/** The loop of analyze() that puts the classes of a model into an order in which every class comes
    after the classes it depends on. */
module ClassOrder {
  import opened Wrappers

  // (a, b): class a has a member of type b.
  type Dependencies = set<(string, string)>

  // ---------------------------------------------------------------- cycles

  /** A closed walk through known classes. */
  ghost predicate IsCycle(names: set<string>, deps: Dependencies, walk: seq<string>) {
    |walk| >= 2 && walk[0] == walk[|walk| - 1] && IsWalk(names, deps, walk)
  }

  ghost predicate Cyclic(names: set<string>, deps: Dependencies) {
    exists walk :: IsCycle(names, deps, walk)
  }

  ghost predicate IsWalk(names: set<string>, deps: Dependencies, walk: seq<string>) {
    && (forall i :: 0 <= i < |walk| ==> walk[i] in names)
    && forall i :: 0 <= i < |walk| - 1 ==> (walk[i], walk[i + 1]) in deps
  }

  /** Every class left needs another one that is left. */
  ghost predicate Stuck(left: set<string>, deps: Dependencies) {
    forall a :: a in left ==> Needs(left, deps, a)
  }

  ghost predicate Needs(left: set<string>, deps: Dependencies, a: string) {
    exists b :: b in left && (a, b) in deps
  }

  ghost predicate Distinct(s: seq<string>) {
    forall i, j :: 0 <= i < j < |s| ==> s[i] != s[j]
  }

  ghost function Elements(s: seq<string>): set<string> {
    set i | 0 <= i < |s| :: s[i]
  }

  lemma ElementsOfSnoc(s: seq<string>, x: string)
    ensures Elements(s + [x]) == Elements(s) + {x}
  {
    assert (s + [x])[|s|] == x;
    forall y | y in Elements(s) ensures y in Elements(s + [x]) {
      var i :| 0 <= i < |s| && s[i] == y;
      assert (s + [x])[i] == y;
    }
  }

  // From the k-th class of a walk to its end and back.
  lemma Close(left: set<string>, deps: Dependencies, walk: seq<string>, k: nat)
    requires IsWalk(left, deps, walk) && k < |walk| && (walk[|walk| - 1], walk[k]) in deps
    ensures IsCycle(left, deps, walk[k..] + [walk[k]])
  {
    var cycle := walk[k..] + [walk[k]];
    forall i | 0 <= i < |cycle| - 1
      ensures (cycle[i], cycle[i + 1]) in deps
    {
      if k + i + 1 < |walk| { assert (walk[k + i], walk[k + i + 1]) in deps; }
    }
  }

  lemma Extend(left: set<string>, deps: Dependencies, walk: seq<string>, b: string)
    requires IsWalk(left, deps, walk) && walk != [] && b in left && (walk[|walk| - 1], b) in deps
    ensures IsWalk(left, deps, walk + [b])
  {
    var longer := walk + [b];
    forall i | 0 <= i < |longer| - 1
      ensures (longer[i], longer[i + 1]) in deps
    {
      if i + 1 < |walk| { assert (walk[i], walk[i + 1]) in deps; }
    }
  }

  lemma DistinctSnoc(s: seq<string>, x: string)
    requires Distinct(s) && forall k :: 0 <= k < |s| ==> s[k] != x
    ensures Distinct(s + [x])
  {}

  // A walk without repetition goes on as long as there are classes left; then it closes.
  lemma {:induction false} WalkCloses(left: set<string>, deps: Dependencies, walk: seq<string>)
    requires Stuck(left, deps) && walk != [] && IsWalk(left, deps, walk) && Distinct(walk)
    ensures Cyclic(left, deps)
    decreases |left - Elements(walk)|
  {
    assert Needs(left, deps, walk[|walk| - 1]);
    var b :| b in left && (walk[|walk| - 1], b) in deps;
    if k :| 0 <= k < |walk| && walk[k] == b {
      Close(left, deps, walk, k);
    } else {
      Extend(left, deps, walk, b);
      DistinctSnoc(walk, b);
      ElementsOfSnoc(walk, b);
      assert b in left - Elements(walk);
      assert left - Elements(walk + [b]) < left - Elements(walk);
      Smaller(left - Elements(walk + [b]), left - Elements(walk));
      WalkCloses(left, deps, walk + [b]);
    }
  }

  lemma Smaller(a: set<string>, b: set<string>)
    requires a < b
    ensures |a| < |b|
  {
    assert b == a + (b - a) && |b| == |a| + |b - a|;
  }

  // ---------------------------------------------------------------- orders

  /** Every known class stands once, behind the known classes it depends on. */
  ghost predicate IsOrder(names: set<string>, deps: Dependencies, order: seq<string>) {
    && Elements(order) == names && Distinct(order)
    && DependenciesFirst(names, deps, order)
  }

  ghost predicate DependenciesFirst(names: set<string>, deps: Dependencies, order: seq<string>) {
    forall j, b :: 0 <= j < |order| && b in names && (order[j], b) in deps ==> b in order[..j]
  }

  // Along a walk the positions in an order fall.
  lemma {:induction false} PositionsFall(names: set<string>, deps: Dependencies, order: seq<string>,
                                         walk: seq<string>, i: nat, start: nat)
    returns (j: nat)
    requires IsOrder(names, deps, order) && IsWalk(names, deps, walk) && i < |walk|
    requires start < |order| && order[start] == walk[0]
    ensures j < |order| && order[j] == walk[i] && j + i <= start
  {
    if i == 0 {
      j := start;
    } else {
      var k := PositionsFall(names, deps, order, walk, i - 1, start);
      assert (walk[i - 1], walk[i - 1 + 1]) in deps;
      assert walk[i] in order[..k];
      j :| 0 <= j < k && order[j] == walk[i];
    }
  }

  lemma OrderHasNoCycle(names: set<string>, deps: Dependencies, order: seq<string>)
    requires IsOrder(names, deps, order)
    ensures !Cyclic(names, deps)
  {
    if walk :| IsCycle(names, deps, walk) {
      assert walk[0] in Elements(order);
      var start :| 0 <= start < |order| && order[start] == walk[0];
      var j := PositionsFall(names, deps, order, walk, |walk| - 1, start);
    }
  }

  // ---------------------------------------------------------------- the loop

  // Erases what is not needed by a known class.
  method CleanUp(names: set<string>, deps0: Dependencies) returns (deps: Dependencies)
    ensures deps == set d | d in deps0 && d.1 in names
  {
    deps := deps0;
    var rest := deps0;
    while rest != {}
      invariant rest <= deps0 && deps == set d | d in deps0 && (d in rest || d.1 in names)
      decreases rest
    {
      var d :| d in rest;
      if d.1 !in names {
        deps := deps - {d};
      }
      rest := rest - {d};
    }
  }

  // Erases every dependency on a class that has been written.
  method EraseAll(deps0: Dependencies, name: string) returns (deps: Dependencies)
    ensures deps == set d | d in deps0 && d.1 != name
  {
    deps := deps0;
    var rest := deps0;
    while rest != {}
      invariant rest <= deps0 && deps == set d | d in deps0 && (d in rest || d.1 != name)
      decreases rest
    {
      var d :| d in rest;
      if d.1 == name {
        deps := deps - {d};
      }
      rest := rest - {d};
    }
  }

  /** What holds all along: `left` is to be written, `deps` are the dependencies on it, and
      `order` is an order of the rest. */
  ghost predicate Progress(names: set<string>, deps0: Dependencies, left: set<string>, deps: Dependencies,
                           order: seq<string>) {
    && left <= names && Elements(order) == names - left && Distinct(order)
    && deps == (set d | d in deps0 && d.1 in left)
    && DependenciesFirst(names, deps0, order)
  }

  lemma Advance(names: set<string>, deps0: Dependencies, left: set<string>, deps: Dependencies, order: seq<string>,
                name: string)
    requires Progress(names, deps0, left, deps, order) && name in left
    requires forall d :: d in deps ==> d.0 != name
    ensures Progress(names, deps0, left - {name}, (set d | d in deps && d.1 != name), order + [name])
  {
    var longer := order + [name];
    ElementsOfSnoc(order, name);
    assert name !in Elements(order);
    forall j, b | 0 <= j < |longer| && b in names && (longer[j], b) in deps0
      ensures b in longer[..j]
    {
      if j < |order| {
        assert longer[..j] == order[..j];
      } else {
        assert (name, b) !in deps && b in Elements(order);
        assert longer[..j] == order;
      }
    }
  }

  /** The ordering loop: it ends, with an order of all classes, or by giving up, and it gives up
      exactly when the dependencies between known classes have a cycle. */
  method Order(names: set<string>, deps0: Dependencies) returns (result: Option<seq<string>>)
    ensures result.Some? ==> IsOrder(names, deps0, result.value)
    ensures result.None? <==> Cyclic(names, deps0)
  {
    var deps := CleanUp(names, deps0);
    var left, order := names, [];
    while left != {}
      invariant Progress(names, deps0, left, deps, order)
      decreases left
    {
      var noProgress := true;
      var todo := left;
      ghost var before := left;
      while todo != {}
        invariant Progress(names, deps0, left, deps, order) && todo <= left <= before
        invariant noProgress <==> left == before
        invariant noProgress ==> forall a :: a in before - todo ==> Needs(before, deps0, a)
        decreases todo
      {
        var name :| name in todo;
        todo := todo - {name};
        if d :| d in deps && d.0 == name {
          assert d.1 in left && (name, d.1) in deps0;
        } else {
          Advance(names, deps0, left, deps, order, name);
          order := order + [name];
          left := left - {name};
          noProgress := false;
          deps := EraseAll(deps, name);
        }
      }
      if noProgress {
        var a :| a in left;
        WalkCloses(left, deps0, [a]);
        ghost var walk :| IsCycle(left, deps0, walk);
        assert IsCycle(names, deps0, walk);
        return None;
      }
    }
    OrderHasNoCycle(names, deps0, order);
    return Some(order);
  }
}
