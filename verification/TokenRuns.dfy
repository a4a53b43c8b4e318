/** Runs of the parser over tokens of an operator table: what every tree has that an accepted run
    can build, and what the complete ones have in addition. */
module TokenRuns {
  import opened Wrappers
  import opened ExpressionForest
  import opened Placement
  import opened OperatorTable

  /** A token together with the length of the text consumed before it. */
  datatype Fed = Fed(tok: Token, at: nat)

  ghost function PlaceFed(t: Table, s: State, step: Fed): (r: Option<State>)
    requires t.Valid() && s.Settled() && step.tok.Valid()
    ensures r.Some? ==> r.value.Settled()
  {
    PlaceKeeps(s, step.tok, t.Fallback(), step.at);
    Place(s, step.tok, t.Fallback(), step.at)
  }

  // The state after all tokens, or None once one of them finds no place.
  ghost function Run(t: Table, s: State, steps: seq<Fed>): (r: Option<State>)
    requires t.Valid() && s.Settled() && forall i :: 0 <= i < |steps| ==> steps[i].tok.Valid()
    ensures r.Some? ==> r.value.Settled()
  {
    if steps == [] then Some(s) else
    var m := Run(t, s, steps[..|steps| - 1]);
    if m.None? then None else PlaceFed(t, m.value, steps[|steps| - 1])
  }

  ghost predicate FromTable(t: Table, steps: seq<Fed>) {
    forall i :: 0 <= i < |steps| ==> steps[i].tok.Valid() && t.Produces(steps[i].tok)
  }

  function Counted(steps: seq<Fed>, r: nat): nat {
    if steps == [] then 0
    else Counted(steps[..|steps| - 1], r) + CountsAs(steps[|steps| - 1].tok, r)
  }

  /** Every tree that any accepted sequence of table tokens can build has the table's arity and
      priority order. */
  lemma {:induction false} RunOk(t: Table, steps: seq<Fed>)
    requires t.Valid() && FromTable(t, steps)
    ensures var out := Run(t, START, steps);
            out.Some? ==> t.StateOk(out.value)
  {
    if steps != [] {
      var front, last := steps[..|steps| - 1], steps[|steps| - 1];
      RunOk(t, front);
      var m := Run(t, START, front);
      if m.Some? { t.PlaceOk(m.value, last.tok, last.at, 0); }
    }
  }

  /** And each scope token read is accounted for by exactly one scope node. */
  lemma {:induction false} RunCounts(t: Table, steps: seq<Fed>, r: nat)
    requires t.Valid() && FromTable(t, steps) && t.IsScope(r)
    ensures var out := Run(t, START, steps);
            out.Some? ==> t.ScopeTokens(out.value.root, r) == Counted(steps, r)
  {
    if steps != [] {
      var front, last := steps[..|steps| - 1], steps[|steps| - 1];
      RunOk(t, front);
      RunCounts(t, front, r);
      var m := Run(t, START, front);
      if m.Some? { t.PlaceOk(m.value, last.tok, last.at, r); }
    }
  }

  lemma {:induction false} CompleteScopes(t: Table, f: Forest, r: nat)
    requires t.TreeOk(f) && AllComplete(f) && t.IsScope(r)
    ensures t.ScopeTokens(f, r) == 2 * t.ScopeNodes(f, r)
  {
    if f.Snoc? {
      CompleteScopes(t, f.prev, r);
      CompleteScopes(t, f.kids, r);
    }
  }

  /** When the parser reports a complete tree, the scope tokens of each kind that it accepted
      are exactly two for every scope node of that kind. */
  lemma BalancedWhenComplete(t: Table, steps: seq<Fed>, r: nat)
    requires t.Valid() && FromTable(t, steps) && t.IsScope(r)
    ensures var out := Run(t, START, steps);
            out.Some? && out.value.Complete() ==> Counted(steps, r) == 2 * t.ScopeNodes(out.value.root, r)
  {
    RunOk(t, steps);
    RunCounts(t, steps, r);
    var out := Run(t, START, steps);
    if out.Some? {
      CompleteIsExact(out.value);
      if out.value.Complete() { CompleteScopes(t, out.value.root, r); }
    }
  }

  /** The meaning of a complete node: what its children are. */
  predicate CompleteArity(t: Table, info: Info, children: nat) {
    info.rtt < |t.kinds| &&
    match t.kinds[info.rtt]
    case Blank => false
    case Word => children == 0
    case Infix(_, chained) => if chained then children >= 2 else children == 2
    case Prefix(_) => children == 1
    case Scope(_) => children <= 1
  }

  ghost predicate Arity(t: Table, f: Forest) {
    f.Empty? || (Arity(t, f.prev) && CompleteArity(t, f.info, Count(f.kids)) && Arity(t, f.kids))
  }

  lemma {:induction false} CompleteArities(t: Table, f: Forest)
    requires t.TreeOk(f) && AllComplete(f)
    ensures Arity(t, f)
  {
    if f.Snoc? {
      CompleteArities(t, f.prev);
      CompleteArities(t, f.kids);
    }
  }

  /** Every complete tree that a run can build has the arities of the table. */
  lemma CompleteRun(t: Table, steps: seq<Fed>)
    requires t.Valid() && FromTable(t, steps)
    ensures var out := Run(t, START, steps);
            out.Some? && out.value.Complete() ==> Arity(t, out.value.root)
  {
    RunOk(t, steps);
    var out := Run(t, START, steps);
    if out.Some? {
      CompleteIsExact(out.value);
      if out.value.Complete() { CompleteArities(t, out.value.root); }
    }
  }
}
