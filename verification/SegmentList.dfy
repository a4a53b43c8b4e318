/** The list of growing queues that both the event slots and the channels live in. A segment is
    a queue seen through its permanent indices (AbsoluteQueue.dfy): base is its begin_index,
    cap the size of its buffer. */
module SegmentList {
  import opened Wrappers

  datatype Entry<T> = Entry(closed: bool, data: T)

  datatype Segment<T> = Segment(base: nat, cap: nat, items: seq<Entry<T>>) {
    function End(): nat { base + |items| }
    predicate Has(id: nat) { base <= id < End() }
    predicate Full() { |items| == cap }
  }

  /** Segments cover disjoint, increasing ranges of ids and only the last one can be empty. */
  predicate WellFormed<T>(segs: seq<Segment<T>>) {
    && (forall i :: 0 <= i < |segs| ==> 0 < segs[i].cap && |segs[i].items| <= segs[i].cap)
    && (forall i, j :: 0 <= i < j < |segs| ==> segs[i].End() <= segs[j].base)
    && (forall i :: 0 <= i < |segs| - 1 ==> segs[i].items != [])
  }

  predicate FrontsOpen<T>(segs: seq<Segment<T>>) {
    forall i :: 0 <= i < |segs| && segs[i].items != [] ==> !segs[i].items[0].closed
  }

  // The id that the next entry will get.
  function NextId<T>(segs: seq<Segment<T>>): nat {
    if segs == [] then 0 else segs[|segs| - 1].End()
  }

  function Find<T>(segs: seq<Segment<T>>, id: nat): (r: Option<nat>)
    ensures r.Some? ==> r.value < |segs| && segs[r.value].Has(id)
    ensures r.None? ==> forall i :: 0 <= i < |segs| ==> !segs[i].Has(id)
  {
    if segs == [] then None
    else if segs[|segs| - 1].Has(id) then Some(|segs| - 1)
    else Find(segs[..|segs| - 1], id)
  }

  function Lookup<T>(segs: seq<Segment<T>>, id: nat): Option<Entry<T>> {
    match Find(segs, id)
    case None => None
    case Some(i) => Some(segs[i].items[id - segs[i].base])
  }

  /** An id resolves in at most one segment. */
  lemma ResolvesOnce<T>(segs: seq<Segment<T>>, id: nat, i: nat)
    requires WellFormed(segs) && i < |segs| && segs[i].Has(id)
    ensures Find(segs, id) == Some(i)
    ensures Lookup(segs, id) == Some(segs[i].items[id - segs[i].base])
  {}

  lemma ResolvesNowhere<T>(segs: seq<Segment<T>>, id: nat)
    requires forall i :: 0 <= i < |segs| ==> !segs[i].Has(id)
    ensures Lookup(segs, id) == None
  {}

  lemma IdsAreIssued<T>(segs: seq<Segment<T>>, id: nat)
    requires WellFormed(segs) && Lookup(segs, id).Some?
    ensures id < NextId(segs)
  {
    var i := Find(segs, id).value;
    assert i < |segs| - 1 ==> segs[i].End() <= segs[|segs| - 1].base;
  }

  // ---------------------------------------------------------------- adding

  /** A segment with a free cell at the end of the list: a first one, or one of twice the size
      when the last one is full. */
  function WithRoom<T>(segs: seq<Segment<T>>, initial: nat): (r: seq<Segment<T>>)
    requires WellFormed(segs) && initial > 0
    ensures r != []
  {
    var s := if segs == [] then [Segment(0, initial, [])] else segs;
    var last := s[|s| - 1];
    if last.Full() then s + [Segment(last.End(), 2 * |last.items|, [])] else s
  }

  function Pushed<T>(segs: seq<Segment<T>>, e: Entry<T>): seq<Segment<T>>
    requires segs != []
  {
    var n := |segs| - 1;
    segs[n := segs[n].(items := segs[n].items + [e])]
  }

  // A new empty segment behind a full last one.
  lemma SegmentAdded<T>(segs: seq<Segment<T>>, s: Segment<T>)
    requires WellFormed(segs) && segs != [] && segs[|segs| - 1].items != []
    requires s.base == NextId(segs) && s.cap > 0 && s.items == []
    ensures WellFormed(segs + [s]) && NextId(segs + [s]) == NextId(segs)
    ensures FrontsOpen(segs) ==> FrontsOpen(segs + [s])
  {
    var r, n := segs + [s], |segs|;
    forall i, j | 0 <= i < j < |r|
      ensures r[i].End() <= r[j].base
    {
      if j == n && i < n - 1 { assert segs[i].End() <= segs[n - 1].base; }
    }
  }

  /** Making room issues no id, moves nothing and keeps every existing buffer. */
  lemma RoomMade<T>(segs: seq<Segment<T>>, initial: nat)
    requires WellFormed(segs) && initial > 0
    ensures var r := WithRoom(segs, initial);
            && WellFormed(r) && !r[|r| - 1].Full() && NextId(r) == NextId(segs) && segs <= r
            && (FrontsOpen(segs) ==> FrontsOpen(r))
  {
    if segs != [] && segs[|segs| - 1].Full() {
      var last := segs[|segs| - 1];
      SegmentAdded(segs, Segment(last.End(), 2 * |last.items|, []));
    }
  }

  lemma RoomLookup<T>(segs: seq<Segment<T>>, initial: nat, k: nat)
    requires WellFormed(segs) && initial > 0
    ensures Lookup(WithRoom(segs, initial), k) == Lookup(segs, k)
  {
    var r := WithRoom(segs, initial);
    RoomMade(segs, initial);
    var f := Find(segs, k);
    if f.Some? { ResolvesOnce(r, k, f.value); } else { ResolvesNowhere(r, k); }
  }

  lemma PushedShape<T>(segs: seq<Segment<T>>, e: Entry<T>)
    requires WellFormed(segs) && segs != [] && !segs[|segs| - 1].Full()
    ensures var r := Pushed(segs, e);
            && WellFormed(r) && NextId(r) == NextId(segs) + 1
            && (FrontsOpen(segs) && !e.closed ==> FrontsOpen(r))
            && SameBuffers(segs, r)
  {}

  lemma PushedLookup<T>(segs: seq<Segment<T>>, e: Entry<T>, k: nat)
    requires WellFormed(segs) && segs != [] && !segs[|segs| - 1].Full()
    ensures Lookup(Pushed(segs, e), k) == if k == NextId(segs) then Some(e) else Lookup(segs, k)
  {
    var r := Pushed(segs, e);
    PushedShape(segs, e);
    var f := Find(segs, k);
    if f.Some? {
      IdsAreIssued(segs, k);
      ResolvesOnce(r, k, f.value);
    } else if k == NextId(segs) {
      ResolvesOnce(r, k, |segs| - 1);
    } else {
      ResolvesNowhere(r, k);
    }
  }

  // Room and nothing else.
  lemma RoomShape<T>(segs: seq<Segment<T>>, initial: nat)
    requires WellFormed(segs) && initial > 0
    ensures var r := WithRoom(segs, initial);
            && WellFormed(r) && NextId(r) == NextId(segs) && (FrontsOpen(segs) ==> FrontsOpen(r))
            && |r| >= |segs| && SameBuffers(segs, r[..|segs|])
            && forall k: nat :: Lookup(r, k) == Lookup(segs, k)
  {
    RoomMade(segs, initial);
    forall k: nat ensures Lookup(WithRoom(segs, initial), k) == Lookup(segs, k) { RoomLookup(segs, initial, k); }
  }

  /** Room and a push together: the entry is found under the next id, every other id as before. */
  lemma AddedShape<T>(segs: seq<Segment<T>>, initial: nat, e: Entry<T>)
    requires WellFormed(segs) && initial > 0
    ensures var r := Pushed(WithRoom(segs, initial), e);
            && WellFormed(r) && NextId(r) == NextId(segs) + 1 && (FrontsOpen(segs) && !e.closed ==> FrontsOpen(r))
            && |r| >= |segs| && SameBuffers(segs, r[..|segs|])
            && forall k: nat :: Lookup(r, k) == if k == NextId(segs) then Some(e) else Lookup(segs, k)
  {
    var roomy := WithRoom(segs, initial);
    RoomMade(segs, initial);
    PushedShape(roomy, e);
    forall k: nat
      ensures Lookup(Pushed(roomy, e), k) == if k == NextId(segs) then Some(e) else Lookup(segs, k)
    {
      RoomLookup(segs, initial, k);
      PushedLookup(roomy, e, k);
    }
  }

  // The same segments with the same origins and buffer sizes.
  predicate SameBuffers<T>(segs: seq<Segment<T>>, r: seq<Segment<T>>) {
    |r| == |segs| && forall i :: 0 <= i < |segs| ==> r[i].cap == segs[i].cap && r[i].base == segs[i].base
  }

  // ---------------------------------------------------------------- changing one entry

  function Updated<T>(segs: seq<Segment<T>>, id: nat, e: Entry<T>): seq<Segment<T>>
    requires Find(segs, id).Some?
  {
    var i := Find(segs, id).value;
    segs[i := segs[i].(items := segs[i].items[id - segs[i].base := e])]
  }

  lemma ReplacedShape<T>(segs: seq<Segment<T>>, i: nat, s: Segment<T>)
    requires WellFormed(segs) && i < |segs|
    requires s.base == segs[i].base && s.cap == segs[i].cap && |s.items| == |segs[i].items|
    ensures var r := segs[i := s];
            WellFormed(r) && NextId(r) == NextId(segs) && SameBuffers(segs, r)
  {
    var r := segs[i := s];
    assert forall a :: 0 <= a < |segs| ==> r[a].base == segs[a].base && r[a].End() == segs[a].End();
  }

  lemma ReplacedFronts<T>(segs: seq<Segment<T>>, i: nat, s: Segment<T>)
    requires i < |segs| && FrontsOpen(segs)
    ensures var r := segs[i := s];
            && (forall a :: 0 <= a < |r| && a != i && r[a].items != [] ==> !r[a].items[0].closed)
            && ((s.items != [] ==> !s.items[0].closed) ==> FrontsOpen(r))
  {}

  lemma UpdatedShape<T>(segs: seq<Segment<T>>, id: nat, e: Entry<T>)
    requires WellFormed(segs) && Find(segs, id).Some?
    ensures var r, i := Updated(segs, id, e), Find(segs, id).value;
            && WellFormed(r) && NextId(r) == NextId(segs) && SameBuffers(segs, r)
            && (FrontsOpen(segs) && !e.closed ==> FrontsOpen(r))
            && (FrontsOpen(segs) ==> forall a :: 0 <= a < |r| && a != i && r[a].items != [] ==> !r[a].items[0].closed)
  {
    var i := Find(segs, id).value;
    ReplacedShape(segs, i, segs[i].(items := segs[i].items[id - segs[i].base := e]));
    UpdatedFronts(segs, id, e);
  }

  lemma UpdatedFronts<T>(segs: seq<Segment<T>>, id: nat, e: Entry<T>)
    requires Find(segs, id).Some?
    ensures var r, i := Updated(segs, id, e), Find(segs, id).value;
            && (FrontsOpen(segs) && !e.closed ==> FrontsOpen(r))
            && (FrontsOpen(segs) ==> forall a :: 0 <= a < |r| && a != i && r[a].items != [] ==> !r[a].items[0].closed)
  {
    var i := Find(segs, id).value;
    var s := segs[i].(items := segs[i].items[id - segs[i].base := e]);
    assert s.items[0] == if id == segs[i].base then e else segs[i].items[0];
    if FrontsOpen(segs) { ReplacedFronts(segs, i, s); }
  }

  lemma UpdatedLookup<T>(segs: seq<Segment<T>>, id: nat, e: Entry<T>, k: nat)
    requires WellFormed(segs) && Find(segs, id).Some?
    ensures Lookup(Updated(segs, id, e), k) == if k == id then Some(e) else Lookup(segs, k)
    ensures Find(Updated(segs, id, e), k) == Find(segs, k)
  {
    var r := Updated(segs, id, e);
    UpdatedShape(segs, id, e);
    var f := Find(segs, k);
    if f.Some? { ResolvesOnce(r, k, f.value); } else { ResolvesNowhere(r, k); }
  }

  // ---------------------------------------------------------------- recycling from the front

  function ClosedPrefix<T>(items: seq<Entry<T>>): (n: nat)
    ensures n <= |items|
    ensures forall i :: 0 <= i < n ==> items[i].closed
    ensures n < |items| ==> !items[n].closed
  {
    if items == [] || !items[0].closed then 0 else 1 + ClosedPrefix(items[1..])
  }

  function Trimmed<T>(s: Segment<T>): Segment<T> {
    var n := ClosedPrefix(s.items);
    s.(base := s.base + n, items := s.items[n..])
  }

  /** Segment i loses its closed front entries, and is dropped if nothing is left of it and it
      is not the last one. */
  function Recycled<T>(segs: seq<Segment<T>>, i: nat): seq<Segment<T>>
    requires i < |segs|
  {
    var s := Trimmed(segs[i]);
    if s.items == [] && i + 1 < |segs| then segs[..i] + segs[i + 1..] else segs[i := s]
  }

  lemma TrimmedEntries<T>(segs: seq<Segment<T>>, i: nat)
    requires i < |segs|
    requires forall a :: 0 <= a < |segs| ==> 0 < segs[a].cap && |segs[a].items| <= segs[a].cap
    requires forall a, b :: 0 <= a < b < |segs| ==> segs[a].End() <= segs[b].base
    ensures var r := segs[i := Trimmed(segs[i])];
            && (forall a :: 0 <= a < |r| ==> 0 < r[a].cap && |r[a].items| <= r[a].cap)
            && (forall a, b :: 0 <= a < b < |r| ==> r[a].End() <= r[b].base)
            && NextId(r) == NextId(segs)
  {}

  // What recycling may do to an entry: nothing, or forget it if it is closed.
  ghost predicate KeptOrClosed<T>(before: Option<Entry<T>>, after: Option<Entry<T>>) {
    after == before || (after.None? && before.Some? && before.value.closed)
  }

  lemma RecycledShape<T>(segs: seq<Segment<T>>, i: nat)
    requires WellFormed(segs) && i < |segs|
    requires forall a :: 0 <= a < |segs| && a != i && segs[a].items != [] ==> !segs[a].items[0].closed
    ensures var r := Recycled(segs, i);
            && WellFormed(r) && FrontsOpen(r) && r != [] && NextId(r) == NextId(segs)
  {
    TrimmedEntries(segs, i);
    var t := segs[i := Trimmed(segs[i])];
    assert FrontsOpen(t);
    if t[i].items == [] && i + 1 < |segs| { Erased(t, i); }
  }

  // Dropping an empty segment that is not the last.
  lemma Erased<T>(t: seq<Segment<T>>, i: nat)
    requires i + 1 < |t| && FrontsOpen(t)
    requires forall a :: 0 <= a < |t| ==> 0 < t[a].cap && |t[a].items| <= t[a].cap
    requires forall a, b :: 0 <= a < b < |t| ==> t[a].End() <= t[b].base
    requires forall a :: 0 <= a < |t| - 1 && a != i ==> t[a].items != []
    ensures var r := t[..i] + t[i + 1..];
            WellFormed(r) && FrontsOpen(r) && r != [] && NextId(r) == NextId(t)
  {
    var r := t[..i] + t[i + 1..];
    assert forall a :: 0 <= a < |r| ==> r[a] == t[if a >= i then a + 1 else a];
  }

  /** No buffer is replaced: every segment left is an old one with its old buffer. */
  lemma RecycledBuffers<T>(segs: seq<Segment<T>>, i: nat, a: nat) returns (b: nat)
    requires i < |segs| && a < |Recycled(segs, i)|
    ensures b < |segs| && Recycled(segs, i)[a].cap == segs[b].cap && Recycled(segs, i)[a].End() == segs[b].End()
  {
    b := if Trimmed(segs[i]).items == [] && i + 1 < |segs| && a >= i then a + 1 else a;
  }

  lemma TrimmedItem<T>(s: Segment<T>, k: nat)
    requires s.Has(k) && Trimmed(s).base <= k
    ensures Trimmed(s).Has(k) && Trimmed(s).items[k - Trimmed(s).base] == s.items[k - s.base]
  {}

  lemma StaysInRecycled<T>(segs: seq<Segment<T>>, i: nat, k: nat, f: nat)
    requires WellFormed(segs) && i < |segs| && WellFormed(Recycled(segs, i))
    requires Find(segs, k) == Some(f) && (f == i ==> Trimmed(segs[i]).base <= k)
    ensures Lookup(Recycled(segs, i), k) == Lookup(segs, k)
  {
    if f == i { TrimmedItem(segs[i], k); }
    var a := MovedTo(segs, i, f);
    ResolvesOnce(Recycled(segs, i), k, a);
  }

  // Where a segment that is not dropped goes.
  lemma MovedTo<T>(segs: seq<Segment<T>>, i: nat, f: nat) returns (a: nat)
    requires i < |segs| && f < |segs| && !(f == i && i + 1 < |segs| && Trimmed(segs[i]).items == [])
    ensures a < |Recycled(segs, i)| && Recycled(segs, i)[a] == if f == i then Trimmed(segs[i]) else segs[f]
  {
    a := if Trimmed(segs[i]).items == [] && i + 1 < |segs| && f > i then f - 1 else f;
  }

  lemma RecycledLookup<T>(segs: seq<Segment<T>>, i: nat, k: nat)
    requires WellFormed(segs) && i < |segs| && WellFormed(Recycled(segs, i))
    ensures KeptOrClosed(Lookup(segs, k), Lookup(Recycled(segs, i), k))
  {
    var f := Find(segs, k);
    if f.None? || (f.value == i && k < Trimmed(segs[i]).base) {
      NotInRecycled(segs, i, k);
    } else {
      StaysInRecycled(segs, i, k, f.value);
    }
  }

  // Where a segment that is left comes from.
  lemma ComesFrom<T>(segs: seq<Segment<T>>, i: nat, a: nat) returns (b: nat)
    requires i < |segs| && a < |Recycled(segs, i)|
    ensures b < |segs| && Recycled(segs, i)[a] == if b == i then Trimmed(segs[i]) else segs[b]
  {
    b := if Trimmed(segs[i]).items == [] && i + 1 < |segs| && a >= i then a + 1 else a;
  }

  lemma NotInRecycled<T>(segs: seq<Segment<T>>, i: nat, k: nat)
    requires WellFormed(segs) && i < |segs|
    requires var f := Find(segs, k); f.None? || (f.value == i && k < Trimmed(segs[i]).base)
    ensures Lookup(Recycled(segs, i), k) == None
  {
    var r := Recycled(segs, i);
    forall a | 0 <= a < |r|
      ensures !r[a].Has(k)
    {
      var b := ComesFrom(segs, i, a);
      if b != i && segs[b].Has(k) { ResolvesOnce(segs, k, b); }
    }
    ResolvesNowhere(r, k);
  }

  // ---------------------------------------------------------------- the loops of the source

  /** Forward search for the segment that holds an id. */
  method Search<T>(segs: seq<Segment<T>>, id: nat) returns (r: Option<nat>)
    requires WellFormed(segs)
    ensures r == Find(segs, id)
  {
    for i := 0 to |segs|
      invariant forall j :: 0 <= j < i ==> !segs[j].Has(id)
    {
      if segs[i].Has(id) {
        ResolvesOnce(segs, id, i);
        return Some(i);
      }
    }
    return None;
  }

  /** Backward search, which stops at the first segment at the latest. */
  method SearchBack<T>(segs: seq<Segment<T>>, id: nat) returns (i: nat)
    requires WellFormed(segs) && Find(segs, id).Some?
    ensures i < |segs| && Some(i) == Find(segs, id)
  {
    i := |segs| - 1;
    while i != 0 && !segs[i].Has(id)
      invariant 0 <= i < |segs|
      invariant forall j :: i < j < |segs| ==> !segs[j].Has(id)
    {
      i := i - 1;
    }
    assert segs[Find(segs, id).value].Has(id);
    ResolvesOnce(segs, id, i);
  }

  /** Pops closed entries off the front of segment i and erases it if it is empty and not the last. */
  method Recycle<T>(segs: seq<Segment<T>>, i: nat) returns (r: seq<Segment<T>>)
    requires i < |segs|
    ensures r == Recycled(segs, i)
  {
    var s := segs[i];
    ghost var n := 0;
    assert s.items[0..] == s.items;
    while s.items != [] && s.items[0].closed
      invariant n <= |segs[i].items| && s == segs[i].(base := segs[i].base + n, items := segs[i].items[n..])
      invariant ClosedPrefix(segs[i].items) == n + ClosedPrefix(segs[i].items[n..])
    {
      n := n + 1;
      s := s.(base := s.base + 1, items := s.items[1..]);
    }
    if s.items == [] && i + 1 < |segs| {
      r := segs[..i] + segs[i + 1..];
    } else {
      r := segs[i := s];
    }
  }
}
