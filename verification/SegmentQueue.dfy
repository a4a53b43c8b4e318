/** A segment of SegmentList.dfy is a queue object of AbsoluteQueue.dfy seen through its permanent
    indices, and what is done to segments is done to such queues without a new buffer. */
module SegmentQueue {
  import opened Wrappers
  import opened Modular
  import opened AbsoluteQueue
  import opened SegmentList

  ghost function View<T(0)>(q: Queue<Entry<T>>): Segment<T>
    reads q
  {
    Segment(q.first, q.vec.Length, q.items)
  }

  // Ids are below 2^64, so an index and the id it stands for are the same number.
  ghost predicate Holds<T(0)>(q: Queue<Entry<T>>)
    reads q, q.vec
  {
    q.Valid() && View(q).End() < WORD
  }

  /** A new segment: the constructor with a power of two and the end index of the list. */
  method MakeQueue<T(0)>(cap: nat, end: nat) returns (q: Queue<Entry<T>>)
    requires IsPow2(cap) && 0 < cap <= HALF && end < WORD
    ensures fresh(q) && fresh(q.vec) && Holds(q) && View(q) == Segment(end, cap, [])
  {
    q := new Queue<Entry<T>>(cap, end, 0);
    OnePower(q.vec.Length, cap);
    ModSmall(end, WORD);
  }

  /** push into a segment that is not full keeps the buffer. */
  method PushEntry<T(0)>(q: Queue<Entry<T>>, e: Entry<T>)
    requires Holds(q) && !View(q).Full() && View(q).End() + 1 < WORD
    modifies q, q.vec
    ensures Holds(q) && q.vec == old(q.vec) && View(q) == old(View(q)).(items := old(View(q)).items + [e])
  {
    var _ := q.Push(e);
  }

  /** valid_index on an id says whether the segment has it, and operator[] finds its entry. */
  lemma IndexIsId<T(0)>(q: Queue<Entry<T>>, id: nat)
    requires Holds(q) && id < WORD
    ensures q.ValidIndex(id) <==> View(q).Has(id)
    ensures View(q).Has(id) ==> q.Get(id) == View(q).items[id - View(q).base] && q.Rank(id) == id - q.first
  {
    if q.first <= id {
      ModSmall(id - q.first, WORD);
    } else {
      DivModUnique(id - q.first, WORD, -1, id - q.first + WORD);
    }
  }

  /** Writing one entry keeps the buffer. */
  method WriteEntry<T(0)>(q: Queue<Entry<T>>, id: nat, e: Entry<T>)
    requires Holds(q) && View(q).Has(id)
    modifies q`items, q.vec
    ensures Holds(q) && q.vec == old(q.vec)
    ensures View(q) == old(View(q)).(items := old(View(q)).items[id - old(View(q)).base := e])
  {
    IndexIsId(q, id);
    q.Put(id, e);
  }

  /** Popping closed entries off the front is Trimmed and keeps the buffer. */
  method PopClosed<T(0)>(q: Queue<Entry<T>>)
    requires Holds(q)
    modifies q
    ensures Holds(q) && q.vec == old(q.vec) && View(q) == Trimmed(old(View(q)))
  {
    ghost var was, n := View(q), 0;
    assert was.items[0..] == was.items;
    while q.size != 0 && q.Front().closed
      invariant Holds(q) && q.vec == old(q.vec) && n <= |was.items|
      invariant View(q) == was.(base := was.base + n, items := was.items[n..])
      invariant ClosedPrefix(was.items) == n + ClosedPrefix(was.items[n..])
      decreases q.size
    {
      assert was.items[n..][1..] == was.items[n + 1..];
      q.Pop();
      n := n + 1;
    }
  }

  // WithRoom and Recycled, one step after the other.
  lemma RoomIs<T>(segs: seq<Segment<T>>, initial: nat, s: seq<Segment<T>>)
    requires WellFormed(segs) && initial > 0 && s == if segs == [] then [Segment(0, initial, [])] else segs
    ensures s != [] && s[|s| - 1].cap > 0 && s[|s| - 1].End() == NextId(segs)
    ensures var last := s[|s| - 1];
            WithRoom(segs, initial) == if last.Full() then s + [Segment(last.End(), 2 * |last.items|, [])] else s
  {}

  lemma AddFits<T>(segs: seq<Segment<T>>, initial: nat, s: seq<Segment<T>>)
    requires WellFormed(segs) && initial > 0 && s == WithRoom(segs, initial)
    ensures s != [] && !s[|s| - 1].Full() && s[|s| - 1].End() == NextId(segs)
  {
    RoomMade(segs, initial);
  }

  lemma RecycledIs<T>(segs: seq<Segment<T>>, i: nat, s: seq<Segment<T>>)
    requires i < |segs| && s == segs[i := Trimmed(segs[i])]
    ensures Recycled(segs, i) == if s[i].items == [] && i + 1 < |segs| then s[..i] + s[i + 1..] else s
  {}

  /** The list of queue objects itself, with the calls of the event handler on it. The ghost
      parameters are the segments before a call and after it. */
  class QueueList<T(0)> {
    var queues: seq<Queue<Entry<T>>>

    // Different objects with different buffers.
    ghost predicate Valid()
      reads this, queues, set q | q in queues :: q.vec
    {
      && (forall i :: 0 <= i < |queues| ==> Holds(queues[i]))
      && (forall i, j :: 0 <= i < j < |queues| ==> queues[i] != queues[j] && queues[i].vec != queues[j].vec)
    }

    ghost function Segs(): (segs: seq<Segment<T>>)
      reads this, queues
      ensures |segs| == |queues| && forall i :: 0 <= i < |queues| ==> segs[i] == View(queues[i])
    {
      seq(|queues|, i requires 0 <= i < |queues| reads this, queues => View(queues[i]))
    }

    /** The queue objects, each with the array that its entries lie in. */
    ghost function Parts(): set<(Queue<Entry<T>>, array<Entry<T>>)>
      reads this, queues
    {
      set q | q in queues :: (q, q.vec)
    }

    constructor ()
      ensures Valid() && queues == []
    {
      queues := [];
    }

    /** The forward search, by valid_index. */
    method Search(id: nat, ghost segs: seq<Segment<T>>) returns (r: Option<nat>)
      requires Valid() && Segs() == segs && WellFormed(segs) && id < WORD
      ensures r == Find(segs, id)
    {
      for i := 0 to |queues|
        invariant forall j :: 0 <= j < i ==> !segs[j].Has(id)
      {
        IndexIsId(queues[i], id);
        if queues[i].ValidIndex(id) {
          ResolvesOnce(segs, id, i);
          return Some(i);
        }
      }
      return None;
    }

    /** A queue with a free cell at the end: a new object, if one is needed. */
    method MakeRoom(initial: nat, ghost segs: seq<Segment<T>>, ghost r: seq<Segment<T>>)
      requires Valid() && Segs() == segs && WellFormed(segs) && NextId(segs) <= HALF / 2
      requires IsPow2(initial) && 0 < initial <= HALF && r == WithRoom(segs, initial)
      modifies this
      ensures Valid() && Segs() == r && old(Parts()) <= Parts()
      ensures forall q :: q in queues && q !in old(queues) ==> fresh(q) && fresh(q.vec)
    {
      ghost var s := if segs == [] then [Segment(0, initial, [])] else segs;
      RoomIs(segs, initial, s);
      if queues == [] {
        Append(initial, 0, s);
      }
      GrowIfFull(s, r);
    }

    method GrowIfFull(ghost s: seq<Segment<T>>, ghost r: seq<Segment<T>>)
      requires Valid() && Segs() == s != [] && s[|s| - 1].cap > 0 && s[|s| - 1].End() <= HALF / 2
      requires r == if s[|s| - 1].Full() then s + [Segment(s[|s| - 1].End(), 2 * |s[|s| - 1].items|, [])] else s
      modifies this
      ensures Valid() && Segs() == r && old(Parts()) <= Parts()
      ensures forall q :: q in queues && q !in old(queues) ==> fresh(q) && fresh(q.vec)
    {
      var last := queues[|queues| - 1];
      if last.size == last.vec.Length {
        DoublePow2(last.vec.Length);
        ModSmall(View(last).End(), WORD);
        Append(2 * last.size, last.EndIndex(), r);
      }
    }

    // One more queue object.
    method Append(cap: nat, end: nat, ghost r: seq<Segment<T>>)
      requires Valid() && IsPow2(cap) && 0 < cap <= HALF && end < WORD && r == Segs() + [Segment(end, cap, [])]
      modifies this
      ensures Valid() && Segs() == r && old(Parts()) <= Parts()
      ensures forall q :: q in queues && q !in old(queues) ==> fresh(q) && fresh(q.vec)
    {
      var q := MakeQueue<T>(cap, end);
      queues := queues + [q];
      assert Segs() == r;
    }

    /** Room and a push together: no object that was there goes, and none gets a new buffer. */
    method Add(initial: nat, e: Entry<T>, ghost segs: seq<Segment<T>>, ghost r: seq<Segment<T>>)
      requires Valid() && Segs() == segs && WellFormed(segs) && NextId(segs) <= HALF / 2
      requires IsPow2(initial) && 0 < initial <= HALF && r == Pushed(WithRoom(segs, initial), e)
      modifies this, queues, set q | q in queues :: q.vec
      ensures Valid() && Segs() == r && old(Parts()) <= Parts()
    {
      ghost var roomy := WithRoom(segs, initial);
      AddFits(segs, initial, roomy);
      var last := EndWithRoom(initial, segs, roomy);
      PushAtEnd(last, e, roomy, r);
    }

    // The queue that the next entry goes into.
    method EndWithRoom(initial: nat, ghost segs: seq<Segment<T>>, ghost r: seq<Segment<T>>)
      returns (last: Queue<Entry<T>>)
      requires Valid() && Segs() == segs && WellFormed(segs) && NextId(segs) <= HALF / 2
      requires IsPow2(initial) && 0 < initial <= HALF && r == WithRoom(segs, initial)
      modifies this
      ensures Valid() && Segs() == r && queues != [] && last == queues[|queues| - 1] && old(Parts()) <= Parts()
      ensures last in old(queues) || (fresh(last) && fresh(last.vec))
    {
      MakeRoom(initial, segs, r);
      last := queues[|queues| - 1];
    }

    method PushAtEnd(last: Queue<Entry<T>>, e: Entry<T>, ghost s: seq<Segment<T>>, ghost r: seq<Segment<T>>)
      requires Valid() && Segs() == s != [] && last == queues[|queues| - 1] && r == Pushed(s, e)
      requires !s[|s| - 1].Full() && s[|s| - 1].End() + 1 < WORD
      modifies last, last.vec
      ensures Valid() && Segs() == r && Parts() == old(Parts())
    {
      ghost var n := |queues| - 1;
      PushEntry(last, e);
      forall j | 0 <= j < n
        ensures Holds(queues[j]) && View(queues[j]) == s[j]
      {
        assert queues[j] != queues[n] && queues[j].vec != queues[n].vec;
      }
      assert Segs() == r;
    }

    /** Writing one entry: no object and no buffer is replaced. */
    method Write(i: nat, id: nat, e: Entry<T>, ghost segs: seq<Segment<T>>, ghost r: seq<Segment<T>>)
      requires Valid() && Segs() == segs && Find(segs, id) == Some(i) && r == Updated(segs, id, e)
      modifies queues[i], queues[i].vec
      ensures Valid() && Segs() == r && Parts() == old(Parts())
    {
      WriteAt(i, id, e, segs, segs[i].(items := segs[i].items[id - segs[i].base := e]), r);
    }

    method WriteAt(i: nat, id: nat, e: Entry<T>, ghost segs: seq<Segment<T>>, ghost s: Segment<T>,
                   ghost r: seq<Segment<T>>)
      requires Valid() && Segs() == segs && i < |segs| && segs[i].Has(id) && r == segs[i := s]
      requires s == segs[i].(items := segs[i].items[id - segs[i].base := e])
      modifies queues[i], queues[i].vec
      ensures Valid() && Segs() == r && Parts() == old(Parts())
    {
      WriteEntry(queues[i], id, e);
      forall j | 0 <= j < |queues| && j != i
        ensures Holds(queues[j]) && View(queues[j]) == segs[j]
      {
        assert queues[j] != queues[i] && queues[j].vec != queues[i].vec;
      }
      assert Segs() == r;
    }

    /** An entry is marked, closed entries at the front of its queue are recycled, and the queue is
        erased if it is empty and not the last: what is left are old objects with their old buffers. */
    method Close(i: nat, id: nat, e: Entry<T>, ghost segs: seq<Segment<T>>, ghost r: seq<Segment<T>>)
      requires Valid() && Segs() == segs && Find(segs, id) == Some(i) && r == Recycled(Updated(segs, id, e), i)
      modifies this, queues[i], queues[i].vec
      ensures Valid() && Segs() == r && Parts() <= old(Parts())
    {
      ghost var marked := Updated(segs, id, e);
      ghost var s := marked[i := Trimmed(marked[i])];
      Write(i, id, e, segs, marked);
      RecycledIs(marked, i, s);
      PopFront(i, s);
      if queues[i].size == 0 && i + 1 < |queues| {
        Erase(i, r);
      }
    }

    method PopFront(i: nat, ghost r: seq<Segment<T>>)
      requires Valid() && i < |queues| && r == Segs()[i := Trimmed(Segs()[i])]
      modifies queues[i]
      ensures Valid() && Segs() == r && Parts() == old(Parts())
    {
      ghost var segs := Segs();
      PopClosed(queues[i]);
      forall j | 0 <= j < |queues| && j != i
        ensures Holds(queues[j]) && View(queues[j]) == segs[j]
      {
        assert queues[j] != queues[i];
      }
      assert Segs() == r;
    }

    method Erase(i: nat, ghost r: seq<Segment<T>>)
      requires Valid() && i < |queues| && r == Segs()[..i] + Segs()[i + 1..]
      modifies this
      ensures Valid() && Segs() == r && Parts() <= old(Parts())
    {
      ghost var all := queues;
      queues := queues[..i] + queues[i + 1..];
      assert forall j :: 0 <= j < |queues| ==> queues[j] == all[if j < i then j else j + 1];
      assert Segs() == r;
    }
  }
}
