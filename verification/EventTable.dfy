/** event_handler_impl: the table of event slots. */
module EventTable {
  import opened Wrappers
  import opened Strings
  import opened Modular
  import opened SegmentList
  import opened SegmentQueue

  // m_item_id and the event item (a socket) that owns it.
  datatype Slot = Slot(itemId: nat, owner: nat)

  const FIRST_SLOTS: nat := 16

  /** Slot id is closed, and may be forgotten together with other closed slots; nothing else happened. */
  ghost predicate SlotClosed(ids: seq<Segment<Slot>>, ids': seq<Segment<Slot>>, id: nat)
    requires Lookup(ids, id).Some?
  {
    && (forall k: nat :: k != id ==> KeptOrClosed(Lookup(ids, k), Lookup(ids', k)))
    && (Lookup(ids', id).None? || Lookup(ids', id) == Some(Entry(true, Lookup(ids, id).value.data)))
  }

  // One entry is overwritten.
  lemma WrittenShape(ids: seq<Segment<Slot>>, id: nat, e: Entry<Slot>)
    requires WellFormed(ids) && Find(ids, id).Some?
    ensures var r := Updated(ids, id, e);
            && WellFormed(r) && NextId(r) == NextId(ids) && (FrontsOpen(ids) && !e.closed ==> FrontsOpen(r))
            && forall k: nat :: Lookup(r, k) == if k == id then Some(e) else Lookup(ids, k)
  {
    UpdatedShape(ids, id, e);
    forall k: nat
      ensures Lookup(Updated(ids, id, e), k) == if k == id then Some(e) else Lookup(ids, k)
    {
      UpdatedLookup(ids, id, e, k);
    }
  }

  // A slot is marked closed, and closed slots may be recycled.
  lemma RemovedShape(ids: seq<Segment<Slot>>, id: nat, slot: Slot)
    requires WellFormed(ids) && FrontsOpen(ids) && Lookup(ids, id) == Some(Entry(false, slot))
    ensures var marked := Updated(ids, id, Entry(true, slot));
            && WellFormed(marked) && NextId(marked) == NextId(ids) && SlotClosed(ids, marked, id)
    ensures var r := Recycled(Updated(ids, id, Entry(true, slot)), Find(ids, id).value);
            && WellFormed(r) && FrontsOpen(r) && NextId(r) == NextId(ids) && SlotClosed(ids, r, id)
  {
    var marked, i := Updated(ids, id, Entry(true, slot)), Find(ids, id).value;
    WrittenShape(ids, id, Entry(true, slot));
    UpdatedShape(ids, id, Entry(true, slot));
    RecycledShape(marked, i);
    forall k: nat
      ensures KeptOrClosed(Lookup(marked, k), Lookup(Recycled(marked, i), k))
    {
      RecycledLookup(marked, i, k);
    }
  }

  /** All ids handed out are below the next one, and only they are valid. */
  ghost predicate Tracks(ids: seq<Segment<Slot>>, issued: set<nat>) {
    && (forall k :: k in issued ==> k < NextId(ids))
    && (forall k: nat :: Lookup(ids, k).Some? ==> k in issued)
  }

  lemma ClosedTracks(ids: seq<Segment<Slot>>, ids': seq<Segment<Slot>>, id: nat, issued: set<nat>)
    requires Lookup(ids, id).Some? && SlotClosed(ids, ids', id) && NextId(ids') == NextId(ids)
    ensures Tracks(ids, issued) ==> Tracks(ids', issued)
  {
    forall k: nat | Lookup(ids', k).Some?
      ensures Lookup(ids, k).Some?
    {
      if k != id { assert KeptOrClosed(Lookup(ids, k), Lookup(ids', k)); }
    }
  }

  lemma AddedTracks(ids: seq<Segment<Slot>>, ids': seq<Segment<Slot>>, e: Entry<Slot>, issued: set<nat>)
    requires NextId(ids') == NextId(ids) + 1
    requires forall k: nat :: Lookup(ids', k) == if k == NextId(ids) then Some(e) else Lookup(ids, k)
    ensures Tracks(ids, issued) ==> Tracks(ids', issued + {NextId(ids)})
  {}

  class EventHandler {
    var ids: seq<Segment<Slot>>
    // Every id that add has handed out so far.
    ghost var issued: set<nat>

    constructor ()
      ensures Valid() && ids == [] && issued == {}
    {
      ids := [];
      issued := {};
    }

    /** Segments cover disjoint increasing ranges; every id handed out is below the next one,
        and only such ids are valid. */
    ghost predicate Shape()
      reads this
    {
      WellFormed(ids) && Tracks(ids, issued)
    }

    ghost predicate Valid()
      reads this
    {
      Shape() && FrontsOpen(ids)
    }

    /** add without reuse: a new id above all earlier ones. pollOk says whether the poller
        accepted the handle; if it did not, add throws and no id is issued. */
    method Add(slot: Slot, pollOk: bool) returns (r: Option<nat>)
      requires Valid()
      modifies this
      ensures Valid() && r.Some? == pollOk
      ensures pollOk ==>
                && r == Some(NextId(old(ids))) && issued == old(issued) + {r.value}
                && (forall k :: k in old(issued) ==> k < r.value)
                && ids == Pushed(WithRoom(old(ids), FIRST_SLOTS), Entry(false, slot))
      ensures !pollOk ==> issued == old(issued) && ids == WithRoom(old(ids), FIRST_SLOTS)
      ensures forall k :: Lookup(ids, k) == if pollOk && k == NextId(old(ids)) then Some(Entry(false, slot))
              else Lookup(old(ids), k)
      ensures |ids| >= |old(ids)| && SameBuffers(old(ids), ids[..|old(ids)|])
    {
      ghost var before := ids;
      RoomMade(ids, FIRST_SLOTS);
      ids := WithRoom(ids, FIRST_SLOTS);
      var id := NextId(ids);
      if !pollOk {
        RoomShape(before, FIRST_SLOTS);
        return None;
      }
      AddedShape(before, FIRST_SLOTS, Entry(false, slot));
      ids := Pushed(ids, Entry(false, slot));
      AddedTracks(before, ids, Entry(false, slot), issued);
      issued := issued + {id};
      return Some(id);
    }

    /** remove: throws (false) unless the id names an open slot. With keepSlot the slot is only
        marked; otherwise closed slots are recycled from the front of its segment. */
    method Remove(id: nat, keepSlot: bool) returns (ok: bool)
      requires Valid()
      modifies this`ids
      ensures Shape() && (keepSlot || Valid())
      ensures ok == (Lookup(old(ids), id).Some? && !Lookup(old(ids), id).value.closed)
      ensures !ok ==> ids == old(ids)
      ensures ok ==>
                var marked := Updated(old(ids), id, Entry(true, Lookup(old(ids), id).value.data));
                && ids == (if keepSlot then marked else Recycled(marked, Find(old(ids), id).value))
                && SlotClosed(old(ids), ids, id)
    {
      var i := Search(ids, id);
      if i.None? {
        return false;
      }
      var entry := ids[i.value].items[id - ids[i.value].base];
      if entry.closed {
        return false;
      }
      ghost var before := ids;
      RemovedShape(ids, id, entry.data);
      Close(id, i.value, keepSlot);
      ClosedTracks(before, ids, id, issued);
      return true;
    }

    // Marks the slot and, unless it is kept, recycles.
    method Close(id: nat, i: nat, keepSlot: bool)
      requires Find(ids, id) == Some(i)
      modifies this`ids
      ensures var marked := Updated(old(ids), id, Entry(true, Lookup(old(ids), id).value.data));
              ids == if keepSlot then marked else Recycled(marked, i)
    {
      ids := ids[i := ids[i].(items := ids[i].items[id - ids[i].base := Entry(true,
        ids[i].items[id - ids[i].base].data)])];
      if !keepSlot {
        ids := Recycle(ids, i);
      }
    }

    /** add with reuse: the slot, found from the back of the list, is overwritten in place. */
    method Reuse(id: nat, slot: Slot)
      requires Shape() && Find(ids, id).Some?
      modifies this`ids
      ensures Shape() && ids == Updated(old(ids), id, Entry(false, slot))
    {
      WrittenShape(ids, id, Entry(false, slot));
      var i := SearchBack(ids, id);
      ids := ids[i := ids[i].(items := ids[i].items[id - ids[i].base := Entry(false, slot)])];
    }

    /** Change of interest: remove with keep_slot, then add with reuse_slot. The id stays valid,
        open and the same. */
    method Switch(id: nat, slot: Slot)
      requires Valid() && Lookup(ids, id).Some? && !Lookup(ids, id).value.closed
      modifies this`ids
      ensures Valid() && ids == Updated(old(ids), id, Entry(false, slot))
      ensures forall k :: Lookup(ids, k) == if k == id then Some(Entry(false, slot)) else Lookup(old(ids), k)
    {
      ghost var before := ids;
      var ok := Remove(id, true);
      UpdatedLookup(before, id, Entry(true, Lookup(before, id).value.data), id);
      Reuse(id, slot);
      UpdatedTwice(before, id, Entry(true, Lookup(before, id).value.data), Entry(false, slot));
      UpdatedShape(before, id, Entry(false, slot));
      forall k: nat
        ensures Lookup(ids, k) == if k == id then Some(Entry(false, slot)) else Lookup(before, k)
      {
        UpdatedLookup(before, id, Entry(false, slot), k);
      }
    }
  }

  lemma UpdatedTwice<T>(segs: seq<Segment<T>>, id: nat, a: Entry<T>, b: Entry<T>)
    requires WellFormed(segs) && Find(segs, id).Some?
    ensures Find(Updated(segs, id, a), id).Some?
    ensures Updated(Updated(segs, id, a), id, b) == Updated(segs, id, b)
  {
    UpdatedLookup(segs, id, a, id);
    var i := Find(segs, id).value;
    assert Updated(Updated(segs, id, a), id, b)[i] == Updated(segs, id, b)[i];
  }

  // ---------------------------------------------------------------- the whole life of the table

  /** Calls on the table. */
  datatype Call = AddCall(slot: Slot, pollOk: bool) | RemoveCall(id: nat) | SwitchCall(id: nat, slot: Slot)

  function Apply(ids: seq<Segment<Slot>>, c: Call): seq<Segment<Slot>>
    requires WellFormed(ids)
  {
    match c
    case AddCall(slot, pollOk) =>
      var r := WithRoom(ids, FIRST_SLOTS);
      if pollOk then Pushed(r, Entry(false, slot)) else r
    case RemoveCall(id) =>
      var e := Lookup(ids, id);
      if e.Some? && !e.value.closed
        then Recycled(Updated(ids, id, Entry(true, e.value.data)), Find(ids, id).value) else ids
    case SwitchCall(id, slot) =>
      var e := Lookup(ids, id);
      if e.Some? && !e.value.closed then Updated(ids, id, Entry(false, slot)) else ids
  }

  /** Every call keeps the segments in order, keeps their fronts open, and never takes ids back. */
  lemma ApplyKeeps(ids: seq<Segment<Slot>>, c: Call)
    requires WellFormed(ids) && FrontsOpen(ids)
    ensures var r := Apply(ids, c);
            && WellFormed(r) && FrontsOpen(r)
            && NextId(r) == NextId(ids) + (if c.AddCall? && c.pollOk then 1 else 0)
  {
    match c
    case AddCall(slot, pollOk) =>
      RoomMade(ids, FIRST_SLOTS);
      if pollOk { PushedShape(WithRoom(ids, FIRST_SLOTS), Entry(false, slot)); }
    case RemoveCall(id) =>
      var e := Lookup(ids, id);
      if e.Some? && !e.value.closed {
        UpdatedShape(ids, id, Entry(true, e.value.data));
        RecycledShape(Updated(ids, id, Entry(true, e.value.data)), Find(ids, id).value);
      }
    case SwitchCall(id, slot) =>
      if Lookup(ids, id).Some? { UpdatedShape(ids, id, Entry(false, slot)); }
  }

  function Life(calls: seq<Call>): (ids: seq<Segment<Slot>>)
    ensures WellFormed(ids) && FrontsOpen(ids)
  {
    if calls == [] then [] else
    var before := Life(calls[..|calls| - 1]);
    ApplyKeeps(before, calls[|calls| - 1]);
    Apply(before, calls[|calls| - 1])
  }

  // The number of ids issued, which is the next id.
  function Issued(calls: seq<Call>): nat {
    if calls == [] then 0
    else Issued(calls[..|calls| - 1]) + var c := calls[|calls| - 1]; if c.AddCall? && c.pollOk then 1 else 0
  }

  /** The n-th successful add of a life of the table returns n: ids are never handed out twice. */
  lemma {:induction false} IdsCountAdds(calls: seq<Call>)
    ensures NextId(Life(calls)) == Issued(calls)
  {
    if calls != [] {
      IdsCountAdds(calls[..|calls| - 1]);
      ApplyKeeps(Life(calls[..|calls| - 1]), calls[|calls| - 1]);
    }
  }

  lemma DeadStays(ids: seq<Segment<Slot>>, c: Call, k: nat)
    requires WellFormed(ids) && FrontsOpen(ids) && k < NextId(ids) && Lookup(ids, k).None?
    ensures Lookup(Apply(ids, c), k).None?
  {
    match c
    case AddCall(slot, pollOk) =>
      RoomMade(ids, FIRST_SLOTS);
      RoomLookup(ids, FIRST_SLOTS, k);
      if pollOk { PushedLookup(WithRoom(ids, FIRST_SLOTS), Entry(false, slot), k); }
    case RemoveCall(id) =>
      var e := Lookup(ids, id);
      if e.Some? && !e.value.closed {
        var marked, i := Updated(ids, id, Entry(true, e.value.data)), Find(ids, id).value;
        UpdatedShape(ids, id, Entry(true, e.value.data));
        UpdatedLookup(ids, id, Entry(true, e.value.data), k);
        RecycledShape(marked, i);
        RecycledLookup(marked, i, k);
      }
    case SwitchCall(id, slot) =>
      if Lookup(ids, id).Some? { UpdatedLookup(ids, id, Entry(false, slot), k); }
  }

  lemma LifeSnoc(calls: seq<Call>, c: Call)
    ensures Life(calls + [c]) == Apply(Life(calls), c)
  {
    LastApart(calls, [c]);
    AddNothing(calls);
  }

  lemma RecycledStep(before: seq<Call>, c: Call, all: seq<Call>, k: nat)
    requires all == before + [c] && k < Issued(before) && Lookup(Life(before), k).None?
    ensures Lookup(Life(all), k).None?
  {
    IdsCountAdds(before);
    DeadStays(Life(before), c, k);
    LifeSnoc(before, c);
  }

  /** A recycled id never becomes valid again, whatever is called later. */
  lemma {:induction false} RecycledForever(calls: seq<Call>, later: seq<Call>, k: nat)
    requires k < Issued(calls) && Lookup(Life(calls), k).None?
    ensures Lookup(Life(calls + later), k).None?
    decreases |later|
  {
    if later == [] {
      AddNothing(calls);
    } else {
      var front, last := later[..|later| - 1], later[|later| - 1];
      RecycledForever(calls, front, k);
      IssuedGrows(calls, front);
      LastApart(calls, later);
      RecycledStep(calls + front, last, calls + later, k);
    }
  }

  lemma {:induction false} IssuedGrows(calls: seq<Call>, later: seq<Call>)
    ensures Issued(calls) <= Issued(calls + later)
    decreases |later|
  {
    if later == [] {
      AddNothing(calls);
    } else {
      LastApart(calls, later);
      IssuedGrows(calls, later[..|later| - 1]);
    }
  }

  // ---------------------------------------------------------------- the same calls on queue objects

  /** add on the list of queue objects: no object that was there goes, and none gets a new buffer,
      so the slots stay where they are in memory. */
  method AddOnQueues(list: QueueList<Slot>, slot: Slot, pollOk: bool, ghost ids: seq<Segment<Slot>>)
    requires list.Valid() && list.Segs() == ids && WellFormed(ids) && NextId(ids) <= HALF / 2
    modifies list, list.queues, set q | q in list.queues :: q.vec
    ensures list.Valid() && list.Segs() == Apply(ids, AddCall(slot, pollOk))
    ensures old(list.Parts()) <= list.Parts()
  {
    ghost var r := Apply(ids, AddCall(slot, pollOk));
    assert Pow2(4) == 16;
    if pollOk {
      list.Add(FIRST_SLOTS, Entry(false, slot), ids, r);
    } else {
      list.MakeRoom(FIRST_SLOTS, ids, r);
    }
  }

  // The segment of an open slot.
  method FindOpen(list: QueueList<Slot>, id: nat, ghost ids: seq<Segment<Slot>>) returns (i: Option<nat>, slot: Slot)
    requires list.Valid() && list.Segs() == ids && WellFormed(ids) && id < WORD
    ensures i.Some? ==> Lookup(ids, id) == Some(Entry(false, slot)) && Find(ids, id) == i
    ensures i.None? ==> Lookup(ids, id).None? || Lookup(ids, id).value.closed
  {
    slot := Slot(0, 0);
    i := list.Search(id, ids);
    if i.Some? {
      IndexIsId(list.queues[i.value], id);
      var entry := list.queues[i.value].Get(id);
      slot := entry.data;
      if entry.closed {
        i := None;
      }
    }
  }

  /** remove on the list of queue objects. What is left are old objects with their old buffers. */
  method RemoveOnQueues(list: QueueList<Slot>, id: nat, ghost ids: seq<Segment<Slot>>) returns (ok: bool)
    requires list.Valid() && list.Segs() == ids && WellFormed(ids) && id < WORD
    modifies list, list.queues, set q | q in list.queues :: q.vec
    ensures list.Valid() && list.Segs() == Apply(ids, RemoveCall(id))
    ensures ok <==> Lookup(ids, id).Some? && !Lookup(ids, id).value.closed
    ensures list.Parts() <= old(list.Parts())
  {
    var i, slot := FindOpen(list, id, ids);
    ok := i.Some?;
    if i.Some? {
      list.Close(i.value, id, Entry(true, slot), ids, Apply(ids, RemoveCall(id)));
    }
  }
}
