/** The channels of the sockets that share one event handler, and how channels and event slots
    refer to each other. */
module ChannelTable {
  import opened Wrappers
  import opened SegmentList
  import opened EventTable

  datatype PeerType = Listening | StreamingOpened | StreamingAccepted

  datatype Channel = Channel(kind: PeerType, attempts: nat, ehId: nat)

  const FIRST_CHANNELS: nat := 4

  type Channels = map<nat, seq<Segment<Channel>>>

  function Chan(chans: Channels, s: nat, c: nat): Option<Entry<Channel>> {
    if s in chans then Lookup(chans[s], c) else None
  }

  predicate IsOpen<T>(e: Option<Entry<T>>) {
    e.Some? && !e.value.closed
  }

  ghost predicate ChannelsOk(chans: Channels) {
    forall s :: s in chans ==> WellFormed(chans[s]) && FrontsOpen(chans[s])
  }

  /** Every open channel's slot is open and points back at it, and the other way round. */
  ghost predicate Linked(ids: seq<Segment<Slot>>, chans: Channels) {
    && (forall s: nat, c: nat :: IsOpen(Chan(chans, s, c)) ==>
          Lookup(ids, Chan(chans, s, c).value.data.ehId) == Some(Entry(false, Slot(c, s))))
    && (forall e: nat :: IsOpen(Lookup(ids, e)) ==>
          var slot := Lookup(ids, e).value.data;
          IsOpen(Chan(chans, slot.owner, slot.itemId)) && Chan(chans, slot.owner, slot.itemId).value.data.ehId == e)
  }

  /** No closed slot that is not recycled yet names a channel that is open, or that is still to
      come. */
  ghost predicate NoStaleSlots(ids: seq<Segment<Slot>>, chans: Channels) {
    forall e: nat :: Lookup(ids, e).Some? ==>
      var slot := Lookup(ids, e).value.data;
      && slot.owner in chans && slot.itemId < NextId(chans[slot.owner])
      && (Lookup(ids, e).value.closed ==> !IsOpen(Chan(chans, slot.owner, slot.itemId)))
  }

  // ---------------------------------------------------------------- one socket's list changes

  ghost predicate SameChannels(chans: Channels, chans': Channels) {
    forall r: nat, k: nat :: Chan(chans', r, k) == Chan(chans, r, k)
  }

  ghost predicate HasFree(chans: Channels, s: nat) {
    s in chans && chans[s] != [] && !chans[s][|chans[s]| - 1].Full()
  }

  lemma RoomInChannels(chans: Channels, s: nat)
    requires ChannelsOk(chans) && s in chans
    ensures var r := chans[s := WithRoom(chans[s], FIRST_CHANNELS)];
            && ChannelsOk(r) && r.Keys == chans.Keys && NextId(r[s]) == NextId(chans[s])
            && HasFree(r, s) && SameChannels(chans, r)
  {
    RoomMade(chans[s], FIRST_CHANNELS);
    var r := chans[s := WithRoom(chans[s], FIRST_CHANNELS)];
    forall q: nat, k: nat ensures Chan(r, q, k) == Chan(chans, q, k) {
      if q == s { RoomLookup(chans[s], FIRST_CHANNELS, k); }
    }
  }

  lemma PushInChannels(chans: Channels, s: nat, ch: Channel)
    requires ChannelsOk(chans) && HasFree(chans, s)
    ensures var r := chans[s := Pushed(chans[s], Entry(false, ch))];
            && ChannelsOk(r) && r.Keys == chans.Keys && NextId(r[s]) == NextId(chans[s]) + 1
            && forall q: nat, k: nat :: Chan(r, q, k) ==
                 if q == s && k == NextId(chans[s]) then Some(Entry(false, ch)) else Chan(chans, q, k)
  {
    PushedShape(chans[s], Entry(false, ch));
    var r := chans[s := Pushed(chans[s], Entry(false, ch))];
    forall q: nat, k: nat
      ensures Chan(r, q, k) == if q == s && k == NextId(chans[s]) then Some(Entry(false, ch)) else Chan(chans, q, k)
    {
      if q == s { PushedLookup(chans[s], Entry(false, ch), k); }
    }
  }

  lemma SetInChannels(chans: Channels, s: nat, id: nat, ch: Channel)
    requires ChannelsOk(chans) && s in chans && Find(chans[s], id).Some?
    ensures var r := chans[s := Updated(chans[s], id, Entry(false, ch))];
            && ChannelsOk(r) && r.Keys == chans.Keys && NextId(r[s]) == NextId(chans[s])
            && forall q: nat, k: nat :: Chan(r, q, k) == if q == s && k == id then Some(Entry(false, ch))
               else Chan(chans, q, k)
  {
    UpdatedShape(chans[s], id, Entry(false, ch));
    var r := chans[s := Updated(chans[s], id, Entry(false, ch))];
    forall q: nat, k: nat
      ensures Chan(r, q, k) == if q == s && k == id then Some(Entry(false, ch)) else Chan(chans, q, k)
    {
      if q == s { UpdatedLookup(chans[s], id, Entry(false, ch), k); }
    }
  }

  // What delete_channel leaves of the channels.
  ghost predicate ChannelGone(chans: Channels, chans': Channels, s: nat, id: nat) {
    && !IsOpen(Chan(chans', s, id))
    && (forall r: nat, k: nat :: !(r == s && k == id) ==> KeptOrClosed(Chan(chans, r, k), Chan(chans', r, k)))
    && chans'.Keys == chans.Keys && forall r :: r in chans ==> NextId(chans'[r]) == NextId(chans[r])
  }

  lemma CloseInChannels(chans: Channels, s: nat, id: nat, ch: Channel)
    requires ChannelsOk(chans) && s in chans && Find(chans[s], id).Some?
    ensures var r := chans[s := Recycled(Updated(chans[s], id, Entry(true, ch)), Find(chans[s], id).value)];
            ChannelsOk(r) && ChannelGone(chans, r, s, id)
  {
    var i, marked := Find(chans[s], id).value, Updated(chans[s], id, Entry(true, ch));
    UpdatedShape(chans[s], id, Entry(true, ch));
    RecycledShape(marked, i);
    var r := chans[s := Recycled(marked, i)];
    forall q: nat, k: nat
      ensures if q == s && k == id then !IsOpen(Chan(r, q, k)) else KeptOrClosed(Chan(chans, q, k), Chan(r, q, k))
    {
      if q == s {
        UpdatedLookup(chans[s], id, Entry(true, ch), k);
        RecycledLookup(marked, i, k);
      }
    }
  }

  // ---------------------------------------------------------------- the links under each change

  /** A new channel c with a new slot e. */
  lemma LinkAdded(ids: seq<Segment<Slot>>, chans: Channels, ids': seq<Segment<Slot>>, chans': Channels,
                  s: nat, c: nat, e: nat, ch: Channel)
    requires Linked(ids, chans) && !IsOpen(Lookup(ids, e)) && !IsOpen(Chan(chans, s, c)) && ch.ehId == e
    requires forall k: nat :: Lookup(ids', k) == if k == e then Some(Entry(false, Slot(c, s))) else Lookup(ids, k)
    requires forall r: nat, k: nat :: Chan(chans', r, k) == if r == s && k == c then Some(Entry(false, ch))
             else Chan(chans, r, k)
    ensures Linked(ids', chans')
  {}

  /** Channel c and its slot are both closed; either may have been recycled, with other closed
      entries. */
  lemma LinkClosed(ids: seq<Segment<Slot>>, chans: Channels, ids': seq<Segment<Slot>>, chans': Channels,
                   s: nat, c: nat, e: nat)
    requires Linked(ids, chans) && IsOpen(Chan(chans, s, c)) && Chan(chans, s, c).value.data.ehId == e
    requires forall k: nat :: k != e ==> KeptOrClosed(Lookup(ids, k), Lookup(ids', k))
    requires !IsOpen(Lookup(ids', e)) && !IsOpen(Chan(chans', s, c))
    requires forall r: nat, k: nat :: !(r == s && k == c) ==> KeptOrClosed(Chan(chans, r, k), Chan(chans', r, k))
    ensures Linked(ids', chans')
  {}

  lemma SameLookups(ids: seq<Segment<Slot>>, ids': seq<Segment<Slot>>, chans: Channels)
    requires Linked(ids, chans) && forall k: nat :: Lookup(ids', k) == Lookup(ids, k)
    ensures Linked(ids', chans) && (NoStaleSlots(ids, chans) ==> NoStaleSlots(ids', chans))
  {}

  // A slot that no open channel owns comes or goes.
  lemma LinkSlotGone(ids: seq<Segment<Slot>>, chans: Channels, ids': seq<Segment<Slot>>, e: nat)
    requires OnlySlotGone(ids, ids', e)
    ensures Linked(ids, chans) && !IsOpen(Lookup(ids, e)) ==> Linked(ids', chans)
  {}

  // Slot e is closed, and nothing happens to the others but that closed ones may go.
  ghost predicate OnlySlotGone(ids: seq<Segment<Slot>>, ids': seq<Segment<Slot>>, e: nat) {
    !IsOpen(Lookup(ids', e)) && forall k: nat :: k != e ==> KeptOrClosed(Lookup(ids, k), Lookup(ids', k))
  }

  // Channels change, but neither which are open nor their slots.
  ghost predicate SameOpen(chans: Channels, chans': Channels) {
    && (forall r: nat, k: nat :: IsOpen(Chan(chans', r, k)) ==> IsOpen(Chan(chans, r, k)))
    && (forall r: nat, k: nat :: IsOpen(Chan(chans, r, k)) ==>
          IsOpen(Chan(chans', r, k)) && Chan(chans', r, k).value.data.ehId == Chan(chans, r, k).value.data.ehId)
  }

  lemma LinkSame(ids: seq<Segment<Slot>>, chans: Channels, chans': Channels)
    requires Linked(ids, chans) && SameOpen(chans, chans')
    ensures Linked(ids, chans')
  {}

  lemma NoStaleSame(ids: seq<Segment<Slot>>, chans: Channels, chans': Channels)
    requires NoStaleSlots(ids, chans) && SameOpen(chans, chans')
    requires chans'.Keys >= chans.Keys && forall r :: r in chans ==> NextId(chans'[r]) >= NextId(chans[r])
    ensures NoStaleSlots(ids, chans')
  {}

  lemma NoStaleAdded(ids: seq<Segment<Slot>>, chans: Channels, ids': seq<Segment<Slot>>, chans': Channels,
                     s: nat, c: nat, e: nat, ch: Channel)
    requires NoStaleSlots(ids, chans) && s in chans && c == NextId(chans[s]) && Lookup(ids, e).None?
    requires forall k: nat :: Lookup(ids', k) == if k == e then Some(Entry(false, Slot(c, s))) else Lookup(ids, k)
    requires forall r: nat, k: nat :: Chan(chans', r, k) == if r == s && k == c then Some(Entry(false, ch))
             else Chan(chans, r, k)
    requires chans'.Keys == chans.Keys && NextId(chans'[s]) == c + 1
    requires forall r :: r in chans && r != s ==> chans'[r] == chans[r]
    ensures NoStaleSlots(ids', chans')
  {}

  lemma NoStaleClosed(ids: seq<Segment<Slot>>, chans: Channels, ids': seq<Segment<Slot>>, chans': Channels,
                      s: nat, c: nat, e: nat)
    requires NoStaleSlots(ids, chans) && Lookup(ids, e) == Some(Entry(false, Slot(c, s)))
    requires forall k: nat :: k != e ==> KeptOrClosed(Lookup(ids, k), Lookup(ids', k))
    requires Lookup(ids', e).None? || Lookup(ids', e) == Some(Entry(true, Slot(c, s)))
    requires forall r: nat, k: nat :: IsOpen(Chan(chans', r, k)) ==> IsOpen(Chan(chans, r, k)) && !(r == s && k == c)
    requires chans'.Keys == chans.Keys && forall r :: r in chans ==> NextId(chans'[r]) == NextId(chans[r])
    ensures NoStaleSlots(ids', chans')
  {}

  lemma OwnSlot(ids: seq<Segment<Slot>>, chans: Channels, s: nat, c: nat)
    requires Linked(ids, chans) && IsOpen(Chan(chans, s, c))
    ensures Lookup(ids, Chan(chans, s, c).value.data.ehId) == Some(Entry(false, Slot(c, s)))
  {}

  /** Two open channels never share a slot. */
  lemma DistinctSlots(ids: seq<Segment<Slot>>, chans: Channels, s: nat, c: nat, s': nat, c': nat)
    requires Linked(ids, chans) && IsOpen(Chan(chans, s, c)) && IsOpen(Chan(chans, s', c'))
    requires Chan(chans, s, c).value.data.ehId == Chan(chans, s', c').value.data.ehId
    ensures s == s' && c == c'
  {}

  // ---------------------------------------------------------------- the same, for each list change

  function Roomy(chans: Channels, s: nat): Channels
    requires s in chans && WellFormed(chans[s])
  {
    chans[s := WithRoom(chans[s], FIRST_CHANNELS)]
  }

  function Set(chans: Channels, s: nat, id: nat, ch: Channel): Channels
    requires s in chans && Find(chans[s], id).Some?
  {
    chans[s := Updated(chans[s], id, Entry(false, ch))]
  }

  function Deleted(chans: Channels, s: nat, id: nat): Channels
    requires s in chans && Find(chans[s], id).Some?
  {
    var ch := Lookup(chans[s], id).value.data;
    chans[s := Recycled(Updated(chans[s], id, Entry(true, ch)), Find(chans[s], id).value)]
  }

  lemma DeletedIs(chans: Channels, s: nat, id: nat, i: nat, rest: seq<Segment<Channel>>)
    requires s in chans && Find(chans[s], id) == Some(i)
    requires rest == Recycled(Updated(chans[s], id, Entry(true, Lookup(chans[s], id).value.data)), i)
    ensures Deleted(chans, s, id) == chans[s := rest]
  {}

  ghost predicate Consistent(ids: seq<Segment<Slot>>, chans: Channels, clean: bool) {
    ChannelsOk(chans) && Linked(ids, chans) && (clean ==> NoStaleSlots(ids, chans))
  }

  lemma RoomyConsistent(ids: seq<Segment<Slot>>, chans: Channels, clean: bool, s: nat)
    requires Consistent(ids, chans, clean) && s in chans
    ensures Consistent(ids, Roomy(chans, s), clean) && SameChannels(chans, Roomy(chans, s))
    ensures HasFree(Roomy(chans, s), s) && NextId(Roomy(chans, s)[s]) == NextId(chans[s])
  {
    RoomInChannels(chans, s);
    SameConsistent(ids, chans, Roomy(chans, s), clean);
  }

  lemma SameConsistent(ids: seq<Segment<Slot>>, chans: Channels, chans': Channels, clean: bool)
    requires Consistent(ids, chans, clean) && ChannelsOk(chans') && SameOpen(chans, chans')
    requires chans'.Keys >= chans.Keys && forall r :: r in chans ==> NextId(chans'[r]) >= NextId(chans[r])
    ensures Consistent(ids, chans', clean)
  {
    LinkSame(ids, chans, chans');
    if clean { NoStaleSame(ids, chans, chans'); }
  }

  lemma SetSameOpen(chans: Channels, s: nat, id: nat, ch: Channel)
    requires ChannelsOk(chans) && IsOpen(Chan(chans, s, id)) && ch.ehId == Chan(chans, s, id).value.data.ehId
    ensures ChannelsOk(Set(chans, s, id, ch)) && SameOpen(chans, Set(chans, s, id, ch))
    ensures NextId(Set(chans, s, id, ch)[s]) == NextId(chans[s])
  {
    SetInChannels(chans, s, id, ch);
    var r := Set(chans, s, id, ch);
    forall q: nat, k: nat
      ensures IsOpen(Chan(r, q, k)) <==> IsOpen(Chan(chans, q, k))
      ensures IsOpen(Chan(r, q, k)) ==> Chan(r, q, k).value.data.ehId == Chan(chans, q, k).value.data.ehId
    {
      assert Chan(r, q, k) == if q == s && k == id then Some(Entry(false, ch)) else Chan(chans, q, k);
    }
  }

  lemma SetConsistent(ids: seq<Segment<Slot>>, chans: Channels, clean: bool, s: nat, id: nat, ch: Channel)
    requires Consistent(ids, chans, clean) && IsOpen(Chan(chans, s, id))
             && ch.ehId == Chan(chans, s, id).value.data.ehId
    ensures Consistent(ids, Set(chans, s, id, ch), clean)
  {
    SetSameOpen(chans, s, id, ch);
    SameConsistent(ids, chans, Set(chans, s, id, ch), clean);
  }

  lemma DeletedGone(chans: Channels, s: nat, id: nat)
    requires ChannelsOk(chans) && IsOpen(Chan(chans, s, id))
    ensures ChannelsOk(Deleted(chans, s, id)) && ChannelGone(chans, Deleted(chans, s, id), s, id)
  {
    CloseInChannels(chans, s, id, Chan(chans, s, id).value.data);
  }

  lemma GoneLinked(ids: seq<Segment<Slot>>, ids': seq<Segment<Slot>>, chans: Channels, chans': Channels, s: nat,
                   id: nat)
    requires Linked(ids, chans) && IsOpen(Chan(chans, s, id)) && ChannelGone(chans, chans', s, id)
    requires Lookup(ids, Chan(chans, s, id).value.data.ehId).Some?
    requires SlotClosed(ids, ids', Chan(chans, s, id).value.data.ehId)
    ensures Linked(ids', chans')
  {
    LinkClosed(ids, chans, ids', chans', s, id, Chan(chans, s, id).value.data.ehId);
  }

  lemma GoneNoStale(ids: seq<Segment<Slot>>, ids': seq<Segment<Slot>>, chans: Channels, chans': Channels, s: nat,
                    id: nat)
    requires Linked(ids, chans) && NoStaleSlots(ids, chans) && IsOpen(Chan(chans, s, id))
             && ChannelGone(chans, chans', s, id)
    requires Lookup(ids, Chan(chans, s, id).value.data.ehId).Some?
    requires SlotClosed(ids, ids', Chan(chans, s, id).value.data.ehId)
    ensures NoStaleSlots(ids', chans')
  {
    NoStaleClosed(ids, chans, ids', chans', s, id, Chan(chans, s, id).value.data.ehId);
  }

  lemma DeletedConsistent(ids: seq<Segment<Slot>>, ids': seq<Segment<Slot>>, chans: Channels, clean: bool, s: nat,
                          id: nat)
    requires Consistent(ids, chans, clean) && IsOpen(Chan(chans, s, id))
    requires Lookup(ids, Chan(chans, s, id).value.data.ehId).Some?
    requires SlotClosed(ids, ids', Chan(chans, s, id).value.data.ehId)
    ensures Consistent(ids', Deleted(chans, s, id), clean)
  {
    DeletedGone(chans, s, id);
    GoneLinked(ids, ids', chans, Deleted(chans, s, id), s, id);
    if clean { GoneNoStale(ids, ids', chans, Deleted(chans, s, id), s, id); }
  }

  // A channel c and its slot e are both new.
  ghost predicate BothNew(ids: seq<Segment<Slot>>, ids': seq<Segment<Slot>>, chans: Channels, chans': Channels,
                          s: nat, ch: Channel)
    requires s in chans
  {
    && (forall k: nat :: Lookup(ids', k) == if k == ch.ehId then Some(Entry(false, Slot(NextId(chans[s]), s)))
       else Lookup(ids, k))
    && (forall r: nat, k: nat :: Chan(chans', r, k) == if r == s && k == NextId(chans[s])
       then Some(Entry(false, ch)) else Chan(chans, r, k))
    && chans'.Keys == chans.Keys && NextId(chans'[s]) == NextId(chans[s]) + 1
    && forall r :: r in chans && r != s ==> chans'[r] == chans[r]
  }

  lemma AddedConsistent(ids: seq<Segment<Slot>>, ids': seq<Segment<Slot>>, chans: Channels, chans': Channels,
                        clean: bool,
                        s: nat, ch: Channel)
    requires Consistent(ids, chans, clean) && s in chans && ChannelsOk(chans')
             && BothNew(ids, ids', chans, chans', s, ch)
    requires Lookup(ids, ch.ehId).None?
    ensures Consistent(ids', chans', clean)
  {
    Unissued(chans[s], NextId(chans[s]));
    LinkAdded(ids, chans, ids', chans', s, NextId(chans[s]), ch.ehId, ch);
    if clean { NoStaleAdded(ids, chans, ids', chans', s, NextId(chans[s]), ch.ehId, ch); }
  }

  ghost predicate SlotAdded(ids: seq<Segment<Slot>>, ids': seq<Segment<Slot>>, e: nat, slot: Slot) {
    forall k: nat :: Lookup(ids', k) == if k == e then Some(Entry(false, slot)) else Lookup(ids, k)
  }

  lemma PushedConsistent(ids: seq<Segment<Slot>>, ids': seq<Segment<Slot>>, chans: Channels, clean: bool, s: nat,
                         ch: Channel)
    requires WellFormed(ids) && ch.ehId == NextId(ids)
    requires HasFree(chans, s)
    ensures var r := chans[s := Pushed(chans[s], Entry(false, ch))];
            Consistent(ids, chans, clean) && SlotAdded(ids, ids', ch.ehId, Slot(NextId(chans[s]), s)) ==>
              && Consistent(ids', r, clean) && r.Keys == chans.Keys && NextId(r[s]) == NextId(chans[s]) + 1
              && ChannelAdded(chans, r, s, Some(NextId(chans[s])), ch)
  {
    if Consistent(ids, chans, clean) && SlotAdded(ids, ids', ch.ehId, Slot(NextId(chans[s]), s)) {
      PushInChannels(chans, s, ch);
      Unissued(ids, ch.ehId);
      AddedConsistent(ids, ids', chans, chans[s := Pushed(chans[s], Entry(false, ch))], clean, s, ch);
    }
  }

  /** How many of the attempted channels are opened: those before the first failure. */
  function Successes(outcomes: seq<(bool, bool)>): (n: nat)
    ensures n <= |outcomes| && (forall i :: 0 <= i < n ==> outcomes[i] == (true, true))
    ensures n < |outcomes| ==> outcomes[n] != (true, true)
  {
    if outcomes == [] || outcomes[0] != (true, true) then 0 else 1 + Successes(outcomes[1..])
  }

  /** No other number has this property: the openings stop at the first failure. */
  lemma StopsAtFailure(outcomes: seq<(bool, bool)>, n: nat)
    requires n <= |outcomes|
    ensures n == Successes(outcomes) <==>
            (forall i :: 0 <= i < n ==> outcomes[i] == (true, true)) && (n < |outcomes| ==> outcomes[n] != (true, true))
  {}

  // Exactly the ids next, next + 1, .. have been added to socket s, and all are trying to connect.
  ghost predicate OpenedFrom(chans: Channels, s: nat, next: nat, n: nat, attempts: nat) {
    && s in chans && NextId(chans[s]) == next + n
    && forall k: nat :: next <= k < next + n ==>
         IsOpen(Chan(chans, s, k)) && Chan(chans, s, k).value.data.kind == StreamingOpened
         && Chan(chans, s, k).value.data.attempts == attempts
  }

  // Nothing but the channels from next on has changed.
  ghost predicate SameBelow(chans: Channels, chans': Channels, s: nat, next: nat) {
    forall r: nat, k: nat :: !(r == s && k >= next) ==> Chan(chans', r, k) == Chan(chans, r, k)
  }

  // Channel id has been added, or nothing has happened.
  ghost predicate ChannelAdded(chans: Channels, chans': Channels, s: nat, id: Option<nat>, ch: Channel) {
    forall r: nat, k: nat :: Chan(chans', r, k) ==
      if id.Some? && r == s && k == id.value then Some(Entry(false, ch)) else Chan(chans, r, k)
  }

  lemma AddedAfter(chans0: Channels, chans1: Channels, chans2: Channels, s: nat, id: Option<nat>, ch: Channel)
    ensures SameChannels(chans0, chans1) && ChannelAdded(chans1, chans2, s, id, ch) ==>
            ChannelAdded(chans0, chans2, s, id, ch)
  {
    if SameChannels(chans0, chans1) && ChannelAdded(chans1, chans2, s, id, ch) {
      forall r: nat, k: nat
        ensures Chan(chans2, r, k) ==
                if id.Some? && r == s && k == id.value then Some(Entry(false, ch)) else Chan(chans0, r, k)
      {
        assert Chan(chans1, r, k) == Chan(chans0, r, k);
      }
    }
  }

  lemma OneMoreOpened(chans0: Channels, chans1: Channels, chans2: Channels, s: nat, next: nat, n: nat,
                      added: Option<nat>, ch: Channel)
    requires s in chans2 && ch.kind == StreamingOpened && (added.Some? ==> added.value == next + n)
    requires NextId(chans2[s]) == next + if added.Some? then n + 1 else n
    ensures SameBelow(chans0, chans1, s, next) && ChannelAdded(chans1, chans2, s, added, ch) ==>
            SameBelow(chans0, chans2, s, next)
    ensures OpenedFrom(chans1, s, next, n, ch.attempts) && ChannelAdded(chans1, chans2, s, added, ch) ==>
              OpenedFrom(chans2, s, next, if added.Some? then n + 1 else n, ch.attempts)
  {
    if OpenedFrom(chans1, s, next, n, ch.attempts) && ChannelAdded(chans1, chans2, s, added, ch) {
      forall k: nat | next <= k < next + if added.Some? then n + 1 else n
        ensures IsOpen(Chan(chans2, s, k)) && Chan(chans2, s, k).value.data.kind == StreamingOpened
                && Chan(chans2, s, k).value.data.attempts == ch.attempts
      {
        if k < next + n { assert Chan(chans2, s, k) == Chan(chans1, s, k); }
      }
    }
  }

  /** Every channel but id and the ones from next on is as it was, or it was closed and is forgotten. */
  ghost predicate OthersKept(chans: Channels, chans': Channels, s: nat, id: nat, next: nat) {
    forall r: nat, k: nat :: !(r == s && (k == id || k >= next)) ==> KeptOrClosed(Chan(chans, r, k), Chan(chans', r, k))
  }

  lemma RefusedFrame(chans0: Channels, chans1: Channels, chans2: Channels, s: nat, id: nat, next: nat)
    requires ChannelGone(chans0, chans1, s, id) && id < next
    requires chans2 == chans1 || SameBelow(chans1, chans2, s, next)
    ensures OthersKept(chans0, chans2, s, id, next) && !IsOpen(Chan(chans2, s, id))
  {
    forall r: nat, k: nat | !(r == s && (k == id || k >= next))
      ensures KeptOrClosed(Chan(chans0, r, k), Chan(chans2, r, k))
    {
      assert Chan(chans2, r, k) == Chan(chans1, r, k);
    }
  }

  /** What add_channel does to the slots: nothing but room if the poller refuses the handle; a new
      slot; and if the channel cannot be connected, the slot is removed again. */
  ghost function SlotsAfterAdd(ids: seq<Segment<Slot>>, slot: Slot, pollOk: bool, connectOk: bool): seq<Segment<Slot>>
    requires WellFormed(ids) && FrontsOpen(ids)
  {
    var added := Apply(ids, AddCall(slot, pollOk));
    if !pollOk || connectOk then added else
    ApplyKeeps(ids, AddCall(slot, pollOk));
    Apply(added, RemoveCall(NextId(ids)))
  }

  /** A slot that is taken and given back changes nothing for the channels. */
  lemma GivenBack(ids: seq<Segment<Slot>>, chans: Channels, slot: Slot)
    requires WellFormed(ids) && FrontsOpen(ids)
    ensures Linked(ids, chans) ==> Linked(SlotsAfterAdd(ids, slot, true, false), chans)
  {
    SlotGivenBack(ids, slot);
    Unissued(ids, NextId(ids));
    LinkSlotGone(ids, chans, SlotsAfterAdd(ids, slot, true, false), NextId(ids));
  }

  lemma SlotGivenBack(ids: seq<Segment<Slot>>, slot: Slot)
    requires WellFormed(ids) && FrontsOpen(ids)
    ensures OnlySlotGone(ids, SlotsAfterAdd(ids, slot, true, false), NextId(ids))
  {
    AddedShape(ids, FIRST_SLOTS, Entry(false, slot));
    RemovedShape(Apply(ids, AddCall(slot, true)), NextId(ids), slot);
  }

  class Network {
    const eh: EventHandler
    var channels: Channels
    // No add_channel has failed after taking a slot.
    ghost var clean: bool

    constructor ()
      ensures Valid() && fresh(eh) && channels == map[] && eh.ids == [] && clean
    {
      eh := new EventHandler();
      channels := map[];
      clean := true;
    }

    ghost predicate Valid()
      reads this, eh
    {
      eh.Valid() && Consistent(eh.ids, channels, clean)
    }

    method OpenSocket(s: nat)
      requires Valid() && s !in channels
      modifies this`channels
      ensures Valid() && channels == old(channels)[s := []]
    {
      ghost var chans0 := channels;
      channels := channels[s := []];
      forall r: nat, k: nat ensures Chan(channels, r, k) == Chan(chans0, r, k) {}
      SameConsistent(eh.ids, chans0, channels, clean);
    }

    // A free cell at the end of a socket's channels.
    method MakeRoom(s: nat) returns (id: nat)
      requires Valid() && s in channels
      modifies this`channels
      ensures Valid() && channels.Keys == old(channels).Keys && HasFree(channels, s) && id == NextId(channels[s])
      ensures NextId(channels[s]) == NextId(old(channels)[s]) && SameChannels(old(channels), channels)
    {
      RoomyConsistent(eh.ids, channels, clean, s);
      channels := Roomy(channels, s);
      id := NextId(channels[s]);
    }

    // The two calls on the slots.
    method TakeAndRemove(slot: Slot) returns (taken: bool)
      requires eh.Valid()
      modifies eh
      ensures eh.Valid() && eh.ids == SlotsAfterAdd(old(eh.ids), slot, true, false)
    {
      var e := eh.Add(slot, true);
      taken := eh.Remove(e.value, false);
    }

    // The slot of a channel that could not be opened is taken and given back.
    method TakeAndGiveBack(s: nat, c: nat) returns (taken: bool)
      requires Valid()
      modifies this`clean, eh
      ensures Valid() && !clean
      ensures eh.ids == SlotsAfterAdd(old(eh.ids), Slot(c, s), true, false)
    {
      GivenBack(eh.ids, channels, Slot(c, s));
      taken := TakeAndRemove(Slot(c, s));
      clean := false;
    }

    // The poller refuses the handle: no slot is taken.
    method PollFails(s: nat, c: nat)
      requires Valid()
      modifies eh
      ensures Valid() && eh.ids == Apply(old(eh.ids), AddCall(Slot(c, s), false))
    {
      ghost var ids0 := eh.ids;
      var _ := eh.Add(Slot(c, s), false);
      SameLookups(ids0, eh.ids, channels);
    }

    method TakeSlot(slot: Slot) returns (e: nat)
      requires eh.Valid()
      modifies eh
      ensures eh.Valid() && e == NextId(old(eh.ids)) && eh.ids == Apply(old(eh.ids), AddCall(slot, true))
      ensures SlotAdded(old(eh.ids), eh.ids, e, slot)
    {
      var r := eh.Add(slot, true);
      e := r.value;
    }

    // The slot and the channel of a successful add.
    method AddBoth(s: nat, kind: PeerType, attempts: nat)
      requires Valid() && HasFree(channels, s)
      modifies this`channels, eh
      ensures Valid() && channels.Keys == old(channels).Keys && NextId(channels[s]) == NextId(old(channels)[s]) + 1
      ensures eh.ids == Apply(old(eh.ids), AddCall(Slot(NextId(old(channels)[s]), s), true))
      ensures ChannelAdded(old(channels), channels, s, Some(NextId(old(channels)[s])),
              Channel(kind, attempts, NextId(old(eh.ids))))
    {
      ghost var ids0 := eh.ids;
      var e := TakeSlot(Slot(NextId(channels[s]), s));
      var ch := Channel(kind, attempts, e);
      PushedConsistent(ids0, eh.ids, channels, clean, s, ch);
      channels := channels[s := Pushed(channels[s], Entry(false, ch))];
    }

    /** add_channel: takes a slot for the next channel id, connects if asked to, then adds the
        channel. pollOk and connectOk are the outcomes of the system calls; on failure the
        exception leaves the channels as they were, and gives the slot back. */
    method AddChannel(s: nat, kind: PeerType, attempts: nat, pollOk: bool, connectOk: bool) returns (id: Option<nat>)
      requires Valid() && s in channels
      modifies this, eh
      ensures Valid() && channels.Keys == old(channels).Keys
      ensures id.Some? == (pollOk && connectOk)
      ensures id.Some? ==> id.value == NextId(old(channels)[s]) && NextId(channels[s]) == id.value + 1
      ensures id.None? ==> NextId(channels[s]) == NextId(old(channels)[s])
      ensures ChannelAdded(old(channels), channels, s, id, Channel(kind, attempts, NextId(old(eh.ids))))
      ensures eh.ids == SlotsAfterAdd(old(eh.ids), Slot(NextId(old(channels)[s]), s), pollOk, connectOk)
      ensures clean == (old(clean) && (pollOk ==> connectOk))
    {
      ghost var chans0, ch := channels, Channel(kind, attempts, NextId(eh.ids));
      var c := MakeRoom(s);
      ghost var chans1 := channels;
      id := AddInRoom(s, kind, attempts, pollOk, connectOk, c);
      AddedAfter(chans0, chans1, channels, s, id, ch);
    }

    // The rest of add_channel, with a free cell at the end of the channels.
    method AddInRoom(s: nat, kind: PeerType, attempts: nat, pollOk: bool, connectOk: bool, c: nat)
      returns (id: Option<nat>)
      requires Valid() && HasFree(channels, s) && c == NextId(channels[s])
      modifies this, eh
      ensures Valid() && channels.Keys == old(channels).Keys
      ensures id == if pollOk && connectOk then Some(c) else None
      ensures NextId(channels[s]) == if id.Some? then c + 1 else c
      ensures ChannelAdded(old(channels), channels, s, id, Channel(kind, attempts, NextId(old(eh.ids))))
      ensures eh.ids == SlotsAfterAdd(old(eh.ids), Slot(c, s), pollOk, connectOk)
      ensures clean == (old(clean) && (pollOk ==> connectOk))
    {
      if !pollOk {
        PollFails(s, c);
        return None;
      }
      if !connectOk {
        var _ := TakeAndGiveBack(s, c);
        return None;
      }
      AddBoth(s, kind, attempts);
      return Some(c);
    }

    // The slot's half of delete_channel.
    method CloseSlot(s: nat, id: nat, e: nat)
      requires Valid() && IsOpen(Chan(channels, s, id)) && e == Chan(channels, s, id).value.data.ehId
      modifies eh`ids
      ensures eh.Valid() && Consistent(eh.ids, Deleted(channels, s, id), clean)
      ensures Lookup(old(eh.ids), e).Some? && SlotClosed(old(eh.ids), eh.ids, e)
    {
      ghost var ids0 := eh.ids;
      OwnSlot(ids0, channels, s, id);
      var _ := eh.Remove(e, false);
      DeletedConsistent(ids0, eh.ids, channels, clean, s, id);
    }

    /** delete_channel: closes an open channel and its slot; anything else is left alone. */
    method DeleteChannel(s: nat, id: nat)
      requires Valid() && s in channels
      modifies this`channels, eh`ids
      ensures Valid()
      ensures channels == if IsOpen(Chan(old(channels), s, id)) then Deleted(old(channels), s, id) else old(channels)
      ensures !IsOpen(Chan(old(channels), s, id)) ==> eh.ids == old(eh.ids)
      ensures IsOpen(Chan(old(channels), s, id)) ==>
                var e := Chan(old(channels), s, id).value.data.ehId;
                Lookup(old(eh.ids), e).Some? && SlotClosed(old(eh.ids), eh.ids, e)
    {
      var i := FindOpen(s, id);
      if i.Some? {
        DeleteOpen(s, id, i.value);
      }
    }

    // An open channel and its slot are closed.
    method DeleteOpen(s: nat, id: nat, i: nat)
      requires Valid() && s in channels && IsOpen(Chan(channels, s, id)) && Find(channels[s], id) == Some(i)
      modifies this`channels, eh`ids
      ensures Valid() && channels == Deleted(old(channels), s, id)
      ensures var e := Chan(old(channels), s, id).value.data.ehId;
              Lookup(old(eh.ids), e).Some? && SlotClosed(old(eh.ids), eh.ids, e)
    {
      var rest := CloseEntry(channels[s], id, i);
      DeletedIs(channels, s, id, i, rest);
      CloseSlot(s, id, channels[s][i].items[id - channels[s][i].base].data.ehId);
      channels := channels[s := rest];
    }

    // The segment of an open channel.
    method FindOpen(s: nat, id: nat) returns (i: Option<nat>)
      requires Valid() && s in channels
      ensures i.Some? <==> IsOpen(Chan(channels, s, id))
      ensures i.Some? ==> i == Find(channels[s], id)
    {
      i := Search(channels[s], id);
      if i.Some? && channels[s][i.value].items[id - channels[s][i.value].base].closed {
        return None;
      }
    }

    // The channel's half of delete_channel.
    static method CloseEntry(segs: seq<Segment<Channel>>, id: nat, i: nat) returns (r: seq<Segment<Channel>>)
      requires Find(segs, id) == Some(i)
      ensures r == Recycled(Updated(segs, id, Entry(true, Lookup(segs, id).value.data)), i)
    {
      var entry := segs[i].items[id - segs[i].base];
      r := Recycle(Updated(segs, id, Entry(true, entry.data)), i);
    }

    /** get_channel_safe */
    method GetChannelSafe(s: nat, id: nat) returns (r: Option<Channel>)
      requires Valid() && s in channels
      ensures r == if IsOpen(Chan(channels, s, id)) then Some(Chan(channels, s, id).value.data) else None
    {
      var i := Search(channels[s], id);
      if i.Some? {
        var entry := channels[s][i.value].items[id - channels[s][i.value].base];
        if !entry.closed {
          return Some(entry.data);
        }
      }
      return None;
    }

    // The channel's slot changes what it waits for and the channel keeps its slot id.
    method SwitchInterest(s: nat, id: nat)
      requires Valid() && IsOpen(Chan(channels, s, id))
      modifies eh`ids
      ensures Valid() && eh.ids == old(eh.ids)
    {
      ghost var ids0 := eh.ids;
      var i := Search(channels[s], id);
      var e := channels[s][i.value].items[id - channels[s][i.value].base].data.ehId;
      eh.Switch(e, Slot(id, s));
      SameAgain(ids0, e, Slot(id, s));
    }

    // Overwrites the data of an open channel, keeping its slot.
    method SetChannel(s: nat, id: nat, ch: Channel)
      requires Valid() && IsOpen(Chan(channels, s, id)) && ch.ehId == Chan(channels, s, id).value.data.ehId
      modifies this`channels
      ensures Valid() && channels == Set(old(channels), s, id, ch)
    {
      SetConsistent(eh.ids, channels, clean, s, id, ch);
      channels := Set(channels, s, id, ch);
    }

    /** receive, connect succeeded: the slot switches from connecting to receiving, the channel
        stops retrying and keeps its slot. */
    method ConnectSuccess(s: nat, id: nat)
      requires Valid() && IsOpen(Chan(channels, s, id)) && Chan(channels, s, id).value.data.attempts > 0
      modifies this`channels, eh`ids
      ensures Valid() && channels.Keys == old(channels).Keys
      ensures forall r: nat, k: nat :: Chan(channels, r, k) ==
                if r == s && k == id then Some(Entry(false, Chan(old(channels), s, id).value.data.(attempts := 0)))
                else Chan(old(channels), r, k)
    {
      var ch := GetChannelSafe(s, id);
      SetInChannels(channels, s, id, ch.value.(attempts := 0));
      SwitchInterest(s, id);
      SetChannel(s, id, ch.value.(attempts := 0));
    }

    /** receive, connection refused: the channel is deleted, and while attempts are left new
        channels are opened, one for each address; their outcomes are the list. The first
        failure is thrown on. Every other channel stays as it was. */
    method ConnectRefused(s: nat, id: nat, outcomes: seq<(bool, bool)>)
      requires Valid() && IsOpen(Chan(channels, s, id)) && Chan(channels, s, id).value.data.attempts > 0
      modifies this, eh
      ensures Valid() && channels.Keys == old(channels).Keys
      ensures !IsOpen(Chan(channels, s, id))
      ensures var next, attempts := NextId(old(channels)[s]), Chan(old(channels), s, id).value.data.attempts - 1;
              && OthersKept(old(channels), channels, s, id, next)
              && OpenedFrom(channels, s, next, if attempts == 0 then 0 else Successes(outcomes), attempts)
    {
      var ch := GetChannelSafe(s, id);
      var attempts := ch.value.attempts - 1;
      IdIsIssued(s, id);
      DeletedGone(channels, s, id);
      DeleteChannel(s, id);
      ghost var chans1 := channels;
      if attempts != 0 {
        Reopen(s, attempts, outcomes);
      }
      RefusedFrame(old(channels), chans1, channels, s, id, NextId(chans1[s]));
    }

    // The add_channel calls of open().
    method Reopen(s: nat, attempts: nat, outcomes: seq<(bool, bool)>)
      requires Valid() && s in channels
      modifies this, eh
      ensures Valid() && channels.Keys == old(channels).Keys
      ensures SameBelow(old(channels), channels, s, NextId(old(channels)[s]))
      ensures OpenedFrom(channels, s, NextId(old(channels)[s]), Successes(outcomes), attempts)
    {
      var i := 0;
      ghost var chans0, next := channels, NextId(channels[s]);
      assert outcomes[0..] == outcomes;
      while i < |outcomes|
        invariant 0 <= i <= |outcomes| && Successes(outcomes) == i + Successes(outcomes[i..])
        invariant Valid() && channels.Keys == chans0.Keys
        invariant SameBelow(chans0, channels, s, next) && OpenedFrom(channels, s, next, i, attempts)
      {
        var ok := OpenOne(s, attempts, outcomes[i].0, outcomes[i].1, chans0, next, i);
        if !ok {
          return;
        }
        assert outcomes[i..][1..] == outcomes[i + 1..];
        i := i + 1;
      }
    }

    // One of them.
    method OpenOne(s: nat, attempts: nat, pollOk: bool, connectOk: bool, ghost chans0: Channels, ghost next: nat,
                   ghost n: nat)
      returns (ok: bool)
      requires Valid() && s in channels && SameBelow(chans0, channels, s, next)
               && OpenedFrom(channels, s, next, n, attempts)
      modifies this, eh
      ensures Valid() && channels.Keys == old(channels).Keys && ok == (pollOk && connectOk)
      ensures SameBelow(chans0, channels, s, next) && OpenedFrom(channels, s, next, if ok then n + 1 else n, attempts)
    {
      ghost var ch := Channel(StreamingOpened, attempts, NextId(eh.ids));
      var added := AddChannel(s, StreamingOpened, attempts, pollOk, connectOk);
      OneMoreOpened(chans0, old(channels), channels, s, next, n, added, ch);
      ok := added.Some?;
    }

    lemma IdIsIssued(s: nat, id: nat)
      requires Valid() && IsOpen(Chan(channels, s, id))
      ensures id < NextId(channels[s])
    {
      IdsAreIssued(channels[s], id);
    }

    /** From an event id to a channel: wait() looks the id up among the slots, whether closed or
        not, and receive() asks get_channel_safe for the slot's channel. If a channel comes out,
        it owns the event exactly when the slot is open; and it always does in every run in
        which no add_channel failed after taking a slot. */
    method Dispatch(e: nat) returns (r: Option<(nat, nat)>)
      requires Valid()
      ensures r == match Lookup(eh.ids, e)
                   case None => None
                   case Some(slot) =>
                     if IsOpen(Chan(channels, slot.data.owner, slot.data.itemId))
                       then Some((slot.data.owner, slot.data.itemId))
                     else None
      ensures r.Some? ==>
                && IsOpen(Chan(channels, r.value.0, r.value.1))
                && (Chan(channels, r.value.0, r.value.1).value.data.ehId == e <==> IsOpen(Lookup(eh.ids, e)))
      ensures r.Some? && clean ==> Chan(channels, r.value.0, r.value.1).value.data.ehId == e
      ensures forall s: nat, c: nat :: IsOpen(Chan(channels, s, c)) && Chan(channels, s, c).value.data.ehId == e ==>
              r == Some((s, c))
    {
      var i := Search(eh.ids, e);
      if i.None? {
        return None;
      }
      var slot := eh.ids[i.value].items[e - eh.ids[i.value].base].data;
      if slot.owner !in channels {
        return None;
      }
      var ch := GetChannelSafe(slot.owner, slot.itemId);
      return if ch.Some? then Some((slot.owner, slot.itemId)) else None;
    }
  }

  lemma Unissued<T>(segs: seq<Segment<T>>, id: nat)
    requires WellFormed(segs) && id >= NextId(segs)
    ensures Lookup(segs, id).None?
  {
    if Lookup(segs, id).Some? { IdsAreIssued(segs, id); }
  }

  lemma SameAgain(ids: seq<Segment<Slot>>, e: nat, slot: Slot)
    requires WellFormed(ids) && Lookup(ids, e) == Some(Entry(false, slot))
    ensures Updated(ids, e, Entry(false, slot)) == ids
  {
    var i := Find(ids, e).value;
    assert ids[i].items[e - ids[i].base := Entry(false, slot)] == ids[i].items;
  }

  // ---------------------------------------------------------------- a stale slot

  // Life with a single segment whose front stays open.
  lemma OneMore(calls: seq<Call>, items: seq<Entry<Slot>>, slot: Slot, items': seq<Entry<Slot>>)
    requires Life(calls) == [Segment(0, 16, items)] && |items| < 16 && items' == items + [Entry(false, slot)]
    ensures Life(calls + [AddCall(slot, true)]) == [Segment(0, 16, items')]
  {
    LifeSnoc(calls, AddCall(slot, true));
  }

  lemma OneLess(calls: seq<Call>, items: seq<Entry<Slot>>, id: nat, items': seq<Entry<Slot>>)
    requires Life(calls) == [Segment(0, 16, items)] && 0 < id < |items| <= 16 && !items[0].closed && !items[id].closed
    requires items' == items[id := Entry(true, items[id].data)]
    ensures Life(calls + [RemoveCall(id)]) == [Segment(0, 16, items')]
  {
    LifeSnoc(calls, RemoveCall(id));
    var segs, marked := [Segment(0, 16, items)], [Segment(0, 16, items')];
    ResolvesOnce(segs, id, 0);
    assert Updated(segs, id, Entry(true, items[id].data)) == marked;
    assert Trimmed(marked[0]) == marked[0];
    assert Recycled(marked, 0) == marked;
  }

  lemma FirstAdd(slot: Slot)
    ensures Life([AddCall(slot, true)]) == [Segment(0, 16, [Entry(false, slot)])]
  {
    FirstCall(AddCall(slot, true));
    assert WithRoom<Slot>([], FIRST_SLOTS) == [Segment(0, 16, [])];
    assert [] + [Entry(false, slot)] == [Entry(false, slot)];
  }

  lemma FirstCall(c: Call)
    ensures Life([c]) == Apply([], c)
  {
    assert [] + [c] == [c];
    LifeSnoc([], c);
  }

  // Socket 0 adds channel 0, fails to add one after taking slot 1, and then adds channel 1.
  const STALE_CALLS: seq<Call> :=
    [AddCall(Slot(0, 0), true)] + [AddCall(Slot(1, 0), true)] + [RemoveCall(1)] + [AddCall(Slot(1, 0), true)]

  const STALE_SLOTS: seq<Entry<Slot>> := [Entry(false, Slot(0, 0)), Entry(true, Slot(1, 0)), Entry(false, Slot(1, 0))]

  lemma StaleSlots()
    ensures Life(STALE_CALLS) == [Segment(0, 16, STALE_SLOTS)]
  {
    var a, b, dead := Entry(false, Slot(0, 0)), Entry(false, Slot(1, 0)), Entry(true, Slot(1, 0));
    var calls := [AddCall(Slot(0, 0), true)];
    FirstAdd(Slot(0, 0));
    OneMore(calls, [a], Slot(1, 0), [a, b]);
    calls := calls + [AddCall(Slot(1, 0), true)];
    OneLess(calls, [a, b], 1, [a, dead]);
    calls := calls + [RemoveCall(1)];
    OneMore(calls, [a, dead], Slot(1, 0), STALE_SLOTS);
  }

  lemma LookupInOne<T>(seg: Segment<T>, k: nat)
    requires seg.base == 0 && 0 < seg.cap && |seg.items| <= seg.cap
    ensures Lookup([seg], k) == if k < |seg.items| then Some(seg.items[k]) else None
  {
    if k < |seg.items| { ResolvesOnce([seg], k, 0); } else { ResolvesNowhere([seg], k); }
  }

  // The slots after the four calls, one by one.
  lemma StaleLife() returns (ids1: seq<Segment<Slot>>, ids2: seq<Segment<Slot>>)
    ensures ids1 == Apply([], AddCall(Slot(0, 0), true)) && WellFormed(ids1) && FrontsOpen(ids1) && NextId(ids1) == 1
    ensures ids2 == SlotsAfterAdd(ids1, Slot(1, 0), true, false) && WellFormed(ids2) && FrontsOpen(ids2)
            && NextId(ids2) == 2
    ensures Apply(ids2, AddCall(Slot(1, 0), true)) == Life(STALE_CALLS)
  {
    var a, b, r := [AddCall(Slot(0, 0), true)], [AddCall(Slot(1, 0), true)], [RemoveCall(1)];
    FirstCall(AddCall(Slot(0, 0), true));
    LifeSnoc(a, AddCall(Slot(1, 0), true));
    LifeSnoc(a + b, RemoveCall(1));
    LifeSnoc(a + b + r, AddCall(Slot(1, 0), true));
    IdsCountAdds(a);
    assert Issued(a) == 1 && Issued(a + b) == 2 && Issued(a + b + r) == 2 by {
      assert a[..0] == [] && (a + b)[..1] == a && (a + b + r)[..2] == a + b;
    }
    IdsCountAdds(a + b + r);
    ids1, ids2 := Life(a), Life(a + b + r);
  }

  /** A run in which an event goes to a channel that does not own it. The second add_channel fails
      after it has taken slot 1; the third one opens channel 1 with slot 2; and an event of slot 1,
      which is closed but not recycled, is dispatched to channel 1. */
  method FailedAddLeavesStaleSlot() returns (net: Network, r: Option<(nat, nat)>)
    ensures net.Valid() && fresh(net) && fresh(net.eh)
    ensures r == Some((0, 1)) && IsOpen(Chan(net.channels, 0, 1)) && Chan(net.channels, 0, 1).value.data.ehId == 2
    ensures Lookup(net.eh.ids, 1) == Some(Entry(true, Slot(1, 0)))
  {
    net := ThreeAdds();
    StaleSlots();
    LookupInOne(Segment(0, 16, STALE_SLOTS), 1);
    r := net.Dispatch(1);
  }

  method ThreeAdds() returns (net: Network)
    ensures net.Valid() && fresh(net) && fresh(net.eh) && net.eh.ids == Life(STALE_CALLS)
    ensures IsOpen(Chan(net.channels, 0, 1)) && Chan(net.channels, 0, 1).value.data.ehId == 2
  {
    ghost var ids1, ids2 := StaleLife();
    net := OneAdd();
    var second := net.AddChannel(0, StreamingOpened, 1, true, false);
    assert net.eh.ids == ids2;
    var third := net.AddChannel(0, StreamingOpened, 1, true, true);
  }

  method OneAdd() returns (net: Network)
    ensures net.Valid() && fresh(net) && fresh(net.eh) && net.eh.ids == Apply([], AddCall(Slot(0, 0), true))
    ensures 0 in net.channels && NextId(net.channels[0]) == 1
  {
    net := new Network();
    net.OpenSocket(0);
    var first := net.AddChannel(0, StreamingOpened, 1, true, true);
  }
}
