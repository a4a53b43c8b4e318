/** The in-process peer channel of direct_stream: every peer has one incoming queue for each peer
    it hears from. */
module DirectStream {
  import opened Wrappers

  type Peer = string

  datatype Packet = Join | Drop | Data(body: string)

  type Queues = map<Peer, seq<Packet>>

  /** What happened on the channel. A constructor that fails half way has joined only some of
      the peers that were there. */
  datatype Event =
    | Created(peer: Peer, joined: set<Peer>)
    | Destroyed(peer: Peer)
    | Sent(source: Peer, target: Peer, packet: Packet)

  type Log = seq<Event>

  function ListedAfter(was: set<Peer>, e: Event): set<Peer> {
    match e
    case Created(p, _) => was + {p}
    case Destroyed(p) => was - {p}
    case Sent(_, _, _) => was
  }

  // The peers the channel lists.
  function Listed(log: Log): set<Peer> {
    if log == [] then {} else ListedAfter(Listed(log[..|log| - 1]), log[|log| - 1])
  }

  function EverListed(log: Log): set<Peer> {
    if log == [] then {} else
    EverListed(log[..|log| - 1]) + if log[|log| - 1].Created? then {log[|log| - 1].peer} else {}
  }

  /** A new id joins every peer that is there; a used one may fail half way. Only listed peers
      send, receive and go. */
  predicate MayHappen(log: Log, e: Event) {
    match e
    case Created(p, joined) =>
      p !in Listed(log) && joined <= Listed(log) && (p !in EverListed(log) ==> joined == Listed(log))
    case Destroyed(p) => p in Listed(log)
    case Sent(a, b, _) => a != b && a in Listed(log) && b in Listed(log)
  }

  predicate Legal(log: Log) {
    log == [] || (Legal(log[..|log| - 1]) && MayHappen(log[..|log| - 1], log[|log| - 1]))
  }

  // What an event adds to the packets a has put into b's queue; a new b starts with none.
  function GivenAfter(was: seq<Packet>, e: Event, a: Peer, b: Peer): seq<Packet> {
    match e
    case Created(p, joined) =>
      if p == b then (if a in joined then [Join] else [])
      else if p == a && b in joined then was + [Join]
      else was
    case Destroyed(p) => if p == a then was + [Drop] else was
    case Sent(x, y, packet) => if x == a && y == b then was + [packet] else was
  }

  /** What a has put into b's queue since b was created last, for a listed b. */
  function Given(log: Log, a: Peer, b: Peer): seq<Packet> {
    if log == [] || b !in Listed(log) then [] else GivenAfter(Given(log[..|log| - 1], a, b), log[|log| - 1], a, b)
  }

  // ---------------------------------------------------------------- without reuse of peer ids

  predicate NoReuse(log: Log) {
    log == [] ||
    var front, e := log[..|log| - 1], log[|log| - 1];
    NoReuse(front) && (e.Created? ==> e.peer !in EverListed(front))
  }

  // At some time both were listed.
  predicate Met(log: Log, a: Peer, b: Peer) {
    log != [] && (Met(log[..|log| - 1], a, b) || (a in Listed(log) && b in Listed(log)))
  }

  // Everything a ever sent to b, in order.
  function Sends(log: Log, a: Peer, b: Peer): seq<Packet> {
    if log == [] then [] else
    var front, e := Sends(log[..|log| - 1], a, b), log[|log| - 1];
    if e.Sent? && e.source == a && e.target == b then front + [e.packet] else front
  }

  lemma {:induction false} Bystanders(log: Log, a: Peer, b: Peer)
    requires Legal(log)
    ensures Listed(log) <= EverListed(log)
    ensures Met(log, a, b) ==> a in EverListed(log) && b in EverListed(log)
    ensures Sends(log, a, b) != [] ==> Met(log, a, b)
  {
    if log != [] { Bystanders(log[..|log| - 1], a, b); }
  }

  /** Without reuse of ids, a peer that is there is given by every other one it has met: join,
      then its packets in the order sent, then drop if it has gone; and nothing by one it has
      never met. */
  lemma {:induction false} GivenWithoutReuse(log: Log, a: Peer, b: Peer)
    requires Legal(log) && NoReuse(log) && a != b && b in Listed(log)
    ensures Given(log, a, b) ==
            if Met(log, a, b) then [Join] + Sends(log, a, b) + (if a in Listed(log) then [] else [Drop]) else []
  {
    if log != [] {
      var front := log[..|log| - 1];
      Bystanders(front, a, b);
      if b in Listed(front) { GivenWithoutReuse(front, a, b); }
    }
  }

  // ---------------------------------------------------------------- the channel

  datatype CreateResult = Made | IdTaken | StaleQueue

  datatype SendResult = SentOff | ToSelf | NoPeer

  function QueueOf(q: Queues, a: Peer): seq<Packet> {
    if a in q then q[a] else []
  }

  function Pushed(q: Queues, a: Peer, x: Packet): Queues {
    q[a := QueueOf(q, a) + [x]]
  }

  type Streams = map<Peer, Queues>

  type Received = map<(Peer, Peer), seq<Packet>>

  // What b has received from a since b was created last.
  function Taken(taken: Received, b: Peer, a: Peer): seq<Packet> {
    if (b, a) in taken then taken[(b, a)] else []
  }

  /** Nothing is lost, doubled or reordered: what b has taken from a and what waits for it are
      together what a gave. */
  ghost predicate Conserved(streams: Streams, log: Log, taken: Received) {
    forall a, b :: b in streams && a != b ==> PairConserved(streams, log, taken, a, b)
  }

  predicate PairConserved(streams: Streams, log: Log, taken: Received, a: Peer, b: Peer)
    requires b in streams
  {
    Taken(taken, b, a) + QueueOf(streams[b], a) == Given(log, a, b)
  }

  ghost predicate QueuesOk(streams: Streams, log: Log) {
    && (forall b :: b in streams ==> b !in streams[b] && streams[b].Keys <= EverListed(log))
    && (forall a, b :: b in streams && a in streams[b] ==> streams[b][a] != [])
  }

  ghost predicate Consistent(streams: Streams, log: Log, taken: Received) {
    Legal(log) && Listed(log) == streams.Keys && QueuesOk(streams, log) && Conserved(streams, log, taken)
  }

  // ---------------------------------------------------------------- what each step leaves

  function AllJoin(joined: set<Peer>): Queues {
    map b | b in joined :: [Join]
  }

  /** The peers in `reached` have x from self behind the rest. */
  function PushedTo(streams: Streams, reached: set<Peer>, self: Peer, x: Packet): Streams {
    map b | b in streams :: if b in reached then Pushed(streams[b], self, x) else streams[b]
  }

  lemma Unsnoc(log: Log, e: Event, a: Peer, b: Peer)
    ensures Legal(log + [e]) == (Legal(log) && MayHappen(log, e))
    ensures Listed(log + [e]) == ListedAfter(Listed(log), e)
    ensures EverListed(log + [e]) == EverListed(log) + if e.Created? then {e.peer} else {}
    ensures Given(log + [e], a, b) == if b in ListedAfter(Listed(log), e)
            then GivenAfter(Given(log, a, b), e, a, b) else []
  {
    assert (log + [e])[..|log|] == log;
  }

  // Whatever joins two parts also joins them with one more element behind.
  lemma OneMore(t: seq<Packet>, q: seq<Packet>, x: Packet)
    ensures t + (q + [x]) == (t + q) + [x]
  {}

  function Forget(taken: Received, self: Peer): Received {
    map k | k in taken && k.0 != self :: taken[k]
  }

  lemma CreateKeepsPair(streams: Streams, log: Log, taken: Received, self: Peer, joined: set<Peer>, a: Peer, b: Peer)
    requires joined <= streams.Keys == Listed(log) && self !in streams && (b == self || b in streams) && a != b
    requires b in joined ==> self !in streams[b]
    requires b in streams ==> PairConserved(streams, log, taken, a, b)
    ensures PairConserved(PushedTo(streams, joined, self, Join)[self := AllJoin(joined)],
                          log + [Created(self, joined)], Forget(taken, self), a, b)
  {
    Unsnoc(log, Created(self, joined), a, b);
    if b != self {
      OneMore(Taken(taken, b, a), QueueOf(streams[b], a), Join);
    }
  }

  lemma CreateKeepsQueues(streams: Streams, log: Log, self: Peer, joined: set<Peer>)
    requires QueuesOk(streams, log) && self !in streams && joined <= streams.Keys <= EverListed(log)
    ensures QueuesOk(PushedTo(streams, joined, self, Join)[self := AllJoin(joined)], log + [Created(self, joined)])
  {
    Unsnoc(log, Created(self, joined), self, self);
  }

  lemma AfterCreate(streams: Streams, log: Log, taken: Received, self: Peer, joined: set<Peer>)
    requires Consistent(streams, log, taken) && self !in streams && joined <= streams.Keys
    requires self !in EverListed(log) ==> joined == streams.Keys
    requires forall b :: b in joined ==> self !in streams[b]
    ensures Consistent(PushedTo(streams, joined, self, Join)[self := AllJoin(joined)], log + [Created(self, joined)],
            Forget(taken, self))
  {
    var next, log' := PushedTo(streams, joined, self, Join)[self := AllJoin(joined)], log + [Created(self, joined)];
    Unsnoc(log, Created(self, joined), self, self);
    Bystanders(log, self, self);
    CreateKeepsQueues(streams, log, self, joined);
    assert next.Keys == streams.Keys + {self};
    forall a, b | b in next && a != b
      ensures PairConserved(next, log', Forget(taken, self), a, b)
    {
      CreateKeepsPair(streams, log, taken, self, joined, a, b);
    }
  }

  lemma AfterDestroy(streams: Streams, log: Log, taken: Received, self: Peer)
    requires Consistent(streams, log, taken) && self in streams
    ensures Consistent(PushedTo(streams - {self}, streams.Keys, self, Drop), log + [Destroyed(self)], taken)
  {
    var next, log' := PushedTo(streams - {self}, streams.Keys, self, Drop), log + [Destroyed(self)];
    Unsnoc(log, Destroyed(self), self, self);
    Bystanders(log, self, self);
    assert next.Keys == streams.Keys - {self};
    forall a, b | b in next && a != b
      ensures PairConserved(next, log', taken, a, b)
    {
      Unsnoc(log, Destroyed(self), a, b);
      assert PairConserved(streams, log, taken, a, b);
      OneMore(Taken(taken, b, a), QueueOf(streams[b], a), Drop);
    }
  }

  lemma AfterSend(streams: Streams, log: Log, taken: Received, self: Peer, target: Peer, x: Packet)
    requires Consistent(streams, log, taken) && self in streams && target in streams && target != self
    ensures Consistent(streams[target := Pushed(streams[target], self, x)], log + [Sent(self, target, x)], taken)
  {
    var next, log' := streams[target := Pushed(streams[target], self, x)], log + [Sent(self, target, x)];
    Unsnoc(log, Sent(self, target, x), self, self);
    Bystanders(log, self, self);
    assert next.Keys == streams.Keys;
    forall a, b | b in next && a != b
      ensures PairConserved(next, log', taken, a, b)
    {
      Unsnoc(log, Sent(self, target, x), a, b);
      assert PairConserved(streams, log, taken, a, b);
      OneMore(Taken(taken, b, a), QueueOf(streams[b], a), x);
    }
  }

  lemma AfterReceive(streams: Streams, log: Log, taken: Received, self: Peer, source: Peer)
    requires Consistent(streams, log, taken) && self in streams && source in streams[self]
    ensures Consistent(streams[self := streams[self] - {source}], log,
                       taken[(self, source) := Taken(taken, self, source) + streams[self][source]])
  {
    var next := streams[self := streams[self] - {source}];
    var taken' := taken[(self, source) := Taken(taken, self, source) + streams[self][source]];
    forall a, b | b in next && a != b
      ensures PairConserved(next, log, taken', a, b)
    {
      assert PairConserved(streams, log, taken, a, b);
    }
  }

  // ---------------------------------------------------------------- the loops over the peers

  lemma JoinOne(was: Streams, joined: set<Peer>, self: Peer, b: Peer)
    requires b in was && b !in joined && self !in was && self !in was[b]
    ensures var now := PushedTo(was, joined, self, Join)[self := AllJoin(joined)];
            && b in now && self in now && now[b] == was[b]
            && now[b := Pushed(now[b], self, Join)][self := Pushed(now[self], b, Join)] ==
               PushedTo(was, joined + {b}, self, Join)[self := AllJoin(joined + {b})]
  {
    assert AllJoin(joined)[b := [Join]] == AllJoin(joined + {b});
    assert Pushed(AllJoin(joined), b, Join) == AllJoin(joined + {b}) by { assert [] + [Join] == [Join]; }
    assert PushedTo(was, joined, self, Join)[b := Pushed(was[b], self, Join)] ==
           PushedTo(was, joined + {b}, self, Join);
  }

  lemma DropOne(was: Streams, rest: set<Peer>, self: Peer, b: Peer)
    requires b in rest && rest <= was.Keys
    ensures var now := PushedTo(was - ({self} - rest), was.Keys - rest, self, Drop);
            b in now && (if b == self then now - {self} else now[b := Pushed(now[b], self, Drop)]) ==
              PushedTo(was - ({self} - (rest - {b})), was.Keys - (rest - {b}), self, Drop)
  {}

  class Channel {
    var streams: Streams

    ghost var log: Log
    ghost var taken: Received

    ghost predicate Valid()
      reads this
    {
      Consistent(streams, log, taken)
    }

    constructor ()
      ensures Valid() && streams == map[] && log == []
    {
      streams, log, taken := map[], [], map[];
    }

    /** The stream's constructor. A queue that some peer still keeps for this id makes it throw,
        but only after the id is listed and the peers visited before have been joined. */
    method Create(self: Peer) returns (res: CreateResult, ghost joined: set<Peer>)
      requires Valid()
      modifies this
      ensures Valid()
      ensures res.IdTaken? <==> self in old(streams)
      ensures res.StaleQueue? <==> self !in old(streams) && exists b :: b in old(streams) && self in old(streams)[b]
      ensures res.IdTaken? ==> streams == old(streams) && log == old(log) && taken == old(taken)
      ensures self !in EverListed(old(log)) ==> res.Made?
      ensures !res.IdTaken? ==>
                && joined <= old(streams).Keys && log == old(log) + [Created(self, joined)]
                && streams == PushedTo(old(streams), joined, self, Join)[self := AllJoin(joined)]
      ensures res.Made? ==> joined == old(streams).Keys
    {
      joined := {};
      Bystanders(log, self, self);
      if self in streams {
        return IdTaken, joined;
      }
      var others := streams.Keys;
      streams := streams[self := map[]];
      res := Made;
      while others != {} && res.Made?
        invariant others + joined == old(streams).Keys && others !! joined
        invariant log == old(log) && taken == old(taken)
        invariant streams == PushedTo(old(streams), joined, self, Join)[self := AllJoin(joined)]
        invariant forall b :: b in joined ==> self !in old(streams)[b]
        invariant res.Made? || (res.StaleQueue? && exists b :: b in others && self in old(streams)[b])
        decreases others, res.Made?
      {
        var b :| b in others;
        if self !in old(streams)[b] { JoinOne(old(streams), joined, self, b); }
        if self in streams[b] {
          res := StaleQueue;
        } else {
          streams := streams[b := Pushed(streams[b], self, Join)][self := Pushed(streams[self], b, Join)];
          others := others - {b};
          joined := joined + {b};
        }
      }
      AfterCreate(old(streams), log, taken, self, joined);
      log := log + [Created(self, joined)];
      taken := Forget(taken, self);
    }

    /** The stream's destructor, run for a stream that is listed. */
    method Destroy(self: Peer)
      requires Valid() && self in streams
      modifies this
      ensures Valid() && log == old(log) + [Destroyed(self)] && taken == old(taken)
      ensures streams == PushedTo(old(streams) - {self}, old(streams).Keys, self, Drop)
    {
      var rest := streams.Keys;
      while rest != {}
        invariant rest <= old(streams).Keys && log == old(log) && taken == old(taken)
        invariant streams == PushedTo(old(streams) - ({self} - rest), old(streams).Keys - rest, self, Drop)
        decreases rest
      {
        var b :| b in rest;
        DropOne(old(streams), rest, self, b);
        if b == self {
          streams := streams - {self};
        } else {
          streams := streams[b := Pushed(streams[b], self, Drop)];
        }
        rest := rest - {b};
      }
      AfterDestroy(old(streams), log, taken, self);
      log := log + [Destroyed(self)];
    }

    /** send, by a stream that is listed. */
    method Send(self: Peer, b: Peer, x: Packet) returns (res: SendResult)
      requires Valid() && self in streams
      modifies this
      ensures Valid() && taken == old(taken)
      ensures res == if b == self then ToSelf else if b !in old(streams) then NoPeer else SentOff
      ensures !res.SentOff? ==> streams == old(streams) && log == old(log)
      ensures res.SentOff? ==> log == old(log) + [Sent(self, b, x)]
      ensures res.SentOff? ==> streams == old(streams)[b := Pushed(old(streams)[b], self, x)]
    {
      if b == self {
        return ToSelf;
      }
      if b !in streams {
        return NoPeer;
      }
      AfterSend(streams, log, taken, self, b, x);
      streams := streams[b := Pushed(streams[b], self, x)];
      log := log + [Sent(self, b, x)];
      return SentOff;
    }

    /** receive, by a stream that is listed: everything that waits from some one peer, or
        nothing when nothing waits. */
    method Receive(self: Peer) returns (source: Option<Peer>, packets: seq<Packet>)
      requires Valid() && self in streams
      modifies this
      ensures Valid() && log == old(log)
      ensures source.None? <==> old(streams)[self] == map[]
      ensures source.None? ==> packets == [] && streams == old(streams) && taken == old(taken)
      ensures source.Some? ==>
                && source.value in old(streams)[self] && packets == old(streams)[self][source.value] && packets != []
                && streams == old(streams)[self := old(streams)[self] - {source.value}]
                && taken == old(taken)[(self, source.value) := Taken(old(taken), self, source.value) + packets]
    {
      source, packets := None, [];
      if streams[self] != map[] {
        var a :| a in streams[self];
        source := Some(a);
        var waiting := streams[self][a];
        while waiting != []
          invariant packets + waiting == streams[self][a]
        {
          packets := packets + [waiting[0]];
          waiting := waiting[1..];
        }
        assert packets == streams[self][a];
        AfterReceive(streams, log, taken, self, a);
        taken := taken[(self, a) := Taken(taken, self, a) + packets];
        streams := streams[self := streams[self] - {a}];
      }
    }

    /** In every run without reuse of peer ids: what a listed peer has taken from another plus what
        waits for it is join, the packets sent to it in order, then drop if the other has gone. */
    lemma Delivery(a: Peer, b: Peer)
      requires Valid() && NoReuse(log) && a != b && b in streams
      ensures Taken(taken, b, a) + QueueOf(streams[b], a) ==
              if Met(log, a, b) then [Join] + Sends(log, a, b) + (if a in streams then [] else [Drop]) else []
    {
      assert PairConserved(streams, log, taken, a, b);
      GivenWithoutReuse(log, a, b);
    }
  }

  /** Calls that use an id again too early: b has not taken what the first a gave it. */
  method ReusedTooEarly() returns (channel: Channel, res: CreateResult)
    ensures channel.Valid() && res == StaleQueue && "a" in channel.streams && "b" in channel.streams
  {
    channel := new Channel();
    ghost var joined;
    res, joined := channel.Create("a");
    assert channel.streams == map["a" := map[]];
    res, joined := channel.Create("b");
    assert "a" in channel.streams["b"];
    channel.Destroy("a");
    assert "a" in channel.streams["b"] && "a" !in channel.streams;
    res, joined := channel.Create("a");
  }
}
