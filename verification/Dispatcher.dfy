/** The code of main.rs between its awaits, on channels, sessions and a registry of channel references. What the
    daemon holds is related to the states of the transition system Daemon by an abstraction function; the fields
    marked ghost record the past and steer nothing. */
module Dispatcher {
  import opened Wrappers
  import opened Database
  import opened Daemon

  function Frames(items: seq<Item>): (f: seq<Frame>)
    ensures |f| == |items|
  {
    if items == [] then [] else Frames(items[..|items| - 1]) + [items[|items| - 1].frame]
  }

  lemma {:induction false} FirstFrame(items: seq<Item>)
    requires items != []
    ensures Frames(items)[0] == items[0].frame && Frames(items[1..]) == Frames(items)[1..]
  {
    var n := |items| - 1;
    if n > 0 {
      assert items[1..][..n - 1] == items[..n][1..];
      FirstFrame(items[..n]);
    }
  }

  datatype TrySendResult = Queued | Full | Closed

  /** A bounded channel: the frames in it, and whether its receiver is gone. */
  class Channel {
    var buffer: seq<Frame>
    var closed: bool
    ghost const owner: Sid
    ghost var items: seq<Item>
    ghost var log: seq<Item>

    ghost predicate Valid()
      reads this
    {
      buffer == Frames(items) && |buffer| <= WRITER_QUEUE_DEPTH
    }

    constructor (ghost owner: Sid)
      ensures Valid() && this.owner == owner && items == [] && log == [] && !closed
    {
      buffer, closed := [], false;
      this.owner, items, log := owner, [], [];
    }

    method Enqueue(frame: Frame, ghost src: Sid, ghost seqno: nat)
      requires Valid() && |buffer| < WRITER_QUEUE_DEPTH
      modifies this
      ensures Valid() && closed == old(closed)
      ensures items == old(items) + [Item(frame, src, seqno)] && log == old(log) + [Item(frame, src, seqno)]
    {
      buffer := buffer + [frame];
      ghost var item := Item(frame, src, seqno);
      assert (items + [item])[..|items|] == items;
      items, log := items + [item], log + [item];
    }

    /** A blocking send that completes: there is room, or the receiver is gone and the frame is lost. */
    method Send(frame: Frame, ghost src: Sid)
      requires Valid() && (closed || |buffer| < WRITER_QUEUE_DEPTH)
      modifies this
      ensures Valid() && closed == old(closed)
      ensures items == (if closed then old(items) else old(items) + [Item(frame, src, 0)])
      ensures log == (if closed then old(log) else old(log) + [Item(frame, src, 0)])
    {
      if !closed { Enqueue(frame, src, 0); }
    }

    /** try_send: a closed channel is told apart from a full one. */
    method TrySend(frame: Frame, ghost src: Sid, ghost seqno: nat) returns (r: TrySendResult)
      requires Valid()
      modifies this
      ensures Valid() && closed == old(closed)
      ensures r == if closed then Closed else if |old(items)| < WRITER_QUEUE_DEPTH then Queued else Full
      ensures r == Queued ==> items == old(items) + [Item(frame, src, seqno)] && log == old(log) + [Item(frame, src, seqno)]
      ensures r != Queued ==> items == old(items) && log == old(log)
    {
      if closed { return Closed; }
      if |buffer| == WRITER_QUEUE_DEPTH { return Full; }
      Enqueue(frame, src, seqno);
      return Queued;
    }

    method Recv() returns (frame: Frame)
      requires Valid() && items != []
      modifies this
      ensures Valid() && closed == old(closed) && log == old(log)
      ensures old(items) == [old(items)[0]] + items && frame == old(items)[0].frame
    {
      FirstFrame(items);
      frame := buffer[0];
      buffer := buffer[1..];
      items := items[1..];
    }

    /** The receiver is dropped, with what is left in the channel. */
    method Close()
      requires Valid()
      modifies this
      ensures Valid() && closed && items == [] && log == old(log)
    {
      buffer, closed := [], true;
      items := [];
    }
  }

  /** What a session's task is about to do, with the values it holds across its awaits. */
  datatype Step =
    | AtInsert | AtAck | AtRead | AtReply(frame: Frame)
    | AtLookup(target: PeerId, payload: string)
    | AtPush(tx: Channel, target: PeerId, payload: string)
    | AtCleanup | AtEnd

  ghost function TaskOf(step: Step): Task {
    match step
    case AtInsert => Greeted
    case AtAck => Acking
    case AtRead => Reading
    case AtReply(frame) => Replying(frame)
    case AtLookup(_, _) => LookingUp
    case AtPush(tx, _, _) => Pushing(tx.owner)
    case AtCleanup => Leaving
    case AtEnd => Left
  }

  /** A connection after its hello: its ids, its channel, and its writer: the frame it has taken out of the channel,
      whether it has left its loop, and what it has put on the socket. */
  class Peer {
    const peerId: PeerId
    const worldId: nat
    const first: bool
    const tx: Channel
    var step: Step
    var hand: Option<Frame>
    var stopping: bool
    var socket: seq<Frame>
    ghost var writer: Writer
    ghost const uuid: Uuid
    ghost var emitted: seq<Item>
    ghost var forwards: seq<Forward>
    ghost var outcomes: seq<Outcome>

    ghost predicate Valid()
      reads this, tx
    {
      && tx.Valid() && socket == Frames(emitted)
      && hand == (if writer.Holding? then Some(writer.item.frame) else None) && (stopping <==> writer.ShuttingDown?)
      && (step.AtLookup? ==> forwards != [] && Current(Abs()) == Forward(step.target, step.payload))
      && (step.AtPush? ==> forwards != [] && Current(Abs()) == Forward(step.target, step.payload))
    }

    /** The session of the transition system that this is. */
    ghost function Abs(): Session
      reads this, tx
    {
      Session(peerId, uuid, worldId, first, TaskOf(step), tx.items, emitted, !tx.closed, writer, tx.log, forwards,
              outcomes)
    }

    constructor (peerId: PeerId, ghost uuid: Uuid, worldId: nat, first: bool, ghost sid: Sid)
      ensures Valid() && fresh(tx) && tx.owner == sid && step == AtInsert
      ensures Abs() == Session(peerId, uuid, worldId, first, Greeted, [], [], true, Waiting, [], [], [])
    {
      this.peerId, this.worldId, this.first := peerId, worldId, first;
      tx := new Channel(sid);
      step, hand, stopping, socket, writer := AtInsert, None, false, [], Waiting;
      this.uuid, emitted, forwards, outcomes := uuid, [], [], [];
    }

    method Goto(next: Step)
      requires Valid() && !next.AtLookup? && !next.AtPush?
      modifies this`step
      ensures Valid() && step == next && Abs() == old(Abs()).(task := TaskOf(next))
    {
      step := next;
    }

    /** The reply that is due, on the session's own channel. */
    method Answer(frame: Frame)
      requires Valid() && CanSend(Abs())
      modifies tx
      ensures Valid() && Abs() == Sent(old(Abs()), tx.owner, frame)
    {
      tx.Send(frame, tx.owner);
    }

    /** The first half of forward: the checks before the registry is asked. */
    method BeginForward(target: PeerId, payload: string)
      requires Valid() && step.AtRead?
      modifies this
      ensures Valid() && !step.AtPush? && Abs() == AfterForwardRead(old(Abs()), target, payload)
    {
      hide ValidBase64;
      forwards := forwards + [Forward(target, payload)];
      if target == peerId {
        step := AtReply(ForwardError(target, SelfRouteRefused));
      } else if !ValidBase64(payload) {
        step := AtReply(ForwardError(target, UnknownPeer));
      } else {
        step := AtLookup(target, payload);
      }
    }

    method TargetOf() returns (target: PeerId)
      requires Valid() && step.AtLookup?
      ensures target == step.target && forwards != [] && target == Current(Abs()).target
    {
      target := step.target;
    }

    lemma ItemOf()
      requires Valid() && step.AtPush?
      ensures forwards != [] && Abs().forwards == forwards
      ensures ItemFor(Abs(), tx.owner) == Item(Delivery(peerId, step.payload), tx.owner, |forwards| - 1)
    {
    }

    /** Somebody sent on the channel. */
    twostate lemma TxChanged()
      requires old(Valid()) && unchanged(this) && tx.Valid() && tx.closed == old(tx.closed)
      ensures Valid() && Abs() == old(Abs()).(queue := tx.items, log := tx.log)
    {
      hide Channel.Valid;
    }

    /** What sender_for returned: a clone of the target's sender, or nothing. */
    method Found(sender: Option<Channel>)
      requires Valid() && step.AtLookup?
      modifies this`step
      ensures Valid() && (step.AtPush? ==> sender == Some(step.tx))
      ensures Abs() == old(Abs()).(task := if sender.Some? then Pushing(sender.value.owner)
                                           else Replying(ForwardError(Current(old(Abs())).target, UnknownPeer)))
    {
      if sender.Some? {
        step := AtPush(sender.value, step.target, step.payload);
      } else {
        step := AtReply(ForwardError(step.target, UnknownPeer));
      }
    }

    /** The end of forward, after try_send. */
    method EndForward(r: TrySendResult)
      requires Valid() && step.AtPush?
      modifies this
      ensures Valid() && !step.AtPush?
      ensures r == Queued ==>
                var c := old(Abs()); Abs() == c.(task := Reading, outcomes := c.outcomes + [Delivered(c.task.tx)])
      ensures r != Queued ==>
                var c := old(Abs());
                Abs() == c.(task := Replying(ForwardError(Current(c).target,
                                                          if r == Full then TargetBufferFull else UnknownPeer)))
    {
      match r {
        case Queued =>
          outcomes := outcomes + [Delivered(step.tx.owner)];
          step := AtRead;
        case Full => step := AtReply(ForwardError(step.target, TargetBufferFull));
        case Closed => step := AtReply(ForwardError(step.target, UnknownPeer));
      }
    }

    method Replied()
      requires Valid() && step.AtReply? && CanSend(Abs())
      modifies this, tx
      ensures Valid() && step == AtRead && Abs() == AfterReply(old(Abs()), tx.owner)
    {
      var frame := step.frame;
      Answer(frame);
      step := AtRead;
      if frame.ForwardError? {
        outcomes := outcomes + [Refused(frame.reason)];
      }
    }

    /** writer_loop takes the next frame out of the channel. */
    method Receive()
      requires Valid() && tx.items != [] && !tx.closed && writer.Waiting?
      modifies this, tx
      ensures Valid() && step == old(step)
      ensures var c := old(Abs()); Abs() == c.(queue := c.queue[1..], writer := Holding(c.queue[0]))
    {
      ghost var item := tx.items[0];
      var frame := tx.Recv();
      hand, writer := Some(frame), Holding(item);
    }

    /** The write of that frame ends; when it has failed, writer_loop leaves its loop and shuts the socket down. The
        channel is open until that has ended, too. */
    method Write(fails: bool)
      requires Valid() && writer.Holding?
      modifies this
      ensures Valid() && step == old(step)
      ensures var c := old(Abs());
              Abs() == if fails then c.(writer := ShuttingDown)
                       else c.(emitted := c.emitted + [c.writer.item], writer := Waiting)
    {
      if fails {
        hand, stopping, writer := None, true, ShuttingDown;
      } else {
        assert (emitted + [writer.item])[..|emitted|] == emitted;
        socket := socket + [hand.value];
        emitted := emitted + [writer.item];
        hand, writer := None, Waiting;
      }
    }

    /** The end of writer_loop: the receiver is dropped, with the frames still in the channel. */
    method Finish()
      requires Valid()
      modifies tx
      ensures Valid() && Abs() == old(Abs()).(queue := [], writing := false)
    {
      tx.Close();
    }
  }

  /** The sessions whose channels the registry holds. */
  ghost function Owners(registry: map<PeerId, Channel>): map<PeerId, Sid> {
    map p | p in registry :: registry[p].owner
  }

  lemma OwnersAdded(registry: map<PeerId, Channel>, p: PeerId, tx: Channel)
    ensures Owners(registry[p := tx]) == Owners(registry)[p := tx.owner]
  {
  }

  lemma OwnersRemoved(registry: map<PeerId, Channel>, p: PeerId)
    ensures Owners(registry - {p}) == Owners(registry) - {p}
  {
  }

  lemma OwnerOf(registry: map<PeerId, Channel>, p: PeerId)
    ensures p in Owners(registry) <==> p in registry
    ensures p in registry ==> Owners(registry)[p] == registry[p].owner
  {
  }

  /** The shared state: the tables, the registry of live writers, and the connections. */
  class Dispatcher {
    var db: Db
    var registry: map<PeerId, Channel>
    var peers: map<Sid, Peer>

    ghost function Objects(): set<object>
      reads this`peers
    {
      (set x | x in peers :: peers[x]) + (set x | x in peers :: peers[x].tx)
    }

    /** The channels in use are those of the connections, and no two connections share anything. */
    ghost predicate Valid()
      reads this, Objects()
    {
      && (forall x | x in peers :: peers[x].Valid() && peers[x].tx.owner == x)
      && (forall x, y | x in peers && y in peers && x != y :: peers[x] != peers[y] && peers[x].tx != peers[y].tx)
      && (forall p | p in registry :: Held(registry[p]))
      && (forall x | x in peers && peers[x].step.AtPush? :: Held(peers[x].step.tx))
    }

    ghost predicate Held(tx: Channel)
      reads this`peers
    {
      tx.owner in peers && peers[tx.owner].tx == tx
    }

    ghost function Sessions(): (s: map<Sid, Session>)
      reads this`peers, Objects()
      ensures s.Keys == peers.Keys
    {
      map x | x in peers :: peers[x].Abs()
    }

    /** The state of the transition system that this is. */
    ghost function Now(): State
      reads this, Objects()
    {
      State(db, Owners(registry), Sessions())
    }

    constructor ()
      ensures Valid() && Now() == INITIAL && Objects() == {}
    {
      db, registry, peers := EMPTY, map[], map[];
    }

    // ---- the registry and the database -------------------------------------------------------------------

    method Register(peerId: PeerId, tx: Channel)
      modifies this`registry
      ensures registry == old(registry)[peerId := tx]
    {
      registry := registry[peerId := tx];
    }

    method Remove(peerId: PeerId)
      modifies this`registry
      ensures registry == old(registry) - {peerId}
    {
      registry := registry - {peerId};
    }

    method SenderFor(peerId: PeerId) returns (tx: Option<Channel>)
      ensures tx == if peerId in registry then Some(registry[peerId]) else None
    {
      if peerId in registry { return Some(registry[peerId]); }
      return None;
    }

    method UpsertWorld(worldId: nat, uuid: Uuid, newId: PeerId) returns (peer: PeerId, first: bool)
      modifies this`db
      ensures db == Upsert(old(db), worldId, uuid, newId)
      ensures peer == db.worlds[uuid].peer && first == First(old(db), uuid)
      ensures peer == if uuid in old(db).worlds then old(db).worlds[uuid].peer else newId
      ensures first <==> uuid !in old(db).worlds
      ensures uuid in db.worlds && db.worlds[uuid] == World(peer, worldId) && db.sectors == old(db).sectors
      ensures forall u | u != uuid :: u in db.worlds <==> u in old(db).worlds
      ensures forall u | u in old(db).worlds && u != uuid :: db.worlds[u] == old(db).worlds[u]
    {
      if uuid in db.worlds {
        peer, first := db.worlds[uuid].peer, false;
      } else {
        peer, first := newId, true;
      }
      db := db.(worlds := db.worlds[uuid := World(peer, worldId)]);
    }

    method ClaimSector(sector: Sector, peer: PeerId)
      modifies this`db
      ensures db == Claim(old(db), sector, peer)
    {
      db := db.(sectors := db.sectors[sector := peer]);
    }

    method ResolveSector(sector: Sector) returns (owner: Option<PeerId>)
      ensures owner == Resolve(db, sector)
    {
      if sector in db.sectors { return Some(db.sectors[sector]); }
      return None;
    }

    // ---- frames ------------------------------------------------------------------------------------------

    /** Only one connection, and at most its channel, has changed. */
    twostate lemma OneChanged(x: Sid)
      requires old(Valid()) && peers == old(peers) && x in peers && peers[x].Valid()
      requires forall p | p in registry :: Held(registry[p])
      requires peers[x].step.AtPush? ==> Held(peers[x].step.tx)
      requires forall y | y in peers && y != x :: unchanged(peers[y]) && unchanged(peers[y].tx)
      ensures Valid() && Sessions() == old(Sessions())[x := peers[x].Abs()]
    {
      hide Peer.Valid, Peer.Abs;
      OthersSame(x);
    }

    twostate lemma OthersSame(x: Sid)
      requires old(Valid()) && peers == old(peers) && x in peers
      requires forall y | y in peers && y != x :: unchanged(peers[y]) && unchanged(peers[y].tx)
      ensures forall y | y in peers && y != x :: peers[y].Valid() && peers[y].Abs() == old(peers[y].Abs())
    {
      hide Peer.Valid, Peer.Abs;
    }

    twostate lemma ObjectsGrow(objects: set<object>, new p: Peer)
      requires objects == old(Objects()) && fresh(p) && fresh(p.tx)
      requires forall x | x in peers :: peers[x] == p || (x in old(peers) && peers[x] == old(peers)[x])
      ensures fresh(Objects() - objects)
    {
    }

    /** A connection has been added. */
    twostate lemma OneAdded(x: Sid, new p: Peer)
      requires old(Valid()) && x !in old(peers) && peers == old(peers)[x := p] && registry == old(registry)
      requires fresh(p) && fresh(p.tx) && p.Valid() && p.tx.owner == x && !p.step.AtPush?
      requires forall y | y in old(peers) :: unchanged(old(peers)[y]) && unchanged(old(peers)[y].tx)
      ensures Valid() && Sessions() == old(Sessions())[x := p.Abs()]
    {
      hide Peer.Valid, Peer.Abs;
      forall y | y in old(peers)
        ensures peers[y] == old(peers)[y] && peers[y].Valid() && peers[y].Abs() == old(peers[y].Abs())
      {
      }
    }

    /** What is known of one connection. */
    lemma Facts(x: Sid)
      requires Valid() && x in peers
      ensures var p := peers[x];
              && p.Valid() && p.tx.owner == x && p in Objects() && p.tx in Objects()
              && (forall y | y in peers && y != x :: peers[y] != p && peers[y].tx != p.tx)
              && (p.step.AtPush? ==> Held(p.step.tx))
              && x in Sessions() && Sessions()[x] == p.Abs()
    {
      hide Peer.Valid, Peer.Abs;
    }

    /** The fields of a connection that the code reads. */
    lemma Fields(x: Sid)
      requires Valid() && x in peers
      ensures var p, c := peers[x], peers[x].Abs();
              && p.tx.Valid() && c.peer == p.peerId && c.worldId == p.worldId && c.first == p.first && c.task == TaskOf(p.step)
              && c.queue == p.tx.items && c.log == p.tx.log && c.writing == !p.tx.closed
              && c.writer == p.writer
    {
    }

    lemma RoutesHeld()
      requires Valid()
      ensures forall p | p in registry :: Held(registry[p])
    {
      hide Peer.Valid;
    }

    // ---- handle_peer -------------------------------------------------------------------------------------

    method OnHello(sid: Sid, worldId: nat, uuid: Uuid, newId: PeerId)
      requires Valid() && Enabled(Now(), Label.Hello(sid, worldId, uuid, newId))
      modifies this`db, this`peers
      ensures Valid() && Now() == Next(old(Now()), Label.Hello(sid, worldId, uuid, newId))
      ensures fresh(Objects() - old(Objects()))
    {
      hide Peer.Valid, Peer.Abs, Valid, Sessions, Objects, Owners, Next, Enabled, Upsert;
      HelloIs(Now(), Label.Hello(sid, worldId, uuid, newId));
      var peerId, first := UpsertWorld(worldId, uuid, newId);
      var p := new Peer(peerId, uuid, worldId, first, sid);
      peers := peers[sid := p];
      OneAdded(sid, p);
      ObjectsGrow(old(Objects()), p);
    }

    method OnInsert(sid: Sid)
      requires Valid() && Enabled(Now(), Insert(sid))
      modifies this`registry, Objects()
      ensures Valid() && Now() == Next(old(Now()), Insert(sid))
      ensures Objects() == old(Objects())
    {
      hide Peer.Valid, Peer.Abs, Valid, Sessions, Objects, Owners, Next, Enabled;
      InsertIs(Now(), sid);
      Facts(sid);
      Fields(sid);
      RoutesHeld();
      var p := peers[sid];
      Register(p.peerId, p.tx);
      p.Goto(AtAck);
      OwnersAdded(old(registry), p.peerId, p.tx);
      OneChanged(sid);
    }

    method OnAck(sid: Sid)
      requires Valid() && Enabled(Now(), Ack(sid))
      modifies Objects()
      ensures Valid() && Now() == Next(old(Now()), Ack(sid))
      ensures Objects() == old(Objects())
    {
      hide Peer.Valid, Peer.Abs, Valid, Sessions, Objects, Owners, Next, Enabled;
      AckIs(Now(), sid);
      Facts(sid);
      Fields(sid);
      RoutesHeld();
      var p := peers[sid];
      p.Answer(HelloAck(p.peerId, p.worldId, p.first));
      p.Goto(AtRead);
      OneChanged(sid);
    }

    method OnCleanup(sid: Sid)
      requires Valid() && Enabled(Now(), Cleanup(sid))
      modifies this`registry, Objects()
      ensures Valid() && Now() == Next(old(Now()), Cleanup(sid))
      ensures Objects() == old(Objects())
    {
      hide Peer.Valid, Peer.Abs, Valid, Sessions, Objects, Owners, Next, Enabled;
      CleanupIs(Now(), sid);
      Facts(sid);
      Fields(sid);
      RoutesHeld();
      var p := peers[sid];
      Remove(p.peerId);
      p.Goto(AtEnd);
      OwnersRemoved(old(registry), p.peerId);
      OneChanged(sid);
    }

    // ---- reader_loop -------------------------------------------------------------------------------------

    method OnPing(sid: Sid, ts: nat)
      requires Valid() && Enabled(Now(), Ping(sid, ts))
      modifies Objects()
      ensures Valid() && Now() == Next(old(Now()), Ping(sid, ts))
      ensures Objects() == old(Objects())
    {
      hide Peer.Valid, Peer.Abs, Valid, Sessions, Objects, Owners, Next, Enabled;
      PingIs(Now(), sid, ts);
      Facts(sid);
      Fields(sid);
      RoutesHeld();
      var p := peers[sid];
      p.Goto(AtReply(Pong(ts)));
      OneChanged(sid);
    }

    method OnClaim(sid: Sid, sector: Sector)
      requires Valid() && Enabled(Now(), ClaimRead(sid, sector))
      modifies this`db, Objects()
      ensures Valid() && Now() == Next(old(Now()), ClaimRead(sid, sector))
      ensures Objects() == old(Objects())
    {
      hide Peer.Valid, Peer.Abs, Valid, Sessions, Objects, Owners, Next, Enabled;
      ClaimIs(Now(), sid, sector);
      Facts(sid);
      Fields(sid);
      RoutesHeld();
      var p := peers[sid];
      ClaimSector(sector, p.peerId);
      p.Goto(AtReply(SectorClaimed(sector, p.peerId)));
      OneChanged(sid);
    }

    method OnResolve(sid: Sid, sector: Sector)
      requires Valid() && Enabled(Now(), ResolveRead(sid, sector))
      modifies Objects()
      ensures Valid() && Now() == Next(old(Now()), ResolveRead(sid, sector))
      ensures Objects() == old(Objects())
    {
      hide Peer.Valid, Peer.Abs, Valid, Sessions, Objects, Owners, Next, Enabled;
      ResolveIs(Now(), sid, sector);
      Facts(sid);
      Fields(sid);
      RoutesHeld();
      var p := peers[sid];
      var owner := ResolveSector(sector);
      match owner {
        case Some(peer) => p.Goto(AtReply(SectorResolved(sector, peer)));
        case None => p.Goto(AtReply(SectorUnknown(sector)));
      }
      OneChanged(sid);
    }

    method OnReply(sid: Sid)
      requires Valid() && Enabled(Now(), Reply(sid))
      modifies Objects()
      ensures Valid() && Now() == Next(old(Now()), Reply(sid))
      ensures Objects() == old(Objects())
    {
      hide Peer.Valid, Peer.Abs, Valid, Sessions, Objects, Owners, Next, Enabled, AfterReply;
      ReplyIs(Now(), sid);
      Facts(sid);
      Fields(sid);
      RoutesHeld();
      var p := peers[sid];
      p.Replied();
      OneChanged(sid);
    }

    method OnReadError(sid: Sid)
      requires Valid() && Enabled(Now(), ReadError(sid))
      modifies Objects()
      ensures Valid() && Now() == Next(old(Now()), ReadError(sid))
      ensures Objects() == old(Objects())
    {
      hide Peer.Valid, Peer.Abs, Valid, Sessions, Objects, Owners, Next, Enabled;
      ReadErrorIs(Now(), sid);
      Facts(sid);
      Fields(sid);
      RoutesHeld();
      var p := peers[sid];
      p.Goto(AtCleanup);
      OneChanged(sid);
    }

    // ---- forward -----------------------------------------------------------------------------------------

    method OnForward(sid: Sid, target: PeerId, payload: string)
      requires Valid() && Enabled(Now(), ForwardRead(sid, target, payload))
      modifies Objects()
      ensures Valid() && Now() == Next(old(Now()), ForwardRead(sid, target, payload))
      ensures Objects() == old(Objects())
    {
      hide Peer.Valid, Peer.Abs, Valid, Sessions, Objects, Owners, Next, Enabled, AfterForwardRead;
      ForwardIs(Now(), sid, target, payload);
      Facts(sid);
      Fields(sid);
      RoutesHeld();
      var p := peers[sid];
      p.BeginForward(target, payload);
      OneChanged(sid);
    }

    method OnLookup(sid: Sid)
      requires Valid() && Enabled(Now(), Lookup(sid))
      modifies Objects()
      ensures Valid() && Now() == Next(old(Now()), Lookup(sid))
      ensures Objects() == old(Objects())
    {
      hide Peer.Valid, Peer.Abs, Valid, Sessions, Objects, Owners, Next, Enabled;
      LookupIs(Now(), sid);
      Facts(sid);
      Fields(sid);
      RoutesHeld();
      var p := peers[sid];
      var target := p.TargetOf();
      OwnerOf(registry, target);
      var sender := SenderFor(target);
      p.Found(sender);
      OneChanged(sid);
    }

    /** try_send on the sender that the lookup returned. */
    method TrySendFrom(sid: Sid) returns (r: TrySendResult)
      requires Valid() && sid in peers && peers[sid].step.AtPush?
      modifies Objects()
      ensures Valid() && unchanged(this) && unchanged(peers[sid])
      ensures CanPush(old(Sessions()), sid)
      ensures var t := Receiver(old(Sessions()), sid);
              (r == Queued <==> Accepts(t)) && (r == Closed <==> !t.writing)
      ensures Sessions() == Offered(old(Sessions()), sid)
    {
      hide Peer.Valid, Peer.Abs, Valid, Sessions, Objects, ItemFor;
      Facts(sid);
      Fields(sid);
      RoutesHeld();
      var p := peers[sid];
      var tx := p.step.tx;
      Facts(tx.owner);
      Fields(tx.owner);
      p.ItemOf();
      r := tx.TrySend(Delivery(p.peerId, p.step.payload), sid, |p.forwards| - 1);
      peers[tx.owner].TxChanged();
      OneChanged(tx.owner);
    }

    method OnPush(sid: Sid)
      requires Valid() && Enabled(Now(), Push(sid))
      modifies Objects()
      ensures Valid() && Now() == Next(old(Now()), Push(sid))
      ensures Objects() == old(Objects())
    {
      hide Peer.Valid, Peer.Abs, Valid, Sessions, Objects, Owners, Next, Enabled, Offered, Current;
      PushChanges(Now(), sid);
      Facts(sid);
      Fields(sid);
      var p := peers[sid];
      var r := TrySendFrom(sid);
      label Sent:
      Facts(sid);
      Fields(sid);
      RoutesHeld();
      p.EndForward(r);
      OneChanged@Sent(sid);
    }

    // ---- writer_loop -------------------------------------------------------------------------------------

    method OnReceive(sid: Sid)
      requires Valid() && Enabled(Now(), Receive(sid))
      modifies Objects()
      ensures Valid() && Now() == Next(old(Now()), Receive(sid))
      ensures Objects() == old(Objects())
    {
      hide Peer.Valid, Peer.Abs, Valid, Sessions, Objects, Owners, Next, Enabled;
      ReceiveIs(Now(), sid);
      Facts(sid);
      Fields(sid);
      RoutesHeld();
      var p := peers[sid];
      p.Receive();
      OneChanged(sid);
    }

    method OnWritten(sid: Sid)
      requires Valid() && Enabled(Now(), Written(sid))
      modifies Objects()
      ensures Valid() && Now() == Next(old(Now()), Written(sid))
      ensures Objects() == old(Objects())
    {
      hide Peer.Valid, Peer.Abs, Valid, Sessions, Objects, Owners, Next, Enabled;
      WrittenIs(Now(), sid);
      Facts(sid);
      Fields(sid);
      RoutesHeld();
      var p := peers[sid];
      p.Write(false);
      OneChanged(sid);
    }

    method OnWriteError(sid: Sid)
      requires Valid() && Enabled(Now(), WriteError(sid))
      modifies Objects()
      ensures Valid() && Now() == Next(old(Now()), WriteError(sid))
      ensures Objects() == old(Objects())
    {
      hide Peer.Valid, Peer.Abs, Valid, Sessions, Objects, Owners, Next, Enabled;
      WriteErrorIs(Now(), sid);
      Facts(sid);
      Fields(sid);
      RoutesHeld();
      var p := peers[sid];
      p.Write(true);
      OneChanged(sid);
    }

    method OnWriterEnd(sid: Sid)
      requires Valid() && Enabled(Now(), WriterEnd(sid))
      modifies Objects()
      ensures Valid() && Now() == Next(old(Now()), WriterEnd(sid))
      ensures Objects() == old(Objects())
    {
      hide Peer.Valid, Peer.Abs, Valid, Sessions, Objects, Owners, Next, Enabled;
      WriterEndIs(Now(), sid);
      Facts(sid);
      Fields(sid);
      RoutesHeld();
      var p := peers[sid];
      p.Finish();
      OneChanged(sid);
    }

    // ---- any interleaving --------------------------------------------------------------------------------

    method Take(l: Label)
      requires Valid() && Enabled(Now(), l)
      modifies this, Objects()
      ensures Valid() && Now() == Next(old(Now()), l)
      ensures fresh(Objects() - old(Objects()))
    {
      hide Next, Enabled, Valid, Sessions, Objects, Owners;
      match l {
        case Hello(sid, worldId, uuid, newId) => OnHello(sid, worldId, uuid, newId);
        case Insert(sid) => OnInsert(sid);
        case Ack(sid) => OnAck(sid);
        case Ping(sid, ts) => OnPing(sid, ts);
        case ForwardRead(sid, target, payload) => OnForward(sid, target, payload);
        case Lookup(sid) => OnLookup(sid);
        case Push(sid) => OnPush(sid);
        case ClaimRead(sid, sector) => OnClaim(sid, sector);
        case ResolveRead(sid, sector) => OnResolve(sid, sector);
        case Reply(sid) => OnReply(sid);
        case ReadError(sid) => OnReadError(sid);
        case Cleanup(sid) => OnCleanup(sid);
        case Receive(sid) => OnReceive(sid);
        case Written(sid) => OnWritten(sid);
        case WriteError(sid) => OnWriteError(sid);
        case WriterEnd(sid) => OnWriterEnd(sid);
      }
    }
  }

  /** Any interleaving of the steps, in a daemon just started. */
  method Serve(ls: seq<Label>) returns (d: Dispatcher)
    requires Legal(INITIAL, ls)
    ensures fresh(d) && d.Valid() && d.Now() == After(INITIAL, ls)
  {
    hide Next, Enabled, Dispatcher.Valid, Dispatcher.Sessions, Dispatcher.Objects, Owners;
    d := new Dispatcher();
    PrefixLegal(INITIAL, ls, 0);
    for i := 0 to |ls|
      invariant fresh(d) && fresh(d.Objects())
      invariant d.Valid() && Legal(INITIAL, ls[..i]) && d.Now() == After(INITIAL, ls[..i])
    {
      PrefixLegal(INITIAL, ls, i);
      PrefixLegal(INITIAL, ls, i + 1);
      assert ls[..i + 1][..i] == ls[..i];
      ghost var objects := d.Objects();
      label Before:
      d.Take(ls[i]);
      forall o | o in d.Objects()
        ensures fresh(o)
      {
        if o !in objects {
          assert o in d.Objects() - objects;
          assert fresh@Before(o);
          assert !old@Before(allocated(o));
        }
      }
    }
    assert ls[..|ls|] == ls;
  }

  // ---- the steps of the transition system, one by one ------------------------------------------------------

  lemma HelloIs(s: State, l: Label)
    requires Enabled(s, l) && l.Hello?
    ensures l.sid !in s.sessions && Next(s, l) == AfterHello(s, l.sid, l.worldId, l.uuid, l.newId)
  {
  }

  lemma InsertIs(s: State, x: Sid)
    requires Enabled(s, Insert(x))
    ensures x in s.sessions && s.sessions[x].task.Greeted?
    ensures var c := s.sessions[x]; Next(s, Insert(x)) == Put(s, x, c.(task := Acking)).(registry := s.registry[c.peer := x])
  {
    hide ValidBase64, Daemon.Held;
  }

  lemma AckIs(s: State, x: Sid)
    requires Enabled(s, Ack(x))
    ensures x in s.sessions && CanSend(s.sessions[x])
    ensures var c := s.sessions[x];
            Next(s, Ack(x)) == Put(s, x, Sent(c, x, HelloAck(c.peer, c.worldId, c.first)).(task := Reading))
  {
    hide ValidBase64, Daemon.Held;
  }

  lemma CleanupIs(s: State, x: Sid)
    requires Enabled(s, Cleanup(x))
    ensures x in s.sessions && s.sessions[x].task.Leaving?
    ensures var c := s.sessions[x]; Next(s, Cleanup(x)) == Put(s, x, c.(task := Left)).(registry := s.registry - {c.peer})
  {
    hide ValidBase64, Daemon.Held;
  }

  lemma PingIs(s: State, x: Sid, ts: nat)
    requires Enabled(s, Ping(x, ts))
    ensures x in s.sessions && s.sessions[x].task.Reading?
    ensures var c := s.sessions[x]; Next(s, Ping(x, ts)) == Put(s, x, c.(task := Replying(Pong(ts))))
  {
    hide ValidBase64, Daemon.Held;
  }

  lemma ClaimIs(s: State, x: Sid, sector: Sector)
    requires Enabled(s, ClaimRead(x, sector))
    ensures x in s.sessions && s.sessions[x].task.Reading?
    ensures var c := s.sessions[x];
            Next(s, ClaimRead(x, sector))
            == Put(s, x, c.(task := Replying(SectorClaimed(sector, c.peer)))).(db := Claim(s.db, sector, c.peer))
  {
    hide ValidBase64, Daemon.Held;
  }

  lemma ResolveIs(s: State, x: Sid, sector: Sector)
    requires Enabled(s, ResolveRead(x, sector))
    ensures x in s.sessions && s.sessions[x].task.Reading?
    ensures var c := s.sessions[x]; Next(s, ResolveRead(x, sector)) == Put(s, x, c.(task := Replying(Answer(s.db, sector))))
  {
    hide ValidBase64, Daemon.Held;
  }

  lemma ReplyIs(s: State, x: Sid)
    requires Enabled(s, Reply(x))
    ensures x in s.sessions && s.sessions[x].task.Replying? && CanSend(s.sessions[x])
    ensures var c := s.sessions[x]; Next(s, Reply(x)) == Put(s, x, AfterReply(c, x))
  {
    hide ValidBase64, Daemon.Held;
  }

  lemma ReadErrorIs(s: State, x: Sid)
    requires Enabled(s, ReadError(x))
    ensures x in s.sessions && s.sessions[x].task.Reading?
    ensures var c := s.sessions[x]; Next(s, ReadError(x)) == Put(s, x, c.(task := Leaving))
  {
    hide ValidBase64, Daemon.Held;
  }

  lemma ForwardIs(s: State, x: Sid, target: PeerId, payload: string)
    requires Enabled(s, ForwardRead(x, target, payload))
    ensures x in s.sessions && s.sessions[x].task.Reading?
    ensures var c := s.sessions[x]; Next(s, ForwardRead(x, target, payload)) == Put(s, x, AfterForwardRead(c, target, payload))
  {
    hide ValidBase64, Daemon.Held;
  }

  lemma LookupIs(s: State, x: Sid)
    requires Enabled(s, Lookup(x))
    ensures x in s.sessions && s.sessions[x].task.LookingUp? && s.sessions[x].forwards != []
    ensures var c := s.sessions[x]; Next(s, Lookup(x)) == Put(s, x, AfterLookup(s, c))
  {
    hide ValidBase64, Daemon.Held;
  }

  ghost predicate CanPush(m: map<Sid, Session>, x: Sid) {
    x in m && m[x].task.Pushing? && m[x].task.tx in m && m[x].forwards != []
  }

  ghost function Receiver(m: map<Sid, Session>, x: Sid): Session
    requires CanPush(m, x)
  {
    m[m[x].task.tx]
  }

  /** The sessions after try_send: the receiver has the delivery if it accepts it. */
  ghost function Offered(m: map<Sid, Session>, x: Sid): map<Sid, Session>
    requires CanPush(m, x)
  {
    var t, item := Receiver(m, x), ItemFor(m[x], x);
    if Accepts(t) then m[m[x].task.tx := t.(queue := t.queue + [item], log := t.log + [item])] else m
  }

  /** What the sender makes of the answer. */
  ghost function Told(c: Session, t: Session): Session
    requires c.task.Pushing? && c.forwards != []
  {
    if Accepts(t) then c.(task := Reading, outcomes := c.outcomes + [Delivered(c.task.tx)])
    else c.(task := Replying(ForwardError(Current(c).target, if t.writing then TargetBufferFull else UnknownPeer)))
  }

  /** The two changes of a push, one after the other. */
  lemma PushChanges(s: State, x: Sid)
    requires Enabled(s, Push(x))
    ensures CanPush(s.sessions, x)
    ensures var m := Offered(s.sessions, x);
            CanPush(m, x)
            && Next(s, Push(x)) == s.(sessions := m[x := Told(m[x], Receiver(s.sessions, x))])
  {
    hide ValidBase64, Daemon.Held, ItemFor;
  }

  lemma ReceiveIs(s: State, x: Sid)
    requires Enabled(s, Receive(x))
    ensures x in s.sessions && s.sessions[x].writing && s.sessions[x].writer.Waiting? && s.sessions[x].queue != []
    ensures var c := s.sessions[x];
            Next(s, Receive(x)) == Put(s, x, c.(queue := c.queue[1..], writer := Holding(c.queue[0])))
  {
    hide ValidBase64, Daemon.Held;
  }

  lemma WrittenIs(s: State, x: Sid)
    requires Enabled(s, Written(x))
    ensures x in s.sessions && s.sessions[x].writer.Holding?
    ensures var c := s.sessions[x];
            Next(s, Written(x)) == Put(s, x, c.(emitted := c.emitted + [c.writer.item], writer := Waiting))
  {
    hide ValidBase64, Daemon.Held;
  }

  lemma WriteErrorIs(s: State, x: Sid)
    requires Enabled(s, WriteError(x))
    ensures x in s.sessions && s.sessions[x].writer.Holding?
    ensures var c := s.sessions[x]; Next(s, WriteError(x)) == Put(s, x, c.(writer := ShuttingDown))
  {
    hide ValidBase64, Daemon.Held;
  }

  lemma WriterEndIs(s: State, x: Sid)
    requires Enabled(s, WriterEnd(x))
    ensures x in s.sessions
    ensures var c := s.sessions[x]; Next(s, WriterEnd(x)) == Put(s, x, c.(queue := [], writing := false))
  {
    hide ValidBase64, Daemon.Held;
  }
}
