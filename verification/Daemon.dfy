/** The dispatcher daemon of main.rs as a transition system. Its tasks interleave between the steps below: a step
    is what one task does between two awaits, or one atomic operation on the registry, a queue or the database. */
module Daemon {
  import opened Wrappers
  import opened Database

  type Sid = nat

  const WRITER_QUEUE_DEPTH: nat := 64

  datatype Reason = SelfRouteRefused | UnknownPeer | TargetBufferFull

  /** The frames the daemon sends. */
  datatype Frame =
    | HelloAck(peer: PeerId, worldId: nat, first: bool)
    | Pong(ts: nat)
    | Delivery(from: PeerId, payload: string)
    | ForwardError(target: PeerId, reason: Reason)
    | SectorClaimed(sector: Sector, peer: PeerId)
    | SectorResolved(sector: Sector, peer: PeerId)
    | SectorUnknown(sector: Sector)

  /** A frame in a queue, with the session that put it there and, for a delivery, the number of the forward it
      answers. The daemon does not store these two; they are here to state where a frame comes from. */
  datatype Item = Item(frame: Frame, src: Sid, seqno: nat)

  /** A forward frame that a session has read. */
  datatype Forward = Forward(target: PeerId, payload: string)

  datatype Outcome = Delivered(to: Sid) | Refused(reason: Reason)

  /** What the task of a session does next. While it handles a forward, that is the last one read. A session in
      `Pushing` holds a clone of the target's sender and no lock. */
  datatype Task =
    | Greeted
    | Acking
    | Reading
    | Replying(frame: Frame)
    | LookingUp
    | Pushing(tx: Sid)
    | Leaving
    | Left

  /** What the writer of a session does while its receiver is alive: it waits for a frame, writes the one it has taken
      out of the queue, or shuts the socket down after a write that failed. */
  datatype Writer = Waiting | Holding(item: Item) | ShuttingDown

  /** A session. `queue` is its bounded channel, whose receiver is alive while `writing`; `emitted` is what its
      writer wrote to the socket. `log`, `forwards` and `outcomes` record the past. */
  datatype Session = Session(
    peer: PeerId, uuid: Uuid, worldId: nat, first: bool, task: Task,
    queue: seq<Item>, emitted: seq<Item>, writing: bool, writer: Writer,
    log: seq<Item>, forwards: seq<Forward>, outcomes: seq<Outcome>)

  datatype State = State(db: Db, registry: map<PeerId, Sid>, sessions: map<Sid, Session>)

  const INITIAL: State := State(EMPTY, map[], map[])

  // ---- payloads ------------------------------------------------------------------------------------------

  /** The value of a base64 digit in the standard alphabet; 64 when it is none. */
  function Digit(c: char): nat {
    if 'A' <= c <= 'Z' then c as nat - 'A' as nat
    else if 'a' <= c <= 'z' then c as nat - 'a' as nat + 26
    else if '0' <= c <= '9' then c as nat - '0' as nat + 52
    else if c == '+' then 62
    else if c == '/' then 63
    else 64
  }

  function Padding(p: string): (n: nat)
    ensures n <= |p|
  {
    if |p| < 2 || p[|p| - 1] != '=' then 0 else if p[|p| - 2] == '=' then 2 else 1
  }

  /** Base64 with padding and without stray bits: section 4 of RFC 4648. */
  predicate ValidBase64(p: string) {
    && |p| % 4 == 0
    && (forall c | c in p[..|p| - Padding(p)] :: Digit(c) < 64)
    && (Padding(p) == 1 ==> Digit(p[|p| - 2]) % 4 == 0)
    && (Padding(p) == 2 ==> Digit(p[|p| - 3]) % 16 == 0)
  }

  predicate Blank(s: string) {
    forall c | c in s :: c in " \t\n\r\U{b}\U{c}"
  }

  // ---- steps ---------------------------------------------------------------------------------------------

  datatype Label =
    | Hello(sid: Sid, worldId: nat, uuid: Uuid, newId: PeerId)
    | Insert(sid: Sid)
    | Ack(sid: Sid)
    | Ping(sid: Sid, ts: nat)
    | ForwardRead(sid: Sid, target: PeerId, payload: string)
    | Lookup(sid: Sid)
    | Push(sid: Sid)
    | ClaimRead(sid: Sid, sector: Sector)
    | ResolveRead(sid: Sid, sector: Sector)
    | Reply(sid: Sid)
    | ReadError(sid: Sid)
    | Cleanup(sid: Sid)
    | Receive(sid: Sid)
    | Written(sid: Sid)
    | WriteError(sid: Sid)
    | WriterEnd(sid: Sid)

  /** A blocking send on the session's own queue can complete: there is room, or the receiver is gone. */
  predicate CanSend(c: Session) {
    !c.writing || |c.queue| < WRITER_QUEUE_DEPTH
  }

  ghost predicate Enabled(s: State, l: Label) {
    if l.Hello? then l.sid !in s.sessions && !Blank(l.uuid) && Allowed(s.db, DbOp.Hello(l.worldId, l.uuid, l.newId))
    else
      && l.sid in s.sessions
      && var c := s.sessions[l.sid];
         match l
         case Hello(_, _, _, _) => false
         case Insert(_) => c.task.Greeted?
         case Ack(_) => c.task.Acking? && CanSend(c)
         case Ping(_, _) => c.task.Reading?
         case ForwardRead(_, _, _) => c.task.Reading?
         case Lookup(_) => c.task.LookingUp? && c.forwards != []
         case Push(_) => c.task.Pushing? && c.forwards != [] && c.task.tx in s.sessions
         case ClaimRead(_, _) => c.task.Reading?
         case ResolveRead(_, _) => c.task.Reading?
         case Reply(_) => c.task.Replying? && CanSend(c)
         case ReadError(_) => c.task.Reading?
         case Cleanup(_) => c.task.Leaving?
         case Receive(_) => c.writing && c.writer.Waiting? && c.queue != []
         case Written(_) => c.writing && c.writer.Holding?
         case WriteError(_) => c.writing && c.writer.Holding?
         case WriterEnd(_) =>
           c.writing && (c.writer.ShuttingDown? || (c.writer.Waiting? && c.task.Left? && c.queue == [] && !Held(s, l.sid)))
  }

  /** Somebody else holds a sender of this session's queue. */
  ghost predicate Held(s: State, sid: Sid) {
    || (exists p | p in s.registry :: s.registry[p] == sid)
    || (exists o | o in s.sessions :: s.sessions[o].task == Pushing(sid))
  }

  function Put(s: State, sid: Sid, c: Session): State {
    s.(sessions := s.sessions[sid := c])
  }

  /** A send on the session's own queue; it is lost when the receiver is gone. */
  function Sent(c: Session, sid: Sid, frame: Frame): Session {
    if c.writing then c.(queue := c.queue + [Item(frame, sid, 0)], log := c.log + [Item(frame, sid, 0)]) else c
  }

  function Current(c: Session): Forward
    requires c.forwards != []
  {
    c.forwards[|c.forwards| - 1]
  }

  /** The delivery that a session in `Pushing` wants to enqueue. */
  function ItemFor(c: Session, sid: Sid): Item
    requires c.forwards != []
  {
    Item(Delivery(c.peer, Current(c).payload), sid, |c.forwards| - 1)
  }

  function AfterHello(s: State, sid: Sid, worldId: nat, uuid: Uuid, newId: PeerId): State {
    var db := Upsert(s.db, worldId, uuid, newId);
    var c := Session(db.worlds[uuid].peer, uuid, worldId, First(s.db, uuid), Greeted, [], [], true, Waiting, [], [], []);
    Put(s, sid, c).(db := db)
  }

  function AfterForwardRead(c: Session, target: PeerId, payload: string): Session {
    c.(forwards := c.forwards + [Forward(target, payload)],
       task := if target == c.peer then Replying(ForwardError(target, SelfRouteRefused))
               else if !ValidBase64(payload) then Replying(ForwardError(target, UnknownPeer))
               else LookingUp)
  }

  function AfterLookup(s: State, c: Session): Session
    requires c.forwards != []
  {
    var target := Current(c).target;
    c.(task := if target in s.registry then Pushing(s.registry[target])
               else Replying(ForwardError(target, UnknownPeer)))
  }

  /** try_send: closed and full are told apart, in this order. */
  predicate Accepts(t: Session) {
    t.writing && |t.queue| < WRITER_QUEUE_DEPTH
  }

  function AfterPush(s: State, sid: Sid): State
    requires sid in s.sessions
    requires var c := s.sessions[sid]; c.task.Pushing? && c.forwards != [] && c.task.tx in s.sessions
  {
    var c := s.sessions[sid];
    var tx := c.task.tx;
    var t := s.sessions[tx];
    if !Accepts(t) then
      var reason := if !t.writing then UnknownPeer else TargetBufferFull;
      Put(s, sid, c.(task := Replying(ForwardError(Current(c).target, reason))))
    else
      var item := ItemFor(c, sid);
      var s' := Put(s, tx, t.(queue := t.queue + [item], log := t.log + [item]));
      var c' := s'.sessions[sid];
      Put(s', sid, c'.(task := Reading, outcomes := c'.outcomes + [Delivered(tx)]))
  }

  function AfterReply(c: Session, sid: Sid): Session
    requires c.task.Replying?
  {
    var f := c.task.frame;
    var d := Sent(c, sid, f).(task := Reading);
    if f.ForwardError? then d.(outcomes := d.outcomes + [Refused(f.reason)]) else d
  }

  function Answer(db: Db, sector: Sector): Frame {
    match Resolve(db, sector)
    case Some(peer) => SectorResolved(sector, peer)
    case None => SectorUnknown(sector)
  }

  ghost function Next(s: State, l: Label): State
    requires Enabled(s, l)
  {
    if l.Hello? then AfterHello(s, l.sid, l.worldId, l.uuid, l.newId)
    else
      var sid, c := l.sid, s.sessions[l.sid];
      match l
      case Insert(_) => Put(s, sid, c.(task := Acking)).(registry := s.registry[c.peer := sid])
      case Ack(_) => Put(s, sid, Sent(c, sid, HelloAck(c.peer, c.worldId, c.first)).(task := Reading))
      case Ping(_, ts) => Put(s, sid, c.(task := Replying(Pong(ts))))
      case ForwardRead(_, target, payload) => Put(s, sid, AfterForwardRead(c, target, payload))
      case Lookup(_) => Put(s, sid, AfterLookup(s, c))
      case Push(_) => AfterPush(s, sid)
      case ClaimRead(_, sector) =>
        Put(s, sid, c.(task := Replying(SectorClaimed(sector, c.peer)))).(db := Claim(s.db, sector, c.peer))
      case ResolveRead(_, sector) => Put(s, sid, c.(task := Replying(Answer(s.db, sector))))
      case Reply(_) => Put(s, sid, AfterReply(c, sid))
      case ReadError(_) => Put(s, sid, c.(task := Leaving))
      case Cleanup(_) => Put(s, sid, c.(task := Left)).(registry := s.registry - {c.peer})
      case Receive(_) => Put(s, sid, c.(queue := c.queue[1..], writer := Holding(c.queue[0])))
      case Written(_) => Put(s, sid, c.(emitted := c.emitted + [c.writer.item], writer := Waiting))
      case WriteError(_) => Put(s, sid, c.(writer := ShuttingDown))
      case WriterEnd(_) => Put(s, sid, c.(queue := [], writing := false))
  }

  /** The steps of an interleaving can be taken one after another. */
  ghost predicate Legal(s: State, ls: seq<Label>)
    decreases |ls|, 0
  {
    ls == [] || (Legal(s, ls[..|ls| - 1]) && Enabled(After(s, ls[..|ls| - 1]), ls[|ls| - 1]))
  }

  ghost function After(s: State, ls: seq<Label>): State
    requires Legal(s, ls)
    decreases |ls|, 1
  {
    if ls == [] then s else Next(After(s, ls[..|ls| - 1]), ls[|ls| - 1])
  }

  lemma PrefixLegal(s: State, ls: seq<Label>, i: nat)
    requires Legal(s, ls) && i <= |ls|
    ensures Legal(s, ls[..i])
    ensures i < |ls| ==> Enabled(After(s, ls[..i]), ls[i])
    decreases |ls| - i
  {
    hide Enabled, Next;
    if i < |ls| {
      PrefixLegal(s, ls, i + 1);
      assert ls[..i + 1][..i] == ls[..i];
    } else {
      assert ls[..i] == ls;
    }
  }

  // ---- what one step adds --------------------------------------------------------------------------------

  /** The frame that a step puts into the queue of session `x`, if any. */
  ghost function NewItem(s: State, l: Label, x: Sid): Option<Item>
    requires Enabled(s, l) && x in s.sessions
  {
    if l.Hello? then None
    else
      var c := s.sessions[l.sid];
      if l.Ack? && x == l.sid && c.writing then Some(Item(HelloAck(c.peer, c.worldId, c.first), x, 0))
      else if l.Reply? && x == l.sid && c.writing then Some(Item(c.task.frame, x, 0))
      else if l.Push? && x == c.task.tx && Accepts(s.sessions[x]) then Some(ItemFor(c, l.sid))
      else None
  }

  /** The outcome that a step records for a forward of session `x`, if any. */
  ghost function NewOutcome(s: State, l: Label, x: Sid): Option<Outcome>
    requires Enabled(s, l) && x in s.sessions
  {
    if l.Hello? || x != l.sid then None
    else
      var c := s.sessions[x];
      if l.Push? && Accepts(s.sessions[c.task.tx]) then Some(Delivered(c.task.tx))
      else if l.Reply? && c.task.frame.ForwardError? then Some(Refused(c.task.frame.reason))
      else None
  }

  function Grown<T>(s: seq<T>, more: Option<T>): seq<T> {
    if more.Some? then s + [more.value] else s
  }

  predicate Quiet(l: Label) {
    l.Insert? || l.Ping? || l.ForwardRead? || l.Lookup? || l.ClaimRead? || l.ResolveRead? || l.ReadError? || l.Cleanup?
  }

  /** These steps touch no queue. */
  lemma StepQuiet(s: State, l: Label, x: Sid)
    requires Enabled(s, l) && x in s.sessions && Quiet(l)
    ensures x in Next(s, l).sessions && NewItem(s, l, x).None?
    ensures var c, d := s.sessions[x], Next(s, l).sessions[x];
            && d.peer == c.peer && d.uuid == c.uuid && d.worldId == c.worldId && d.first == c.first
            && d.log == c.log && d.queue == c.queue && d.emitted == c.emitted && d.writing == c.writing && d.writer == c.writer
  {
    hide ValidBase64, Held, Answer, Current, Blank;
  }

  lemma PushElsewhere(s: State, l: Label, x: Sid)
    requires Enabled(s, l) && l.Push? && x in s.sessions && x != l.sid && NewItem(s, l, x).None?
    ensures x in Next(s, l).sessions && Next(s, l).sessions[x] == s.sessions[x]
  {
    hide Current, ItemFor;
  }

  lemma OtherElsewhere(s: State, l: Label, x: Sid)
    requires Enabled(s, l) && !l.Push? && x in s.sessions && x != l.sid
    ensures x in Next(s, l).sessions && Next(s, l).sessions[x] == s.sessions[x]
  {
    hide Enabled, ValidBase64, Held, Answer, Current, NewItem, Sent, AfterReply, AfterLookup, AfterForwardRead;
  }

  /** Nothing else happens to a session that a step is not about. */
  lemma StepElsewhere(s: State, l: Label, x: Sid)
    requires Enabled(s, l) && x in s.sessions && x != l.sid && NewItem(s, l, x).None?
    ensures x in Next(s, l).sessions && Next(s, l).sessions[x] == s.sessions[x]
  {
    hide Next, Enabled, NewItem;
    if l.Push? { PushElsewhere(s, l, x); } else { OtherElsewhere(s, l, x); }
  }

  /** A session whose queue receives a delivery changes in that alone. */
  lemma StepPushed(s: State, l: Label, x: Sid)
    requires Enabled(s, l) && x in s.sessions && x != l.sid && NewItem(s, l, x).Some?
    ensures var c := s.sessions[x];
            x in Next(s, l).sessions && Next(s, l).sessions[x]
              == c.(queue := c.queue + [NewItem(s, l, x).value], log := c.log + [NewItem(s, l, x).value])
    ensures Accepts(s.sessions[x]) && l.Push? && NewItem(s, l, x).value == ItemFor(s.sessions[l.sid], l.sid)
  {
    hide ValidBase64, Held, Answer, Current, Blank;
  }

  /** The step of the session itself when it sends on its own queue. */
  lemma StepSends(s: State, l: Label)
    requires Enabled(s, l) && (l.Ack? || l.Reply?)
    ensures l.sid in s.sessions && l.sid in Next(s, l).sessions
    ensures var c := s.sessions[l.sid];
            && CanSend(c) && (if l.Ack? then c.task.Acking? else c.task.Replying?)
            && var frame := if l.Ack? then HelloAck(c.peer, c.worldId, c.first) else c.task.frame;
               && NewItem(s, l, l.sid) == (if c.writing then Some(Item(frame, l.sid, 0)) else None)
               && Next(s, l).sessions[l.sid]
                  == if l.Ack? then Sent(c, l.sid, frame).(task := Reading) else AfterReply(c, l.sid)
  {
    hide ValidBase64, Held, Answer, Current, Blank, Sent, AfterReply;
  }

  /** The steps of its writer. */
  lemma StepWrites(s: State, l: Label)
    requires Enabled(s, l) && (l.Receive? || l.Written? || l.WriteError? || l.WriterEnd?)
    ensures l.sid in s.sessions && l.sid in Next(s, l).sessions && NewItem(s, l, l.sid).None?
    ensures var c := s.sessions[l.sid];
            && c.writing && (l.Receive? ==> c.writer.Waiting? && c.queue != [])
            && (l.Written? || l.WriteError? ==> c.writer.Holding?)
            && Next(s, l).sessions[l.sid]
               == if l.Receive? then c.(queue := c.queue[1..], writer := Holding(c.queue[0]))
                  else if l.Written? then c.(emitted := c.emitted + [c.writer.item], writer := Waiting)
                  else if l.WriteError? then c.(writer := ShuttingDown)
                  else c.(queue := [], writing := false)
  {
    hide ValidBase64, Held, Answer, Current, Blank;
  }

  /** A push, for the session that makes it. */
  lemma StepPushes(s: State, l: Label)
    requires Enabled(s, l) && l.Push?
    ensures l.sid in s.sessions && l.sid in Next(s, l).sessions
    ensures var c := s.sessions[l.sid];
            && c.task.Pushing? && c.forwards != [] && c.task.tx in s.sessions
            && var t, d := s.sessions[c.task.tx], Next(s, l).sessions[l.sid];
               && NewItem(s, l, l.sid) == (if c.task.tx == l.sid && Accepts(t) then Some(ItemFor(c, l.sid)) else None)
               && d == if !Accepts(t) then
                         var reason := if !t.writing then UnknownPeer else TargetBufferFull;
                         c.(task := Replying(ForwardError(Current(c).target, reason)))
                       else if c.task.tx == l.sid then
                         c.(task := Reading, outcomes := c.outcomes + [Delivered(c.task.tx)],
                            queue := c.queue + [ItemFor(c, l.sid)], log := c.log + [ItemFor(c, l.sid)])
                       else c.(task := Reading, outcomes := c.outcomes + [Delivered(c.task.tx)])
  {
    hide ValidBase64, Held, Answer, Current, Blank, ItemFor;
  }

  /** Sessions stay, with their identity; their records only grow, by what these functions say. */
  lemma StepAdds(s: State, l: Label, x: Sid)
    requires Enabled(s, l) && x in s.sessions
    ensures x in Next(s, l).sessions
    ensures var c, d := s.sessions[x], Next(s, l).sessions[x];
            && d.peer == c.peer && d.uuid == c.uuid && d.worldId == c.worldId && d.first == c.first
            && d.log == Grown(c.log, NewItem(s, l, x))
  {
    hide Next, Enabled, NewItem, Current, ItemFor, Accepts;
    if x != l.sid {
      if NewItem(s, l, x).None? { StepElsewhere(s, l, x); } else { StepPushed(s, l, x); }
    } else {
      OwnKinds(s, l);
      if Quiet(l) { StepQuiet(s, l, x); }
      else if l.Push? { StepPushes(s, l); }
      else if l.Ack? || l.Reply? { StepSends(s, l); }
      else { StepWrites(s, l); }
    }
  }

  /** The steps of a session that is there. */
  lemma OwnKinds(s: State, l: Label)
    requires Enabled(s, l) && l.sid in s.sessions
    ensures Quiet(l) || l.Push? || l.Ack? || l.Reply? || l.Receive? || l.Written? || l.WriteError? || l.WriterEnd?
  {
    hide Allowed, ValidBase64, Held, Blank;
  }

  lemma StepRecords(s: State, l: Label, x: Sid)
    requires Enabled(s, l) && x in s.sessions
    ensures x in Next(s, l).sessions
    ensures var c, d := s.sessions[x], Next(s, l).sessions[x];
            && d.outcomes == Grown(c.outcomes, NewOutcome(s, l, x))
            && d.forwards == (if l.ForwardRead? && l.sid == x then c.forwards + [Forward(l.target, l.payload)] else c.forwards)
  {
    hide ValidBase64, Held, Answer, Current, Blank;
  }

  /** Only a hello makes a session. */
  lemma StepSessions(s: State, l: Label)
    requires Enabled(s, l)
    ensures Next(s, l).sessions.Keys == s.sessions.Keys + {l.sid}
    ensures l.sid !in s.sessions ==> l.Hello?
  {
    hide ValidBase64, Held, Answer, Current, Blank;
  }
}
