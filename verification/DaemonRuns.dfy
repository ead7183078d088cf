/** Theorems about whole runs of the daemon, in every interleaving. */
module DaemonRuns {
  import opened Wrappers
  import opened Database
  import opened Daemon
  import opened DaemonSafety

  // ---- routing -------------------------------------------------------------------------------------------

  /** The registry entry of a peer id always holds the queue of a session with that id that has not run its
      cleanup. */
  lemma RegistryIsLive(ls: seq<Label>, p: PeerId)
    requires Legal(INITIAL, ls) && p in After(INITIAL, ls).registry
    ensures var s := After(INITIAL, ls);
            && s.registry[p] in s.sessions && s.sessions[s.registry[p]].peer == p
            && !s.sessions[s.registry[p]].task.Greeted? && !s.sessions[s.registry[p]].task.Left?
  {
    AlwaysSafe(ls);
  }

  /** A queued delivery never comes from the receiving peer itself, names the id that the daemon assigned to the
      sending session, and carries the payload of a forward that this session addressed to the receiving peer. */
  lemma DeliveriesAreTrue(ls: seq<Label>, x: Sid, i: nat)
    requires Legal(INITIAL, ls) && x in After(INITIAL, ls).sessions
    requires i < |After(INITIAL, ls).sessions[x].log| && After(INITIAL, ls).sessions[x].log[i].frame.Delivery?
    ensures var s := After(INITIAL, ls);
            var it := s.sessions[x].log[i];
            && it.frame.from != s.sessions[x].peer
            && it.src in s.sessions && it.frame.from == s.sessions[it.src].peer
            && it.seqno < |s.sessions[it.src].forwards|
            && s.sessions[it.src].forwards[it.seqno] == Forward(s.sessions[x].peer, it.frame.payload)
  {
    hide Legal, After, Safe, DbOk, RoutesOk, OrderOk, OutcomesOk;
    AlwaysSafe(ls);
    var s := After(INITIAL, ls);
    assert SessionOk(s, x) by { SafeSession(s, x); }
    assert ItemsOk(s, x) && Traced(s, x, s.sessions[x].log[i]);
  }

  lemma SafeSession(s: State, x: Sid)
    requires Safe(s) && x in s.sessions
    ensures SessionOk(s, x)
  {
  }

  /** The deliveries of one sender in one queue are in the order of its forwards. */
  lemma DeliveriesAreInOrder(ls: seq<Label>, x: Sid, i: nat, j: nat)
    requires Legal(INITIAL, ls) && x in After(INITIAL, ls).sessions
    requires i < j < |After(INITIAL, ls).sessions[x].log|
    requires var log := After(INITIAL, ls).sessions[x].log;
             log[i].frame.Delivery? && log[j].frame.Delivery? && log[i].src == log[j].src
    ensures After(INITIAL, ls).sessions[x].log[i].seqno < After(INITIAL, ls).sessions[x].log[j].seqno
  {
    hide Legal, After, Safe, DbOk, RoutesOk, ItemsOk, OutcomesOk;
    AlwaysSafe(ls);
    SafeSession(After(INITIAL, ls), x);
  }

  /** No queue exceeds its bound; the writer emits a prefix of what was enqueued. Until a write fails, what it has not
      emitted is exactly the frame in its hand and what is queued; after that the one frame is lost, and what is queued
      when the receiver goes. */
  lemma QueuesAreBoundedFifos(ls: seq<Label>, x: Sid)
    requires Legal(INITIAL, ls) && x in After(INITIAL, ls).sessions
    ensures var c := After(INITIAL, ls).sessions[x];
            && |c.queue| <= 64 && c.emitted <= c.log
            && (c.writing && !c.writer.ShuttingDown? ==> c.log == c.emitted + InHand(c.writer) + c.queue)
            && (c.writing && c.writer.ShuttingDown? ==>
                  |c.log| == |c.emitted| + 1 + |c.queue| && c.log[|c.emitted| + 1..] == c.queue)
            && (!c.writing ==> c.queue == [])
  {
    hide Legal, After, Safe, DbOk, RoutesOk, ItemsOk, OutcomesOk;
    AlwaysSafe(ls);
    SafeSession(After(INITIAL, ls), x);
  }

  /** How often a forward appears as a delivery in a log. */
  function Copies(log: seq<Item>, src: Sid, seqno: nat): nat {
    if log == [] then 0
    else Copies(log[..|log| - 1], src, seqno)
         + var it := log[|log| - 1]; if it.frame.Delivery? && it.src == src && it.seqno == seqno then 1 else 0
  }

  lemma {:induction false} CopiesCounted(log: seq<Item>, src: Sid, seqno: nat)
    requires OrderOk(log)
    ensures Copies(log, src, seqno) == if Logged(log, src, seqno) then 1 else 0
  {
    if log != [] {
      var init, it := log[..|log| - 1], log[|log| - 1];
      CopiesCounted(init, src, seqno);
      LoggedPrefix(log, src, seqno);
      if Logged(init, src, seqno) && it.frame.Delivery? && it.src == src {
        var k :| 0 <= k < |init| && init[k].frame.Delivery? && init[k].src == src && init[k].seqno == seqno;
        assert log[k] == init[k] && log[k].seqno < it.seqno;
      }
    }
  }

  lemma LoggedPrefix(log: seq<Item>, src: Sid, seqno: nat)
    requires log != []
    ensures var it := log[|log| - 1];
            Logged(log, src, seqno)
            <==> Logged(log[..|log| - 1], src, seqno) || (it.frame.Delivery? && it.src == src && it.seqno == seqno)
  {
    var init, it := log[..|log| - 1], log[|log| - 1];
    if Logged(log, src, seqno) {
      var k :| 0 <= k < |log| && log[k].frame.Delivery? && log[k].src == src && log[k].seqno == seqno;
      if k < |init| { assert init[k] == log[k]; }
    }
    if Logged(init, src, seqno) {
      var k :| 0 <= k < |init| && init[k].frame.Delivery? && init[k].src == src && init[k].seqno == seqno;
      assert log[k] == init[k];
    }
    if it.frame.Delivery? && it.src == src && it.seqno == seqno { assert log[|log| - 1] == it; }
  }

  /** Each forward that was handled has exactly one delivery, in the queue of the session it went to, or when it was
      refused none anywhere. What the sender of a refused one is told is in DaemonErrors. */
  lemma OneOutcomeEach(ls: seq<Label>, x: Sid, i: nat, y: Sid)
    requires Legal(INITIAL, ls) && x in After(INITIAL, ls).sessions && y in After(INITIAL, ls).sessions
    requires i < |After(INITIAL, ls).sessions[x].outcomes|
    ensures var s := After(INITIAL, ls);
            Copies(s.sessions[y].log, x, i) == if s.sessions[x].outcomes[i] == Delivered(y) then 1 else 0
  {
    hide Legal, After, Safe, DbOk, RoutesOk, OrderOk, ItemsOk, OutcomesOk, QueueOk, AckOk, TaskOk;
    AlwaysSafe(ls);
    var s := After(INITIAL, ls);
    SafeSession(s, x);
    SafeSession(s, y);
    CopiesCounted(s.sessions[y].log, x, i);
    LoggedExactly(s, x, i, y);
  }

  lemma LoggedExactly(s: State, x: Sid, i: nat, y: Sid)
    requires x in s.sessions && y in s.sessions && i < |s.sessions[x].outcomes| && OutcomesOk(s, x) && ItemsOk(s, y)
    ensures Logged(s.sessions[y].log, x, i) <==> s.sessions[x].outcomes[i] == Delivered(y)
  {
    if Logged(s.sessions[y].log, x, i) {
      var log := s.sessions[y].log;
      var k :| 0 <= k < |log| && log[k].frame.Delivery? && log[k].src == x && log[k].seqno == i;
      assert Traced(s, y, log[k]);
    }
  }

  /** Only the forward in progress has no outcome yet. */
  lemma ForwardsAreSettled(ls: seq<Label>, x: Sid)
    requires Legal(INITIAL, ls) && x in After(INITIAL, ls).sessions
    ensures var c := After(INITIAL, ls).sessions[x];
            |c.outcomes| == |c.forwards| || (Busy(c.task) && |c.outcomes| + 1 == |c.forwards|)
  {
    hide Legal, After, Safe, DbOk, RoutesOk, OrderOk, ItemsOk, OutcomesOk;
    AlwaysSafe(ls);
    SafeSession(After(INITIAL, ls), x);
  }

  /** Every HelloAck of a session carries its own peer id, world id and registration flag. */
  lemma HelloAcksAreTrue(ls: seq<Label>, x: Sid, j: nat)
    requires Legal(INITIAL, ls) && x in After(INITIAL, ls).sessions
    requires j < |After(INITIAL, ls).sessions[x].log| && After(INITIAL, ls).sessions[x].log[j].frame.HelloAck?
    ensures var c := After(INITIAL, ls).sessions[x]; c.log[j].frame == HelloAck(c.peer, c.worldId, c.first)
  {
    hide Legal, After, Safe, DbOk, RoutesOk, OrderOk, ItemsOk, OutcomesOk, QueueOk, TaskOk;
    AlwaysSafe(ls);
    SafeSession(After(INITIAL, ls), x);
  }

  /** Every frame queued before a HelloAck is a delivery, so a session gets at most one HelloAck. */
  lemma OnlyDeliveriesComeBefore(ls: seq<Label>, x: Sid, i: nat, j: nat)
    requires Legal(INITIAL, ls) && x in After(INITIAL, ls).sessions
    requires i < j < |After(INITIAL, ls).sessions[x].log| && After(INITIAL, ls).sessions[x].log[j].frame.HelloAck?
    ensures After(INITIAL, ls).sessions[x].log[i].frame.Delivery?
  {
    hide Legal, After, Safe, DbOk, RoutesOk, OrderOk, ItemsOk, OutcomesOk, QueueOk, TaskOk;
    AlwaysSafe(ls);
    SafeSession(After(INITIAL, ls), x);
  }

  /** A push in a run ends in exactly one of three ways: it delivers when the target's writer is alive and fewer than
      64 frames are queued, reports a full buffer when exactly 64 are, and an unknown peer when the writer is gone. */
  lemma PushExactly(ls: seq<Label>, x: Sid)
    requires Legal(INITIAL, ls) && Enabled(After(INITIAL, ls), Push(x))
    ensures var s := After(INITIAL, ls);
            var c, t := s.sessions[x], s.sessions[s.sessions[x].task.tx];
            var d := Next(s, Push(x)).sessions[x];
            && (d.outcomes == c.outcomes + [Delivered(c.task.tx)] <==> t.writing && |t.queue| < 64)
            && (d.task == Replying(ForwardError(t.peer, TargetBufferFull)) <==> t.writing && |t.queue| == 64)
            && (d.task == Replying(ForwardError(t.peer, UnknownPeer)) <==> !t.writing)
  {
    hide Legal, After, Safe, DbOk, RoutesOk, OrderOk, ItemsOk, OutcomesOk, AckOk, Current, Held;
    AlwaysSafe(ls);
    var s := After(INITIAL, ls);
    SafeSession(s, x);
    SafeSession(s, s.sessions[x].task.tx);
  }

  // ---- the database --------------------------------------------------------------------------------------

  /** The database operations of a run, in order. */
  ghost function OpsOf(ls: seq<Label>): seq<DbOp>
    requires Legal(INITIAL, ls)
  {
    if ls == [] then [] else
      var init := ls[..|ls| - 1];
      Grown(OpsOf(init), OpOf(After(INITIAL, init), ls[|ls| - 1]))
  }

  lemma {:induction false} RunsOnTheDatabase(ls: seq<Label>)
    requires Legal(INITIAL, ls)
    ensures LegalOps(EMPTY, OpsOf(ls)) && After(INITIAL, ls).db == AfterOps(EMPTY, OpsOf(ls))
  {
    hide Next, Enabled, Safe, DbOk, RoutesOk, OpOf;
    if ls != [] {
      var init, l := ls[..|ls| - 1], ls[|ls| - 1];
      RunsOnTheDatabase(init);
      AlwaysSafe(init);
      SafeDb(After(INITIAL, init));
      DbStep(After(INITIAL, init), l);
      if OpOf(After(INITIAL, init), l).Some? {
        assert OpsOf(ls)[..|OpsOf(ls)| - 1] == OpsOf(init);
      }
    }
  }

  lemma SafeDb(s: State)
    requires Safe(s)
    ensures DbOk(s) && RoutesOk(s)
  {
  }

  /** A sector resolves to its most recent claimant in the run, who is registered, connected or not. */
  lemma ResolveInRuns(ls: seq<Label>, sector: Sector)
    requires Legal(INITIAL, ls)
    ensures var s := After(INITIAL, ls);
            && Resolve(s.db, sector) == LastClaim(OpsOf(ls), sector)
            && (Resolve(s.db, sector).Some? ==> Registered(s.db, Resolve(s.db, sector).value))
  {
    hide Legal, After, OpsOf, Safe, Registered;
    RunsOnTheDatabase(ls);
    ResolveIsLastClaim(OpsOf(ls), sector);
    InvAlways(OpsOf(ls));
  }

  /** The world of the last hello of a server_uuid in a run. */
  function LastWorld(ls: seq<Label>, uuid: Uuid): Option<nat> {
    if ls == [] then None
    else if ls[|ls| - 1].Hello? && ls[|ls| - 1].uuid == uuid then Some(ls[|ls| - 1].worldId)
    else LastWorld(ls[..|ls| - 1], uuid)
  }

  /** It is that of the database operations of the run. */
  lemma {:induction false} HellosOfRun(ls: seq<Label>, uuid: Uuid)
    requires Legal(INITIAL, ls)
    ensures LastWorld(ls, uuid) == LastHello(OpsOf(ls), uuid)
  {
    hide Next, Enabled;
    if ls != [] {
      var init, l := ls[..|ls| - 1], ls[|ls| - 1];
      HellosOfRun(init, uuid);
      if OpOf(After(INITIAL, init), l).Some? {
        assert OpsOf(ls)[..|OpsOf(ls)| - 1] == OpsOf(init);
      }
    }
  }

  /** A server is known once it has said hello in the run, and is in the world of its last hello. */
  lemma WorldsInRuns(ls: seq<Label>, uuid: Uuid)
    requires Legal(INITIAL, ls)
    ensures var db := After(INITIAL, ls).db;
            LastWorld(ls, uuid) == if uuid in db.worlds then Some(db.worlds[uuid].worldId) else None
  {
    hide Legal, After, OpsOf;
    RunsOnTheDatabase(ls);
    HellosOfRun(ls, uuid);
    WorldIsOfLastHello(OpsOf(ls), uuid);
  }

  /** A session is that of its hello, whatever came later; it was told that it is the first registration exactly when
      no hello of the run had that server_uuid before. */
  lemma {:induction false} SessionsAreOfHellos(ls: seq<Label>, i: nat)
    requires Legal(INITIAL, ls) && i < |ls| && ls[i].Hello?
    ensures var l, sessions := ls[i], After(INITIAL, ls).sessions;
            && l.sid in sessions
            && sessions[l.sid].uuid == l.uuid && sessions[l.sid].worldId == l.worldId
            && (sessions[l.sid].first <==> LastWorld(ls[..i], l.uuid) == None)
    decreases |ls|
  {
    hide Next, Enabled;
    var init := ls[..|ls| - 1];
    if i < |init| {
      SessionsAreOfHellos(init, i);
      assert init[..i] == ls[..i];
      StepAdds(After(INITIAL, init), ls[|ls| - 1], ls[i].sid);
    } else {
      assert init == ls[..i];
      WorldsInRuns(init, ls[i].uuid);
      GreetsAs(After(INITIAL, init), ls[i]);
    }
  }

  lemma GreetsAs(s: State, l: Label)
    requires l.Hello? && Enabled(s, l)
    ensures l.sid in Next(s, l).sessions
    ensures var c := Next(s, l).sessions[l.sid];
            c.uuid == l.uuid && c.worldId == l.worldId && (c.first <==> l.uuid !in s.db.worlds)
  {
  }

  /** A resolve frame is answered with the most recent claimant, or with sector_unknown when nobody claimed the
      sector. */
  lemma ResolvesAreAnswered(ls: seq<Label>, x: Sid, sector: Sector)
    requires Legal(INITIAL, ls) && Enabled(After(INITIAL, ls), ResolveRead(x, sector))
    ensures var s := Next(After(INITIAL, ls), ResolveRead(x, sector));
            x in s.sessions && s.sessions[x].task
              == Replying(match LastClaim(OpsOf(ls), sector)
                          case Some(peer) => SectorResolved(sector, peer)
                          case None => SectorUnknown(sector))
  {
    hide Legal, After, OpsOf;
    ResolveInRuns(ls, sector);
  }

  /** Sessions have the same peer id exactly when they have the same server_uuid, and at most one of those was told
      that it is the first registration. */
  lemma PeerIdsIdentifyServers(ls: seq<Label>, x: Sid, y: Sid)
    requires Legal(INITIAL, ls) && x in After(INITIAL, ls).sessions && y in After(INITIAL, ls).sessions
    ensures var c, d := After(INITIAL, ls).sessions[x], After(INITIAL, ls).sessions[y];
            && (c.peer == d.peer <==> c.uuid == d.uuid)
            && (c.uuid == d.uuid && c.first && d.first ==> x == y)
  {
    hide Legal, After, Safe;
    AlwaysSafe(ls);
    SafeDb(After(INITIAL, ls));
  }
}
