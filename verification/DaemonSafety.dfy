/** What the daemon keeps in every interleaving of its sessions. */
module DaemonSafety {
  import opened Wrappers
  import opened Database
  import opened Daemon

  // ---- one session ---------------------------------------------------------------------------------------

  /** The frames that have left the queue and are not written. */
  function InHand(w: Writer): seq<Item> {
    if w.Holding? then [w.item] else []
  }

  /** The queue is bounded and first-in first-out, and the writer emits a prefix of what was enqueued: nothing is lost
      until a write fails, and then that one frame. */
  ghost predicate QueueOk(c: Session) {
    && |c.queue| <= WRITER_QUEUE_DEPTH
    && c.emitted <= c.log
    && (c.writing && !c.writer.ShuttingDown? ==> c.log == c.emitted + InHand(c.writer) + c.queue)
    && (c.writing && c.writer.ShuttingDown? ==>
          |c.log| == |c.emitted| + 1 + |c.queue| && c.log[|c.emitted| + 1..] == c.queue)
    && (!c.writing ==> c.queue == [])
  }

  predicate Busy(t: Task) {
    t.LookingUp? || t.Pushing? || (t.Replying? && t.frame.ForwardError?)
  }

  /** The sender held is that of another session, which has the target's peer id and is past its insertion. */
  ghost predicate Target(s: State, x: Sid, tx: Sid, target: PeerId) {
    tx in s.sessions && s.sessions[tx].peer == target && tx != x && !s.sessions[tx].task.Greeted?
  }

  /** Each forward read has its outcome, except the one in progress. */
  ghost predicate TaskOk(s: State, x: Sid)
    requires x in s.sessions
  {
    var c := s.sessions[x];
    && |c.forwards| == |c.outcomes| + (if Busy(c.task) then 1 else 0)
    && (c.task.LookingUp? || c.task.Pushing? ==> Current(c).target != c.peer)
    && (c.task.Pushing? ==> Target(s, x, c.task.tx, Current(c).target))
    && (c.task.Replying? ==> !c.task.frame.Delivery? && !c.task.frame.HelloAck?)
    && (c.task.Replying? && c.task.frame.ForwardError? ==> c.task.frame.target == Current(c).target)
  }

  /** Whatever stands before a HelloAck in a log is a delivery, so there is at most one HelloAck; it carries the id
      assigned to this session. */
  ghost predicate AckOk(c: Session) {
    && (c.task.Greeted? ==> c.log == [])
    && (c.task.Acking? ==> forall i | 0 <= i < |c.log| :: c.log[i].frame.Delivery?)
    && (forall i, j | 0 <= i < j < |c.log| && c.log[j].frame.HelloAck? :: c.log[i].frame.Delivery?)
    && (forall i | 0 <= i < |c.log| && c.log[i].frame.HelloAck? :: c.log[i].frame == HelloAck(c.peer, c.worldId, c.first))
  }

  lemma QueueGrows(c: Session, it: Item)
    requires QueueOk(c) && Accepts(c)
    ensures QueueOk(c.(queue := c.queue + [it], log := c.log + [it]))
  {
    var log := c.log + [it];
    if c.writer.ShuttingDown? {
      assert log[|c.emitted| + 1..] == c.log[|c.emitted| + 1..] + [it];
    } else {
      assert log == c.emitted + InHand(c.writer) + (c.queue + [it]);
    }
  }

  lemma QueueReceived(c: Session)
    requires QueueOk(c) && c.writing && c.writer.Waiting? && c.queue != []
    ensures QueueOk(c.(queue := c.queue[1..], writer := Holding(c.queue[0])))
  {
    assert c.queue == [c.queue[0]] + c.queue[1..];
  }

  lemma QueueWritten(c: Session)
    requires QueueOk(c) && c.writing && c.writer.Holding?
    ensures QueueOk(c.(emitted := c.emitted + [c.writer.item], writer := Waiting))
    ensures QueueOk(c.(writer := ShuttingDown))
  {
    assert c.log == c.emitted + [c.writer.item] + c.queue;
    assert c.log[|c.emitted| + 1..] == c.queue;
  }

  /** A change of anything else, and the end of the writer. */
  lemma QueueElse(c: Session, d: Session)
    requires QueueOk(c)
    requires d.log == c.log && d.emitted == c.emitted
    requires (d.queue == c.queue && d.writing == c.writing && d.writer == c.writer) || (d.queue == [] && !d.writing)
    ensures QueueOk(d)
  {
  }

  lemma QueueKept(s: State, l: Label, x: Sid)
    requires Enabled(s, l) && x in s.sessions && QueueOk(s.sessions[x])
    ensures x in Next(s, l).sessions && QueueOk(Next(s, l).sessions[x])
  {
    hide Next, Enabled, NewItem, Current, ItemFor, QueueOk;
    var c := s.sessions[x];
    if x != l.sid {
      if NewItem(s, l, x).None? { StepElsewhere(s, l, x); } else {
        StepPushed(s, l, x);
        QueueGrows(c, NewItem(s, l, x).value);
      }
    } else {
      OwnKinds(s, l);
      if Quiet(l) { StepQuiet(s, l, x); QueueElse(c, Next(s, l).sessions[x]); }
      else if l.Push? || l.Ack? || l.Reply? { QueueOfSender(s, l); }
      else {
        StepWrites(s, l);
        if l.Receive? { QueueReceived(c); }
        else if l.WriterEnd? { QueueElse(c, Next(s, l).sessions[x]); }
        else { QueueWritten(c); }
      }
    }
  }

  /** The queue of the session itself, in the steps that send. */
  lemma QueueOfSender(s: State, l: Label)
    requires Enabled(s, l) && (l.Push? || l.Ack? || l.Reply?) && l.sid in s.sessions && QueueOk(s.sessions[l.sid])
    ensures l.sid in Next(s, l).sessions && QueueOk(Next(s, l).sessions[l.sid])
  {
    hide Next, Enabled, NewItem, Current, ItemFor, QueueOk;
    var c := s.sessions[l.sid];
    if l.Push? { StepPushes(s, l); } else { StepSends(s, l); }
    var d, item := Next(s, l).sessions[l.sid], NewItem(s, l, l.sid);
    if item.Some? {
      QueueGrows(c, item.value);
      QueueElse(c.(queue := c.queue + [item.value], log := c.log + [item.value]), d);
    } else {
      QueueElse(c, d);
    }
  }

  lemma AckKept(s: State, l: Label, x: Sid)
    requires Enabled(s, l) && x in s.sessions && AckOk(s.sessions[x]) && forall y | y in s.sessions :: TaskOk(s, y)
    ensures x in Next(s, l).sessions && AckOk(Next(s, l).sessions[x])
  {
    hide Next, Enabled, NewItem, TaskOk;
    if x != l.sid {
      if NewItem(s, l, x).None? { StepElsewhere(s, l, x); } else { StepPushed(s, l, x); PushTarget(s, l, x); }
    } else {
      OwnKinds(s, l);
      ReplyTask(s, x);
      if Quiet(l) { QuietTask(s, l, x); StepQuiet(s, l, x); }
      else if l.Push? { StepPushes(s, l); }
      else if l.Ack? || l.Reply? { StepSends(s, l); }
      else { StepWrites(s, l); }
    }
  }

  /** A delivery goes to a session that is past its insertion. */
  lemma PushTarget(s: State, l: Label, x: Sid)
    requires Enabled(s, l) && x in s.sessions && x != l.sid && NewItem(s, l, x).Some?
    requires forall y | y in s.sessions :: TaskOk(s, y)
    ensures !s.sessions[x].task.Greeted? && NewItem(s, l, x).value.frame.Delivery?
  {
    hide ValidBase64, Held, Answer, Current, Blank, Next;
    assert TaskOk(s, l.sid);
  }

  lemma ReplyTask(s: State, x: Sid)
    requires x in s.sessions && TaskOk(s, x)
    ensures s.sessions[x].task.Replying? ==> !s.sessions[x].task.frame.HelloAck?
    ensures s.sessions[x].task.Pushing? ==> s.sessions[x].task.tx != x
  {
  }

  /** When a session gets to be about to acknowledge, it has just been inserted, and its queue may have been
      found by others only from then on. */
  lemma QuietTask(s: State, l: Label, x: Sid)
    requires Enabled(s, l) && x in s.sessions && l.sid == x && Quiet(l)
    ensures x in Next(s, l).sessions && !Next(s, l).sessions[x].task.Greeted?
    ensures Next(s, l).sessions[x].task.Acking? ==> s.sessions[x].task.Greeted?
  {
    hide ValidBase64, Held, Answer, Current, Blank;
  }

  // ---- the registry --------------------------------------------------------------------------------------

  /** An entry holds the sender of a session with that peer id which has not run its cleanup. */
  ghost predicate RoutesOk(s: State) {
    forall p | p in s.registry ::
      && s.registry[p] in s.sessions
      && s.sessions[s.registry[p]].peer == p
      && !s.sessions[s.registry[p]].task.Greeted? && !s.sessions[s.registry[p]].task.Left?
  }

  lemma RoutesKept(s: State, l: Label)
    requires Enabled(s, l) && RoutesOk(s)
    ensures RoutesOk(Next(s, l))
  {
    hide ValidBase64, Held, Answer, Current, Blank;
  }

  // ---- forwards ------------------------------------------------------------------------------------------

  lemma TargetKept(s: State, l: Label, x: Sid, tx: Sid, target: PeerId)
    requires Enabled(s, l) && Target(s, x, tx, target)
    ensures Target(Next(s, l), x, tx, target)
  {
    hide ValidBase64, Held, Answer, Current, Blank;
    if tx != l.sid {
      hide Next, Enabled;
      if NewItem(s, l, tx).None? { StepElsewhere(s, l, tx); } else { StepPushed(s, l, tx); }
    }
  }

  lemma TaskKept(s: State, l: Label, x: Sid)
    requires Enabled(s, l) && x in s.sessions && TaskOk(s, x) && RoutesOk(s)
    ensures x in Next(s, l).sessions && TaskOk(Next(s, l), x)
  {
    hide Target, Next, Enabled, NewItem, ItemFor, RoutesOk;
    var c := s.sessions[x];
    if x != l.sid {
      if NewItem(s, l, x).None? { StepElsewhere(s, l, x); } else { StepPushed(s, l, x); }
      if c.task.Pushing? { TargetKept(s, l, x, c.task.tx, Current(c).target); }
    } else {
      OwnKinds(s, l);
      if Quiet(l) { QuietTaskKept(s, l, x); }
      else if l.Push? { StepPushes(s, l); }
      else if l.Ack? || l.Reply? { StepSends(s, l); }
      else {
        StepWrites(s, l);
        if c.task.Pushing? { TargetKept(s, l, x, c.task.tx, Current(c).target); }
      }
    }
  }

  lemma QuietTaskKept(s: State, l: Label, x: Sid)
    requires Enabled(s, l) && x in s.sessions && TaskOk(s, x) && RoutesOk(s) && l.sid == x && Quiet(l)
    ensures x in Next(s, l).sessions && TaskOk(Next(s, l), x)
  {
    hide Target, ValidBase64, Held, Blank, Resolve;
    if l.Lookup? {
      LookupFinds(s, x);
      var target := Current(s.sessions[x]).target;
      if target in s.registry { TargetKept(s, l, x, s.registry[target], target); }
    } else {
      hide RoutesOk;
    }
  }

  lemma LookupFinds(s: State, x: Sid)
    requires x in s.sessions && s.sessions[x].task.LookingUp? && TaskOk(s, x) && RoutesOk(s)
    requires s.sessions[x].forwards != []
    ensures var target := Current(s.sessions[x]).target;
            target in s.registry ==> Target(s, x, s.registry[target], target)
  {
  }

  // ---- where frames come from ----------------------------------------------------------------------------

  /** A delivery in the queue of session `x` answers one forward of the session that sent it: a forward to `x`'s
      peer id, with this payload, from the sender's own peer id, which is not `x`'s. */
  ghost predicate Traced(s: State, x: Sid, it: Item)
    requires x in s.sessions
  {
    && it.frame.Delivery?
    && it.src in s.sessions
    && var c := s.sessions[it.src];
       && it.seqno < |c.outcomes| && it.seqno < |c.forwards|
       && c.outcomes[it.seqno] == Delivered(x)
       && c.forwards[it.seqno] == Forward(s.sessions[x].peer, it.frame.payload)
       && it.frame.from == c.peer != s.sessions[x].peer
  }

  ghost predicate ItemsOk(s: State, x: Sid)
    requires x in s.sessions
  {
    forall i | 0 <= i < |s.sessions[x].log| ::
      var it := s.sessions[x].log[i];
      if it.frame.Delivery? then Traced(s, x, it) else it.src == x
  }

  /** The deliveries of one sender stand in a queue in the order of its forwards. */
  ghost predicate OrderOk(log: seq<Item>) {
    forall i, j | 0 <= i < j < |log| && log[i].frame.Delivery? && log[j].frame.Delivery? && log[i].src == log[j].src ::
      log[i].seqno < log[j].seqno
  }

  ghost predicate Logged(log: seq<Item>, src: Sid, seqno: nat) {
    exists k | 0 <= k < |log| :: log[k].frame.Delivery? && log[k].src == src && log[k].seqno == seqno
  }

  /** Every forward recorded as delivered is in the log of the session it went to. */
  ghost predicate OutcomesOk(s: State, x: Sid)
    requires x in s.sessions
  {
    forall i | 0 <= i < |s.sessions[x].outcomes| && s.sessions[x].outcomes[i].Delivered? ::
      var to := s.sessions[x].outcomes[i].to;
      to in s.sessions && Logged(s.sessions[to].log, x, i)
  }

  lemma TracedKept(s: State, l: Label, x: Sid, it: Item)
    requires Enabled(s, l) && x in s.sessions && Traced(s, x, it)
    ensures x in Next(s, l).sessions && Traced(Next(s, l), x, it)
  {
    hide Next, Enabled, NewItem, NewOutcome;
    StepAdds(s, l, x);
    StepAdds(s, l, it.src);
    StepRecords(s, l, it.src);
  }

  /** The item that a step enqueues at `x`. */
  lemma NewItemOk(s: State, l: Label, x: Sid)
    requires Enabled(s, l) && x in s.sessions && NewItem(s, l, x).Some?
    requires forall y | y in s.sessions :: TaskOk(s, y)
    ensures l.sid in s.sessions && x in Next(s, l).sessions
    ensures var it := NewItem(s, l, x).value;
            if it.frame.Delivery? then
              && Traced(Next(s, l), x, it) && it.src == l.sid && it.seqno == |s.sessions[l.sid].outcomes|
              && NewOutcome(s, l, l.sid) == Some(Delivered(x))
            else it.src == x && NewOutcome(s, l, l.sid) != Some(Delivered(x))
  {
    hide ValidBase64, Held, Answer, Blank;
    var c := s.sessions[l.sid];
    assert TaskOk(s, l.sid);
    hide Next;
    StepAdds(s, l, x);
    StepAdds(s, l, l.sid);
    StepRecords(s, l, l.sid);
  }

  lemma ItemsKept(s: State, l: Label, x: Sid)
    requires Enabled(s, l) && x in s.sessions && ItemsOk(s, x)
    requires forall y | y in s.sessions :: TaskOk(s, y)
    ensures x in Next(s, l).sessions && ItemsOk(Next(s, l), x)
  {
    hide Next, Enabled, NewItem, NewOutcome, Traced, TaskOk;
    StepAdds(s, l, x);
    if NewItem(s, l, x).Some? { NewItemOk(s, l, x); }
    forall i | 0 <= i < |s.sessions[x].log| && s.sessions[x].log[i].frame.Delivery?
      ensures Traced(Next(s, l), x, s.sessions[x].log[i])
    {
      TracedKept(s, l, x, s.sessions[x].log[i]);
    }
  }

  lemma OrderKept(s: State, l: Label, x: Sid)
    requires Enabled(s, l) && x in s.sessions && ItemsOk(s, x) && OrderOk(s.sessions[x].log)
    requires forall y | y in s.sessions :: TaskOk(s, y)
    ensures x in Next(s, l).sessions && OrderOk(Next(s, l).sessions[x].log)
  {
    hide Next, Enabled, NewItem, NewOutcome, TaskOk;
    StepAdds(s, l, x);
    if NewItem(s, l, x).Some? { NewItemOk(s, l, x); }
  }

  lemma LoggedGrows(log: seq<Item>, more: Option<Item>, src: Sid, seqno: nat)
    ensures Logged(log, src, seqno) ==> Logged(Grown(log, more), src, seqno)
    ensures more.Some? && more.value.frame.Delivery? && more.value.src == src && more.value.seqno == seqno ==>
              Logged(Grown(log, more), src, seqno)
  {
    var g := Grown(log, more);
    if Logged(log, src, seqno) {
      var k :| 0 <= k < |log| && log[k].frame.Delivery? && log[k].src == src && log[k].seqno == seqno;
      assert g[k] == log[k];
    }
    if more.Some? { assert g[|log|] == more.value; }
  }

  /** When a step records a delivery, it enqueues it. */
  lemma DeliveryIsEnqueued(s: State, l: Label, x: Sid)
    requires Enabled(s, l) && x in s.sessions && TaskOk(s, x)
    requires NewOutcome(s, l, x).Some? && NewOutcome(s, l, x).value.Delivered?
    ensures var to := NewOutcome(s, l, x).value.to;
            && to in s.sessions && NewItem(s, l, to).Some?
            && var it := NewItem(s, l, to).value;
               it.frame.Delivery? && it.src == x && it.seqno == |s.sessions[x].outcomes|
  {
    hide ValidBase64, Held, Answer, Blank, Next;
  }

  lemma OutcomesKept(s: State, l: Label, x: Sid)
    requires Enabled(s, l) && x in s.sessions && OutcomesOk(s, x) && TaskOk(s, x)
    ensures x in Next(s, l).sessions && OutcomesOk(Next(s, l), x)
  {
    hide Next, Enabled, NewItem, NewOutcome, Logged, TaskOk;
    StepAdds(s, l, x);
    StepRecords(s, l, x);
    var c, d := s.sessions[x], Next(s, l).sessions[x];
    forall i | 0 <= i < |d.outcomes| && d.outcomes[i].Delivered?
      ensures d.outcomes[i].to in Next(s, l).sessions && Logged(Next(s, l).sessions[d.outcomes[i].to].log, x, i)
    {
      var to := d.outcomes[i].to;
      if i == |c.outcomes| { DeliveryIsEnqueued(s, l, x); } else { assert c.outcomes[i] == d.outcomes[i]; }
      StepAdds(s, l, to);
      LoggedGrows(s.sessions[to].log, NewItem(s, l, to), x, i);
    }
  }

  // ---- the database --------------------------------------------------------------------------------------

  /** The tables are consistent, every session has the peer id stored for its server_uuid, and at most one was
      told that this is the first registration. */
  ghost predicate DbOk(s: State) {
    && Inv(s.db)
    && (forall x | x in s.sessions ::
          s.sessions[x].uuid in s.db.worlds && s.db.worlds[s.sessions[x].uuid].peer == s.sessions[x].peer)
    && (forall x, y | x in s.sessions && y in s.sessions && s.sessions[x].uuid == s.sessions[y].uuid ::
          s.sessions[x].first && s.sessions[y].first ==> x == y)
  }

  /** The database operation of a step, if any. */
  function OpOf(s: State, l: Label): Option<DbOp> {
    if l.Hello? then Some(DbOp.Hello(l.worldId, l.uuid, l.newId))
    else if l.ClaimRead? && l.sid in s.sessions then Some(Claimed(l.sector, s.sessions[l.sid].peer))
    else None
  }

  lemma DbStep(s: State, l: Label)
    requires Enabled(s, l) && DbOk(s)
    ensures OpOf(s, l).Some? ==> Allowed(s.db, OpOf(s, l).value) && Next(s, l).db == Apply(s.db, OpOf(s, l).value)
    ensures OpOf(s, l).None? ==> Next(s, l).db == s.db
  {
    hide ValidBase64, Held, Answer, Current, Blank;
  }

  lemma DbKept(s: State, l: Label)
    requires Enabled(s, l) && DbOk(s)
    ensures DbOk(Next(s, l))
  {
    hide Next, Enabled, Inv, NewItem;
    DbStep(s, l);
    if OpOf(s, l).Some? { InvKept(s.db, OpOf(s, l).value); }
    StepSessions(s, l);
    forall x | x in Next(s, l).sessions
      ensures var c := Next(s, l).sessions[x];
              c.uuid in Next(s, l).db.worlds && Next(s, l).db.worlds[c.uuid].peer == c.peer
    {
      if x in s.sessions { StepAdds(s, l, x); } else { NewSession(s, l); }
    }
    FirstOnce(s, l);
  }

  lemma FirstOnce(s: State, l: Label)
    requires Enabled(s, l) && DbOk(s)
    ensures forall x, y | x in Next(s, l).sessions && y in Next(s, l).sessions
                          && Next(s, l).sessions[x].uuid == Next(s, l).sessions[y].uuid ::
              Next(s, l).sessions[x].first && Next(s, l).sessions[y].first ==> x == y
  {
    hide Next, Enabled, Inv, NewItem;
    StepSessions(s, l);
    forall x | x in s.sessions
      ensures x in Next(s, l).sessions && Next(s, l).sessions[x].uuid == s.sessions[x].uuid
              && Next(s, l).sessions[x].first == s.sessions[x].first
    {
      StepAdds(s, l, x);
    }
    if l.Hello? { NewSession(s, l); }
  }

  lemma NewSession(s: State, l: Label)
    requires Enabled(s, l) && l.Hello?
    ensures l.sid in Next(s, l).sessions && l.uuid in Next(s, l).db.worlds
    ensures Next(s, l).sessions[l.sid]
         == Session(Next(s, l).db.worlds[l.uuid].peer, l.uuid, l.worldId, First(s.db, l.uuid), Greeted, [], [], true, Waiting,
                    [], [], [])
  {
  }

  // ---- all of it -----------------------------------------------------------------------------------------

  ghost predicate SessionOk(s: State, x: Sid)
    requires x in s.sessions
  {
    && QueueOk(s.sessions[x]) && AckOk(s.sessions[x]) && TaskOk(s, x)
    && ItemsOk(s, x) && OrderOk(s.sessions[x].log) && OutcomesOk(s, x)
  }

  ghost predicate Safe(s: State) {
    DbOk(s) && RoutesOk(s) && forall x | x in s.sessions :: SessionOk(s, x)
  }

  lemma SafeKept(s: State, l: Label)
    requires Enabled(s, l) && Safe(s)
    ensures Safe(Next(s, l))
  {
    hide Next, Enabled, DbOk, RoutesOk, QueueOk, AckOk, TaskOk, ItemsOk, OrderOk, OutcomesOk;
    DbKept(s, l);
    RoutesKept(s, l);
    StepSessions(s, l);
    forall x | x in Next(s, l).sessions
      ensures SessionOk(Next(s, l), x)
    {
      if x in s.sessions {
        assert SessionOk(s, x);
        QueueKept(s, l, x);
        AckKept(s, l, x);
        TaskKept(s, l, x);
        ItemsKept(s, l, x);
        OrderKept(s, l, x);
        OutcomesKept(s, l, x);
      } else {
        NewSessionOk(s, l);
      }
    }
  }

  lemma NewSessionOk(s: State, l: Label)
    requires Enabled(s, l) && l.Hello?
    ensures l.sid in Next(s, l).sessions && SessionOk(Next(s, l), l.sid)
  {
    hide Next;
    NewSession(s, l);
  }

  /** Every state of every interleaving is safe. */
  lemma {:induction false} AlwaysSafe(ls: seq<Label>)
    requires Legal(INITIAL, ls)
    ensures Safe(After(INITIAL, ls))
  {
    hide Next, Enabled, Safe;
    if ls == [] {
      assert Safe(INITIAL) by { InitialSafe(); }
    } else {
      AlwaysSafe(ls[..|ls| - 1]);
      SafeKept(After(INITIAL, ls[..|ls| - 1]), ls[|ls| - 1]);
    }
  }

  lemma InitialSafe()
    ensures Safe(INITIAL)
  {
  }
}
