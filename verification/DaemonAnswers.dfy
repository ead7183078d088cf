/** What a session is told about the frames it sends: one answer for each, in order. */
module DaemonAnswers {
  import opened Wrappers
  import opened Database
  import opened Daemon
  import opened DaemonSafety
  import opened DaemonRuns

  /** The frame that a step of a session makes the daemon owe it, if any: an acknowledgement for the hello, a pong for a
      ping, the sector for a claim, its owner for a resolve, and for a forward an error when it cannot be delivered. */
  ghost function Owes(s: State, l: Label): Option<Frame>
    requires Enabled(s, l)
  {
    if l.Hello? then None
    else
      var c := s.sessions[l.sid];
      match l
      case Insert(_) => Some(HelloAck(c.peer, c.worldId, c.first))
      case Ping(_, ts) => Some(Pong(ts))
      case ClaimRead(_, sector) => Some(SectorClaimed(sector, c.peer))
      case ResolveRead(_, sector) =>
        Some(if sector in s.db.sectors then SectorResolved(sector, s.db.sectors[sector]) else SectorUnknown(sector))
      case ForwardRead(_, target, payload) =>
        if target == c.peer then Some(ForwardError(target, SelfRouteRefused))
        else if !ValidBase64(payload) then Some(ForwardError(target, UnknownPeer))
        else None
      case Lookup(_) =>
        if Current(c).target in s.registry then None else Some(ForwardError(Current(c).target, UnknownPeer))
      case Push(_) =>
        var t := s.sessions[c.task.tx];
        if !t.writing then Some(ForwardError(Current(c).target, UnknownPeer))
        else if |t.queue| >= 64 then Some(ForwardError(Current(c).target, TargetBufferFull))
        else None
      case _ => None
  }

  /** All that a run makes the daemon owe a session, in order. */
  ghost function Owed(ls: seq<Label>, x: Sid): seq<Frame>
    requires Legal(INITIAL, ls)
  {
    if ls == [] then [] else
      var init, l := ls[..|ls| - 1], ls[|ls| - 1];
      Owed(init, x) + if l.sid == x then AsSeq(Owes(After(INITIAL, init), l)) else []
  }

  function AsSeq<T>(more: Option<T>): seq<T> {
    if more.Some? then [more.value] else []
  }

  /** The frames of a log that are no deliveries. */
  function Own(log: seq<Item>): seq<Frame> {
    if log == [] then []
    else Own(log[..|log| - 1]) + OwnFrame(log[|log| - 1])
  }

  function OwnFrame(it: Item): seq<Frame> {
    if it.frame.Delivery? then [] else [it.frame]
  }

  /** The answer that has been made and not yet been queued. */
  function Pending(c: Session): seq<Frame> {
    if c.task.Acking? then [HelloAck(c.peer, c.worldId, c.first)]
    else if c.task.Replying? then [c.task.frame]
    else []
  }

  /** While the writer lives nothing that is owed is missing; after that the rest is. */
  predicate Paid(c: Session, owed: seq<Frame>) {
    Own(c.log) <= owed && (c.writing ==> Own(c.log) + Pending(c) == owed)
  }

  lemma OwnGrows(log: seq<Item>, more: Option<Item>)
    ensures Own(Grown(log, more)) == Own(log) + if more.Some? then OwnFrame(more.value) else []
  {
    if more.Some? {
      assert Grown(log, more)[..|log|] == log;
    }
  }

  /** A step of the session itself: what it owes is pending, or what was pending is queued. */
  ghost predicate Settles(s: State, l: Label)
    requires Enabled(s, l) && l.sid in s.sessions && l.sid in Next(s, l).sessions
  {
    var c, d := s.sessions[l.sid], Next(s, l).sessions[l.sid];
    var more := NewItem(s, l, l.sid);
    var sent := if more.Some? then OwnFrame(more.value) else [];
    && (d.writing ==> c.writing)
    && if l.Ack? || l.Reply? then
         Owes(s, l) == None && Pending(d) == [] && sent == if c.writing then Pending(c) else []
       else
         sent == [] && Pending(d) == Pending(c) + AsSeq(Owes(s, l))
  }

  lemma SendSettles(s: State, l: Label)
    requires Enabled(s, l) && l.sid in s.sessions && TaskOk(s, l.sid) && (l.Ack? || l.Reply?)
    ensures l.sid in Next(s, l).sessions && Settles(s, l)
  {
    hide ValidBase64, Held, Blank, Current, Answer;
  }

  lemma PushSettles(s: State, l: Label)
    requires Enabled(s, l) && l.sid in s.sessions && TaskOk(s, l.sid) && l.Push?
    ensures l.sid in Next(s, l).sessions && Settles(s, l)
  {
    hide ValidBase64, Held, Blank, Answer, Current;
  }

  lemma WriterSettles(s: State, l: Label)
    requires Enabled(s, l) && l.sid in s.sessions && (l.Receive? || l.Written? || l.WriteError? || l.WriterEnd?)
    ensures l.sid in Next(s, l).sessions && Settles(s, l)
  {
    hide ValidBase64, Held, Blank, Answer, Current;
  }

  lemma QuietSettles(s: State, l: Label)
    requires Enabled(s, l) && l.sid in s.sessions && Quiet(l)
    ensures l.sid in Next(s, l).sessions && Settles(s, l)
  {
    hide ValidBase64, Held, Blank, Current;
  }

  lemma OwnStep(s: State, l: Label)
    requires Enabled(s, l) && l.sid in s.sessions && TaskOk(s, l.sid)
    ensures l.sid in Next(s, l).sessions && Settles(s, l)
  {
    hide Enabled, Next, TaskOk, Settles;
    OwnKinds(s, l);
    if l.Ack? || l.Reply? {
      SendSettles(s, l);
    } else if l.Push? {
      PushSettles(s, l);
    } else if Quiet(l) {
      QuietSettles(s, l);
    } else {
      WriterSettles(s, l);
    }
  }

  lemma OwnPaid(s: State, l: Label, owed: seq<Frame>)
    requires Enabled(s, l) && l.sid in s.sessions && TaskOk(s, l.sid) && Paid(s.sessions[l.sid], owed)
    ensures l.sid in Next(s, l).sessions && Paid(Next(s, l).sessions[l.sid], owed + AsSeq(Owes(s, l)))
  {
    hide Next, Enabled, NewItem, TaskOk, Own, OwnFrame, Owes, Pending;
    var c := s.sessions[l.sid];
    OwnStep(s, l);
    StepAdds(s, l, l.sid);
    OwnGrows(c.log, NewItem(s, l, l.sid));
  }

  /** A step of another session may add a delivery. */
  lemma OtherPaid(s: State, l: Label, x: Sid, owed: seq<Frame>)
    requires Enabled(s, l) && x in s.sessions && x != l.sid && Paid(s.sessions[x], owed)
    ensures x in Next(s, l).sessions && Paid(Next(s, l).sessions[x], owed)
  {
    hide Next, Enabled, NewItem, Own;
    if NewItem(s, l, x).None? {
      StepElsewhere(s, l, x);
    } else {
      StepPushed(s, l, x);
      OwnGrows(s.sessions[x].log, NewItem(s, l, x));
    }
  }

  lemma NothingOwed(c: Session)
    requires c.task.Greeted? && c.log == []
    ensures Paid(c, [])
  {
  }

  lemma {:induction false} OwesNobody(ls: seq<Label>, x: Sid)
    requires Legal(INITIAL, ls) && x !in After(INITIAL, ls).sessions
    ensures Owed(ls, x) == []
  {
    hide Next, Enabled, Owes;
    if ls != [] {
      var init, l := ls[..|ls| - 1], ls[|ls| - 1];
      StepSessions(After(INITIAL, init), l);
      OwesNobody(init, x);
    }
  }

  lemma HelloOwesNothing(s: State, l: Label)
    requires Enabled(s, l) && l.Hello?
    ensures Owes(s, l) == None
  {
  }

  lemma {:induction false} AlwaysPaid(ls: seq<Label>, x: Sid)
    requires Legal(INITIAL, ls) && x in After(INITIAL, ls).sessions
    ensures Paid(After(INITIAL, ls).sessions[x], Owed(ls, x))
  {
    hide Next, Enabled, Safe, Owes, Paid, TaskOk;
    if ls != [] {
      var init := ls[..|ls| - 1];
      var s, l := After(INITIAL, init), ls[|ls| - 1];
      StepSessions(s, l);
      if x !in s.sessions {
        OwesNobody(init, x);
        NewSession(s, l);
        HelloOwesNothing(s, l);
        NothingOwed(Next(s, l).sessions[x]);
      } else {
        AlwaysPaid(init, x);
        if l.sid == x {
          AlwaysSafe(init);
          SafeSession(s, x);
          TaskOfSession(s, x);
          OwnPaid(s, l, Owed(init, x));
        } else {
          OtherPaid(s, l, x, Owed(init, x));
          assert Owed(init, x) + [] == Owed(init, x);
        }
      }
    }
  }

  lemma TaskOfSession(s: State, x: Sid)
    requires x in s.sessions && SessionOk(s, x)
    ensures TaskOk(s, x)
  {
  }

  /** The frames on a session's queue that are no deliveries are the answers that it is owed, in order: all of them but
      the one being sent while its writer lives, and a first part of them after that. */
  lemma AnswersAreInOrder(ls: seq<Label>, x: Sid)
    requires Legal(INITIAL, ls) && x in After(INITIAL, ls).sessions
    ensures var c, owed := After(INITIAL, ls).sessions[x], Owed(ls, x);
            && Own(c.log) <= owed
            && (c.writing && !c.task.Acking? && !c.task.Replying? ==> Own(c.log) == owed)
            && (c.writing && (c.task.Acking? || c.task.Replying?) ==> owed != [] && Own(c.log) == owed[..|owed| - 1])
  {
    hide Legal, After, Owed, Own;
    AlwaysPaid(ls, x);
    var c, owed := After(INITIAL, ls).sessions[x], Owed(ls, x);
    if c.writing && Pending(c) != [] {
      assert |Pending(c)| == 1 && owed[..|owed| - 1] == Own(c.log);
    }
  }
}
