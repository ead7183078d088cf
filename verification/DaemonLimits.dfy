/** What the daemon does not promise, and exactly when it does: routing to a session, and the HelloAck as the
    first frame. */
module DaemonLimits {
  import opened Wrappers
  import opened Database
  import opened Daemon
  import opened DaemonSafety
  import DaemonErrors

  // ---- when a session can be routed to -------------------------------------------------------------------

  /** The step inserts or removes the registry entry of this peer id. */
  predicate Touches(s: State, l: Label, p: PeerId) {
    (l.Insert? || l.Cleanup?) && l.sid in s.sessions && s.sessions[l.sid].peer == p
  }

  ghost predicate RoutesTo(s: State, p: PeerId, x: Sid) {
    p in s.registry && s.registry[p] == x
  }

  lemma RegistryStep(s: State, l: Label, p: PeerId, x: Sid)
    requires Enabled(s, l)
    ensures RoutesTo(Next(s, l), p, x) <==> if Touches(s, l, p) then l == Insert(x) else RoutesTo(s, p, x)
  {
    hide ValidBase64, Held, Answer, Current, Blank;
  }

  ghost predicate LastTouch(s: State, ls: seq<Label>, p: PeerId, x: Sid, i: nat) {
    i < |ls| && ls[i] == Insert(x) && Touches(s, ls[i], p) && forall j | i < j < |ls| :: !Touches(s, ls[j], p)
  }

  lemma TouchesAgrees(s: State, l: Label, m: Label, p: PeerId)
    requires Enabled(s, l) && m.sid in s.sessions
    ensures Touches(Next(s, l), m, p) <==> Touches(s, m, p)
  {
    hide Next, Enabled, NewItem;
    StepAdds(s, l, m.sid);
  }

  lemma {:induction false} SidsKnown(ls: seq<Label>, j: nat)
    requires Legal(INITIAL, ls) && j < |ls|
    ensures ls[j].sid in After(INITIAL, ls).sessions
  {
    hide Next, Enabled;
    var init := ls[..|ls| - 1];
    StepSessions(After(INITIAL, init), ls[|ls| - 1]);
    if j < |init| { SidsKnown(init, j); }
  }

  /** The registry sends a peer id's frames to session `x` exactly when the last step of the run that touched the
      entry was `x`'s own insertion: no other session with that peer id was inserted, or cleaned up, since. */
  lemma {:induction false} RoutableExactly(ls: seq<Label>, p: PeerId, x: Sid)
    requires Legal(INITIAL, ls)
    ensures RoutesTo(After(INITIAL, ls), p, x) <==> exists i :: LastTouch(After(INITIAL, ls), ls, p, x, i)
  {
    hide Next, Enabled, Touches;
    if ls == [] {
      return;
    }
    var init, l := ls[..|ls| - 1], ls[|ls| - 1];
    var s, t := After(INITIAL, init), After(INITIAL, ls);
    RoutableExactly(init, p, x);
    RegistryStep(s, l, p, x);
    forall j | 0 <= j < |init|
      ensures Touches(t, ls[j], p) <==> Touches(s, init[j], p)
    {
      SidsKnown(init, j);
      TouchesAgrees(s, l, init[j], p);
    }
    LastTouched(s, l, p);
    if Touches(t, l, p) {
      if l == Insert(x) { assert LastTouch(t, ls, p, x, |init|); }
      assert forall i | LastTouch(t, ls, p, x, i) :: i == |init|;
    } else {
      forall i: nat
        ensures LastTouch(t, ls, p, x, i) <==> LastTouch(s, init, p, x, i)
      {
        if i < |init| { assert ls[i] == init[i]; }
        assert forall j | 0 <= j < |init| :: ls[j] == init[j];
      }
    }
  }

  /** A forward is offered to session `y` exactly when the last insertion or cleanup for the target's peer id so far was
      `y`'s own insertion, and `y` is then another session, of that peer id; it ends as unknown_peer exactly when there
      has been none, or the last was a cleanup. */
  lemma LookupExactly(ls: seq<Label>, x: Sid, y: Sid)
    requires Legal(INITIAL, ls) && Enabled(After(INITIAL, ls), Lookup(x))
    ensures var s := After(INITIAL, ls);
            var target := Current(s.sessions[x]).target;
            var task := Next(s, Lookup(x)).sessions[x].task;
            && (task == Pushing(y) <==> exists i :: LastTouch(s, ls, target, y, i))
            && (task == Pushing(y) ==> y in s.sessions && s.sessions[y].peer == target && y != x)
            && (task == Replying(ForwardError(target, UnknownPeer)) <==> forall z, i :: !LastTouch(s, ls, target, z, i))
  {
    hide Legal, After, Current, Held, LastTouch;
    var s := After(INITIAL, ls);
    var target := Current(s.sessions[x]).target;
    DaemonErrors.LookupRegistry(ls, x);
    LookupFinds(s, x, y);
    RoutableExactly(ls, target, y);
    if target in s.registry {
      var z := s.registry[target];
      RoutableExactly(ls, target, z);
      var i :| LastTouch(s, ls, target, z, i);
    } else {
      forall z, i
        ensures !LastTouch(s, ls, target, z, i)
      {
        RoutableExactly(ls, target, z);
      }
    }
  }

  lemma LookupFinds(s: State, x: Sid, y: Sid)
    requires Enabled(s, Lookup(x))
    ensures x in Next(s, Lookup(x)).sessions
    ensures Next(s, Lookup(x)).sessions[x].task == Pushing(y) <==> RoutesTo(s, Current(s.sessions[x]).target, y)
  {
    hide ValidBase64, Held, Current;
  }

  lemma LastTouched(s: State, l: Label, p: PeerId)
    requires Enabled(s, l)
    ensures Touches(s, l, p) <==> Touches(Next(s, l), l, p)
  {
    hide Next, NewItem;
    if l.sid in s.sessions { StepAdds(s, l, l.sid); }
  }

  /** A session that is inserted and has not run its cleanup. */
  predicate Open(c: Session) {
    !c.task.Greeted? && !c.task.Left?
  }

  ghost predicate OnePerPeer(s: State) {
    forall x, y | x in s.sessions && y in s.sessions && Open(s.sessions[x]) && Open(s.sessions[y])
                  && s.sessions[x].peer == s.sessions[y].peer :: x == y
  }

  ghost predicate AllRoutable(s: State) {
    forall x | x in s.sessions && Open(s.sessions[x]) :: RoutesTo(s, s.sessions[x].peer, x)
  }

  lemma RoutableKept(s: State, l: Label)
    requires Enabled(s, l) && OnePerPeer(s) && AllRoutable(s) && OnePerPeer(Next(s, l))
    ensures AllRoutable(Next(s, l))
  {
    hide Next, Enabled, NewItem, Open;
    var t := Next(s, l);
    StepSessions(s, l);
    forall x | x in t.sessions && Open(t.sessions[x])
      ensures RoutesTo(t, t.sessions[x].peer, x)
    {
      OpenStep(s, l, x);
      StepAdds(s, l, x);
      RegistryStep(s, l, t.sessions[x].peer, x);
      if l.sid in s.sessions { StepAdds(s, l, l.sid); OpenTouch(s, l); }
    }
  }

  /** A session opens by its own insertion only. */
  lemma OpenStep(s: State, l: Label, x: Sid)
    requires Enabled(s, l) && x in Next(s, l).sessions && Open(Next(s, l).sessions[x])
    ensures x in s.sessions && (l == Insert(x) || (Open(s.sessions[x]) && l != Cleanup(x)))
  {
    hide ValidBase64, Held, Answer, Current, Blank;
  }

  lemma OpenTouch(s: State, l: Label)
    requires Enabled(s, l) && l.sid in s.sessions
    ensures l.Insert? ==> l.sid in Next(s, l).sessions && Open(Next(s, l).sessions[l.sid])
    ensures l.Cleanup? ==> Open(s.sessions[l.sid])
  {
    hide ValidBase64, Held, Answer, Current, Blank;
  }

  /** If no two sessions of one peer id are ever open at once, every open session can be routed to. */
  lemma {:induction false} OpenSessionsAreRoutable(ls: seq<Label>)
    requires Legal(INITIAL, ls)
    requires forall i | 0 <= i <= |ls| :: Legal(INITIAL, ls[..i]) && OnePerPeer(After(INITIAL, ls[..i]))
    ensures AllRoutable(After(INITIAL, ls))
  {
    hide Next, Enabled, OnePerPeer;
    if ls != [] {
      var init := ls[..|ls| - 1];
      forall i | 0 <= i <= |init|
        ensures Legal(INITIAL, init[..i]) && OnePerPeer(After(INITIAL, init[..i]))
      {
        assert init[..i] == ls[..i];
      }
      OpenSessionsAreRoutable(init);
      assert init[..|init|] == init && ls[..|ls|] == ls;
      RoutableKept(After(INITIAL, init), ls[|ls| - 1]);
    }
  }

  // ---- when the HelloAck comes first ---------------------------------------------------------------------

  lemma LogAfterStep(s: State, l: Label, x: Sid)
    requires Enabled(s, l) && x in Next(s, l).sessions
    ensures Next(s, l).sessions[x].log == if x in s.sessions then Grown(s.sessions[x].log, NewItem(s, l, x)) else []
  {
    hide Next, Enabled, NewItem;
    if x in s.sessions {
      StepAdds(s, l, x);
    } else {
      StepSessions(s, l);
      NewSession(s, l);
    }
  }

  /** Step `j` of the run enqueues a frame at `x`. */
  ghost predicate Enqueues(ls: seq<Label>, j: nat, x: Sid)
    requires Legal(INITIAL, ls) && j < |ls|
  {
    PrefixLegal(INITIAL, ls, j);
    x in After(INITIAL, ls[..j]).sessions && NewItem(After(INITIAL, ls[..j]), ls[j], x).Some?
  }

  lemma {:induction false} LogIsEmptyExactly(ls: seq<Label>, x: Sid)
    requires Legal(INITIAL, ls) && x in After(INITIAL, ls).sessions
    ensures After(INITIAL, ls).sessions[x].log == [] <==> forall j | 0 <= j < |ls| :: !Enqueues(ls, j, x)
  {
    hide Next, Enabled, NewItem;
    if ls != [] {
      var init, l := ls[..|ls| - 1], ls[|ls| - 1];
      var s := After(INITIAL, init);
      LogAfterStep(s, l, x);
      forall j | 0 <= j < |init|
        ensures Enqueues(ls, j, x) <==> Enqueues(init, j, x)
      {
        assert ls[..j] == init[..j];
      }
      if x in s.sessions {
        LogIsEmptyExactly(init, x);
        if NewItem(s, l, x).Some? { assert Enqueues(ls, |init|, x); }
      } else {
        NoneBefore(init, x);
      }
    }
  }

  lemma {:induction false} NoneBefore(ls: seq<Label>, x: Sid)
    requires Legal(INITIAL, ls) && x !in After(INITIAL, ls).sessions
    ensures forall j | 0 <= j < |ls| :: !Enqueues(ls, j, x)
  {
    hide Next, Enabled, NewItem;
    if ls != [] {
      var init, l := ls[..|ls| - 1], ls[|ls| - 1];
      StepSessions(After(INITIAL, init), l);
      NoneBefore(init, x);
      forall j | 0 <= j < |init|
        ensures !Enqueues(ls, j, x)
      {
        assert ls[..j] == init[..j] && !Enqueues(init, j, x);
      }
    }
  }

  lemma {:induction false} LogsExtend(ls: seq<Label>, i: nat, x: Sid)
    requires Legal(INITIAL, ls) && i <= |ls| && Legal(INITIAL, ls[..i]) && x in After(INITIAL, ls[..i]).sessions
    ensures x in After(INITIAL, ls).sessions
    ensures After(INITIAL, ls[..i]).sessions[x].log <= After(INITIAL, ls).sessions[x].log
    decreases |ls|
  {
    hide Next, Enabled, NewItem;
    if i == |ls| {
      assert ls[..i] == ls;
    } else {
      var init := ls[..|ls| - 1];
      assert init[..i] == ls[..i];
      LogsExtend(init, i, x);
      StepAdds(After(INITIAL, init), ls[|ls| - 1], x);
    }
  }

  /** Step `j` of the run is a push to `x` that its queue accepts. */
  ghost predicate PushesTo(ls: seq<Label>, j: nat, x: Sid)
    requires Legal(INITIAL, ls) && j < |ls|
  {
    PrefixLegal(INITIAL, ls, j);
    var s := After(INITIAL, ls[..j]);
    && ls[j].Push? && x in s.sessions && Accepts(s.sessions[x])
    && ls[j].sid in s.sessions && s.sessions[ls[j].sid].task == Pushing(x)
  }

  /** The HelloAck of a session is the first frame of its queue exactly when no push to it was accepted between its
      insertion and its acknowledgement. */
  lemma HelloAckIsFirstExactly(ls: seq<Label>, k: nat, i: nat, x: Sid)
    requires Legal(INITIAL, ls) && k < i < |ls| && ls[k] == Insert(x) && ls[i] == Ack(x)
    requires Legal(INITIAL, ls[..i]) && x in After(INITIAL, ls[..i]).sessions
    requires After(INITIAL, ls[..i]).sessions[x].writing
    ensures x in After(INITIAL, ls).sessions && After(INITIAL, ls).sessions[x].log != []
    ensures After(INITIAL, ls).sessions[x].log[0].frame.HelloAck?
       <==> forall j | k < j < i :: !PushesTo(ls, j, x)
  {
    hide Next, Enabled, NewItem, Safe, Enqueues, PushesTo, AckOk;
    AckIsFirstOfLog(ls, i, x);
    forall j | 0 <= j < i
      ensures Enqueues(ls, j, x) <==> k < j && PushesTo(ls, j, x)
    {
      OnlyPushesBeforeAck(ls, k, i, j, x);
    }
  }

  // A session is Greeted until its insertion and Acking from there to its acknowledgement.

  lemma TaskBefore(s: State, l: Label, x: Sid)
    requires Enabled(s, l) && x in Next(s, l).sessions
    ensures Next(s, l).sessions[x].task.Greeted? && x in s.sessions ==> s.sessions[x].task.Greeted?
    ensures Next(s, l).sessions[x].task.Acking? ==>
              x in s.sessions && if l == Insert(x) then s.sessions[x].task.Greeted? else s.sessions[x].task.Acking? && l != Ack(x)
  {
    hide ValidBase64, Held, Answer, Current, Blank;
  }

  lemma InsertsGreeted(s: State, x: Sid)
    requires Enabled(s, Insert(x))
    ensures x in s.sessions && s.sessions[x].task.Greeted?
    ensures x in Next(s, Insert(x)).sessions && !Next(s, Insert(x)).sessions[x].task.Greeted?
  {
  }

  /** A session that is Greeted was so before. */
  lemma {:induction false} GreetedSince(ls: seq<Label>, j: nat, i: nat, x: Sid)
    requires Legal(INITIAL, ls) && j <= i <= |ls| && Legal(INITIAL, ls[..i]) && Legal(INITIAL, ls[..j])
    requires x in After(INITIAL, ls[..j]).sessions
    requires x in After(INITIAL, ls[..i]).sessions && After(INITIAL, ls[..i]).sessions[x].task.Greeted?
    ensures After(INITIAL, ls[..j]).sessions[x].task.Greeted?
    decreases i
  {
    hide Next, Enabled, NewItem;
    if j < i {
      PrefixLegal(INITIAL, ls, i - 1);
      PrefixLegal(INITIAL, ls, i);
      assert ls[..i][..i - 1] == ls[..i - 1];
      var s := After(INITIAL, ls[..i - 1]);
      assert ls[..i - 1][..j] == ls[..j];
      LogsExtend(ls[..i - 1], j, x);
      TaskBefore(s, ls[i - 1], x);
      GreetedSince(ls, j, i - 1, x);
    }
  }

  lemma {:induction false} AckingSince(ls: seq<Label>, k: nat, j: nat, i: nat, x: Sid)
    requires Legal(INITIAL, ls) && k < j <= i <= |ls| && ls[k] == Insert(x)
    requires Legal(INITIAL, ls[..i]) && Legal(INITIAL, ls[..j])
    requires x in After(INITIAL, ls[..i]).sessions && After(INITIAL, ls[..i]).sessions[x].task.Acking?
    ensures x in After(INITIAL, ls[..j]).sessions && After(INITIAL, ls[..j]).sessions[x].task.Acking?
    decreases i
  {
    hide Next, Enabled, NewItem;
    if j < i {
      PrefixLegal(INITIAL, ls, i - 1);
      PrefixLegal(INITIAL, ls, i);
      assert ls[..i][..i - 1] == ls[..i - 1];
      TaskBefore(After(INITIAL, ls[..i - 1]), ls[i - 1], x);
      if ls[i - 1] == Insert(x) {
        NotInsertedTwice(ls, k, i - 1, x);
      }
      AckingSince(ls, k, j, i - 1, x);
    }
  }

  lemma NotInsertedTwice(ls: seq<Label>, k: nat, i: nat, x: Sid)
    requires Legal(INITIAL, ls) && k < i < |ls| && ls[k] == Insert(x)
    ensures ls[i] != Insert(x)
  {
    hide Next, Enabled, NewItem;
    PrefixLegal(INITIAL, ls, k);
    PrefixLegal(INITIAL, ls, k + 1);
    PrefixLegal(INITIAL, ls, i);
    assert ls[..k + 1][..k] == ls[..k];
    InsertsGreeted(After(INITIAL, ls[..k]), x);
    if ls[i] == Insert(x) {
      InsertsGreeted(After(INITIAL, ls[..i]), x);
      GreetedSince(ls, k + 1, i, x);
      assert false;
    }
  }

  lemma ItemsWhileAcking(s: State, l: Label, x: Sid)
    requires Enabled(s, l) && x in s.sessions && Safe(s)
    requires s.sessions[x].task.Greeted? || (s.sessions[x].task.Acking? && l != Ack(x))
    ensures NewItem(s, l, x).Some? <==>
              s.sessions[x].task.Acking? && l.Push? && Accepts(s.sessions[x])
              && l.sid in s.sessions && s.sessions[l.sid].task == Pushing(x)
  {
    hide ValidBase64, Held, Answer, Current, Blank, Next, DbOk, RoutesOk, QueueOk, AckOk, ItemsOk, OrderOk, OutcomesOk;
    if l.Push? { assert SessionOk(s, l.sid); }
  }

  lemma OnlyPushesBeforeAck(ls: seq<Label>, k: nat, i: nat, j: nat, x: Sid)
    requires Legal(INITIAL, ls) && k < i < |ls| && ls[k] == Insert(x) && ls[i] == Ack(x) && j < i
    ensures Enqueues(ls, j, x) <==> k < j && PushesTo(ls, j, x)
  {
    hide Next, Enabled, NewItem, Safe;
    PrefixLegal(INITIAL, ls, i);
    PrefixLegal(INITIAL, ls, j);
    PrefixLegal(INITIAL, ls, k);
    var s := After(INITIAL, ls[..j]);
    if x in s.sessions {
      AckEnabled(After(INITIAL, ls[..i]), x);
      if j <= k {
        InsertsGreeted(After(INITIAL, ls[..k]), x);
        GreetedSince(ls, j, k, x);
      } else {
        AckingSince(ls, k, j, i, x);
        NotAckedBefore(ls, k, j, i, x);
      }
      AlwaysSafe(ls[..j]);
      ItemsWhileAcking(s, ls[j], x);
    }
  }

  lemma AckEnabled(s: State, x: Sid)
    requires Enabled(s, Ack(x))
    ensures x in s.sessions && s.sessions[x].task.Acking?
  {
  }

  lemma NotAckedBefore(ls: seq<Label>, k: nat, j: nat, i: nat, x: Sid)
    requires Legal(INITIAL, ls) && k < j < i < |ls| && ls[k] == Insert(x) && Legal(INITIAL, ls[..i])
    requires x in After(INITIAL, ls[..i]).sessions && After(INITIAL, ls[..i]).sessions[x].task.Acking?
    ensures ls[j] != Ack(x)
  {
    hide Next, Enabled, NewItem;
    PrefixLegal(INITIAL, ls, j);
    PrefixLegal(INITIAL, ls, j + 1);
    assert ls[..j + 1][..j] == ls[..j];
    AckingSince(ls, k, j + 1, i, x);
    NotInsertedTwice(ls, k, j, x);
    TaskBefore(After(INITIAL, ls[..j]), ls[j], x);
  }

  lemma AckIsFirstOfLog(ls: seq<Label>, i: nat, x: Sid)
    requires Legal(INITIAL, ls) && i < |ls| && ls[i] == Ack(x)
    requires Legal(INITIAL, ls[..i]) && x in After(INITIAL, ls[..i]).sessions
    requires After(INITIAL, ls[..i]).sessions[x].writing
    ensures x in After(INITIAL, ls).sessions && After(INITIAL, ls).sessions[x].log != []
    ensures After(INITIAL, ls).sessions[x].log[0].frame.HelloAck?
       <==> forall j | 0 <= j < i :: !Enqueues(ls, j, x)
  {
    hide Next, Enabled, NewItem, Safe, Enqueues, AckOk;
    PrefixLegal(INITIAL, ls, i);
    PrefixLegal(INITIAL, ls, i + 1);
    var s := After(INITIAL, ls[..i]);
    assert ls[..i + 1][..i] == ls[..i];
    AckStep(s, x);
    LogsExtend(ls, i + 1, x);
    LogIsEmptyExactly(ls[..i], x);
    forall j | 0 <= j < i
      ensures Enqueues(ls, j, x) <==> Enqueues(ls[..i], j, x)
    {
      SameStep(ls, i, j, x);
    }
    AlwaysSafe(ls[..i]);
    OnlyDeliveriesBeforeAck(s, x);
  }

  lemma SameStep(ls: seq<Label>, i: nat, j: nat, x: Sid)
    requires Legal(INITIAL, ls) && j < i <= |ls| && Legal(INITIAL, ls[..i])
    ensures Enqueues(ls, j, x) <==> Enqueues(ls[..i], j, x)
  {
    hide Next, Enabled, NewItem;
    assert ls[..i][..j] == ls[..j];
  }

  lemma AckStep(s: State, x: Sid)
    requires Enabled(s, Ack(x)) && s.sessions[x].writing
    ensures x in s.sessions && s.sessions[x].task.Acking? && x in Next(s, Ack(x)).sessions
    ensures var c := s.sessions[x];
            Next(s, Ack(x)).sessions[x].log == c.log + [Item(HelloAck(c.peer, c.worldId, c.first), x, 0)]
  {
  }

  lemma OnlyDeliveriesBeforeAck(s: State, x: Sid)
    requires Safe(s) && x in s.sessions && s.sessions[x].task.Acking?
    ensures forall k | 0 <= k < |s.sessions[x].log| :: s.sessions[x].log[k].frame.Delivery?
  {
    assert SessionOk(s, x);
  }

  // ---- two runs ------------------------------------------------------------------------------------------

  ghost predicate Reaches(run: seq<Label>, i: nat, s: State) {
    i <= |run| && Legal(INITIAL, run[..i]) && After(INITIAL, run[..i]) == s
  }

  lemma Starts(run: seq<Label>)
    ensures Reaches(run, 0, INITIAL)
  {
  }

  lemma Extends(run: seq<Label>, i: nat, s: State, t: State)
    requires Reaches(run, i, s) && i < |run| && Enabled(s, run[i]) && Next(s, run[i]) == t
    ensures Reaches(run, i + 1, t)
  {
    hide Next, Enabled;
    assert run[..i + 1][..i] == run[..i];
  }

  lemma Ends(run: seq<Label>, s: State)
    requires Reaches(run, |run|, s)
    ensures Legal(INITIAL, run) && After(INITIAL, run) == s
  {
    assert run[..|run|] == run;
  }

  lemma NotBlank(uuid: Uuid)
    requires uuid == "u" || uuid == "v"
    ensures !Blank(uuid)
  {
    assert uuid[0] in uuid;
  }

  /** A session of server "u" or "v" in some task, with nothing in its queue. */
  function Idle(peer: PeerId, uuid: Uuid, first: bool, task: Task): Session {
    Session(peer, uuid, 7, first, task, [], [], true, Waiting, [], [], [])
  }

  /** A session that has enqueued its HelloAck. */
  function Acked(sid: Sid, peer: PeerId, uuid: Uuid, first: bool, task: Task): Session {
    var ack := [Item(HelloAck(peer, 7, first), sid, 0)];
    Session(peer, uuid, 7, first, task, ack, [], true, Waiting, ack, [], [])
  }

  const ONE_DB: Db := Db(map["u" := World("p", 7)], map[])

  /** A run that starts with a server "u" connecting. */
  ghost predicate UConnects(run: seq<Label>) {
    |run| >= 3 && run[0] == Label.Hello(1, 7, "u", "p") && run[1] == Insert(1) && run[2] == Ack(1)
  }

  lemma Connected(run: seq<Label>)
    requires UConnects(run)
    ensures Reaches(run, 3, State(ONE_DB, map["p" := 1], map[1 := Acked(1, "p", "u", true, Reading)]))
  {
    hide Blank, Reaches;
    Starts(run);
    NotBlank("u");
    var s1 := State(ONE_DB, map[], map[1 := Idle("p", "u", true, Greeted)]);
    var s2 := State(ONE_DB, map["p" := 1], map[1 := Idle("p", "u", true, Acking)]);
    Extends(run, 0, INITIAL, s1);
    Extends(run, 1, s1, s2);
    assert [] + [Item(HelloAck("p", 7, true), 1, 0)] == [Item(HelloAck("p", 7, true), 1, 0)];
    Extends(run, 2, s2, State(ONE_DB, map["p" := 1], map[1 := Acked(1, "p", "u", true, Reading)]));
  }

  // ---- server "u" connects again before its first session is cleaned up

  const RECONNECT: seq<Label> :=
    [Label.Hello(1, 7, "u", "p"), Insert(1), Ack(1), Label.Hello(2, 7, "u", ""), Insert(2), Ack(2), ReadError(1), Cleanup(1)]

  function Both(route: Sid, a: Session, b: Session): State {
    State(ONE_DB, map["p" := route], map[1 := a, 2 := b])
  }

  lemma ReconnectGreets()
    ensures Reaches(RECONNECT, 4, Both(1, Acked(1, "p", "u", true, Reading), Idle("p", "u", false, Greeted)))
  {
    hide Blank, Reaches;
    Connected(RECONNECT);
    NotBlank("u");
    var a := Acked(1, "p", "u", true, Reading);
    Extends(RECONNECT, 3, State(ONE_DB, map["p" := 1], map[1 := a]), Both(1, a, Idle("p", "u", false, Greeted)));
  }

  lemma Reconnected()
    ensures Reaches(RECONNECT, 6, Both(2, Acked(1, "p", "u", true, Reading), Acked(2, "p", "u", false, Reading)))
  {
    hide Blank, Reaches;
    ReconnectGreets();
    var a, s5 := Acked(1, "p", "u", true, Reading), Both(2, Acked(1, "p", "u", true, Reading), Idle("p", "u", false, Acking));
    Extends(RECONNECT, 4, Both(1, a, Idle("p", "u", false, Greeted)), s5);
    assert [] + [Item(HelloAck("p", 7, false), 2, 0)] == [Item(HelloAck("p", 7, false), 2, 0)];
    Extends(RECONNECT, 5, s5, Both(2, a, Acked(2, "p", "u", false, Reading)));
  }

  /** The cleanup of the older session removes the entry of the newer one: this one is open and reading, and
      nobody can reach it. */
  lemma ReconnectIsUnreachable()
    ensures Legal(INITIAL, RECONNECT)
    ensures var s := After(INITIAL, RECONNECT);
            && 2 in s.sessions && s.sessions[2].task.Reading? && s.sessions[2].writing
            && s.sessions[2].peer !in s.registry
  {
    hide After, Legal, Reaches;
    Reconnected();
    var a, b := Acked(1, "p", "u", true, Reading), Acked(2, "p", "u", false, Reading);
    var s8 := State(ONE_DB, map[], map[1 := a.(task := Left), 2 := b]);
    Extends(RECONNECT, 6, Both(2, a, b), Both(2, a.(task := Leaving), b));
    Extends(RECONNECT, 7, Both(2, a.(task := Leaving), b), s8);
    Ends(RECONNECT, s8);
  }

  // ---- server "u" forwards to server "v" between the insertion of "v" and its acknowledgement

  const EARLY_DELIVERY: seq<Label> :=
    [Label.Hello(1, 7, "u", "p"), Insert(1), Ack(1), Label.Hello(2, 7, "v", "q"), Insert(2),
     ForwardRead(1, "q", ""), Lookup(1), Push(1), Ack(2)]

  function Servers(a: Session, b: Session): State {
    State(Db(map["u" := World("p", 7), "v" := World("q", 7)], map[]), map["p" := 1, "q" := 2], map[1 := a, 2 := b])
  }

  const SENDER: Session := Acked(1, "p", "u", true, LookingUp).(forwards := [Forward("q", "")])

  const EARLY: Item := Item(Delivery("p", ""), 1, 0)

  lemma VGreets()
    ensures Reaches(EARLY_DELIVERY, 4,
                    Servers(Acked(1, "p", "u", true, Reading), Idle("q", "v", true, Greeted)).(registry := map["p" := 1]))
  {
    hide Blank, Reaches, ValidBase64;
    Connected(EARLY_DELIVERY);
    NotBlank("v");
    var a := Acked(1, "p", "u", true, Reading);
    var s4 := Servers(a, Idle("q", "v", true, Greeted)).(registry := map["p" := 1]);
    Extends(EARLY_DELIVERY, 3, State(ONE_DB, map["p" := 1], map[1 := a]), s4);
  }

  lemma VConnects()
    ensures Reaches(EARLY_DELIVERY, 6, Servers(SENDER, Idle("q", "v", true, Acking)))
  {
    hide Blank, Reaches, ValidBase64;
    VGreets();
    EmptyIsValid();
    var a, c := Acked(1, "p", "u", true, Reading), Idle("q", "v", true, Acking);
    Extends(EARLY_DELIVERY, 4, Servers(a, c.(task := Greeted)).(registry := map["p" := 1]), Servers(a, c));
    assert [] + [Forward("q", "")] == [Forward("q", "")];
    Extends(EARLY_DELIVERY, 5, Servers(a, c), Servers(SENDER, c));
  }

  lemma EmptyIsValid()
    ensures ValidBase64("")
  {
  }

  const RECEIVER: Session := Idle("q", "v", true, Acking).(queue := [EARLY], log := [EARLY])

  const SENT: Session := SENDER.(task := Reading, outcomes := [Delivered(2)])

  lemma UFinds()
    ensures Reaches(EARLY_DELIVERY, 7, Servers(SENDER.(task := Pushing(2)), Idle("q", "v", true, Acking)))
  {
    hide After, Legal, Reaches, ValidBase64, Blank;
    VConnects();
    var b := Idle("q", "v", true, Acking);
    Extends(EARLY_DELIVERY, 6, Servers(SENDER, b), Servers(SENDER.(task := Pushing(2)), b));
  }

  lemma UForwards()
    ensures Reaches(EARLY_DELIVERY, 8, Servers(SENT, RECEIVER))
  {
    hide After, Legal, Reaches, ValidBase64, Blank;
    UFinds();
    assert [] + [EARLY] == [EARLY] && [] + [Delivered(2)] == [Delivered(2)];
    Extends(EARLY_DELIVERY, 7, Servers(SENDER.(task := Pushing(2)), Idle("q", "v", true, Acking)), Servers(SENT, RECEIVER));
  }

  /** The first frame that "v" gets is a delivery, and its HelloAck comes second. */
  lemma HelloAckMayComeSecond()
    ensures Legal(INITIAL, EARLY_DELIVERY)
    ensures var s := After(INITIAL, EARLY_DELIVERY);
            && 2 in s.sessions && |s.sessions[2].queue| == 2
            && s.sessions[2].queue[0].frame == Delivery("p", "") && s.sessions[2].queue[1].frame == HelloAck("q", 7, true)
  {
    hide After, Legal, Reaches, ValidBase64, Blank;
    UForwards();
    var two := [EARLY, Item(HelloAck("q", 7, true), 2, 0)];
    assert [EARLY] + [Item(HelloAck("q", 7, true), 2, 0)] == two;
    var s9 := Servers(SENT, RECEIVER.(queue := two, log := two, task := Reading));
    Extends(EARLY_DELIVERY, 8, Servers(SENT, RECEIVER), s9);
    Ends(EARLY_DELIVERY, s9);
  }
}
