/** The errors that the daemon reports for forwards: one for each refused forward, with its target and the reason
    that applied to it. */
module DaemonErrors {
  import opened Wrappers
  import opened Database
  import opened Daemon
  import opened DaemonSafety
  import opened DaemonRuns

  // ---- one error for each refused forward ----------------------------------------------------------------

  /** The ForwardError frames of a log, in order. */
  function Errors(log: seq<Item>): seq<Frame> {
    if log == [] then []
    else
      var f := log[|log| - 1].frame;
      Errors(log[..|log| - 1]) + if f.ForwardError? then [f] else []
  }

  /** The errors that the outcomes call for: one for each refused forward, in order. */
  function Expected(forwards: seq<Forward>, outcomes: seq<Outcome>): seq<Frame>
    requires |outcomes| <= |forwards|
  {
    if outcomes == [] then []
    else
      var k := |outcomes| - 1;
      Expected(forwards, outcomes[..k])
      + if outcomes[k].Refused? then [ForwardError(forwards[k].target, outcomes[k].reason)] else []
  }

  /** The errors enqueued are those called for; after the writer is gone, the later ones are lost. */
  ghost predicate ErrorsOk(c: Session) {
    && |c.outcomes| <= |c.forwards|
    && Errors(c.log) <= Expected(c.forwards, c.outcomes)
    && (c.writing ==> Errors(c.log) == Expected(c.forwards, c.outcomes))
  }

  function ErrorOf(more: Option<Item>): seq<Frame> {
    if more.Some? && more.value.frame.ForwardError? then [more.value.frame] else []
  }

  lemma ErrorsGrow(log: seq<Item>, more: Option<Item>)
    ensures Errors(Grown(log, more)) == Errors(log) + ErrorOf(more)
  {
    if more.Some? {
      assert Grown(log, more)[..|log|] == log;
    }
  }

  lemma {:induction false} ExpectedOfMore(forwards: seq<Forward>, more: seq<Forward>, outcomes: seq<Outcome>)
    requires |outcomes| <= |forwards|
    ensures Expected(forwards + more, outcomes) == Expected(forwards, outcomes)
  {
    if outcomes != [] { ExpectedOfMore(forwards, more, outcomes[..|outcomes| - 1]); }
  }

  lemma ExpectedGrows(forwards: seq<Forward>, outcomes: seq<Outcome>, more: Option<Outcome>)
    requires |outcomes| < |forwards|
    ensures Expected(forwards, Grown(outcomes, more))
         == Expected(forwards, outcomes)
            + if more.Some? && more.value.Refused? then [ForwardError(forwards[|outcomes|].target, more.value.reason)]
              else []
  {
    if more.Some? {
      assert Grown(outcomes, more)[..|outcomes|] == outcomes;
    }
  }

  /** A step of the session itself enqueues an error when it records a refusal, if its writer lives. */
  lemma ErrorStep(s: State, l: Label)
    requires Enabled(s, l) && l.sid in s.sessions && TaskOk(s, l.sid)
    ensures l.sid in Next(s, l).sessions
    ensures var c, d := s.sessions[l.sid], Next(s, l).sessions[l.sid];
            && (d.writing ==> c.writing)
            && (NewOutcome(s, l, l.sid).Some? ==> |c.outcomes| < |c.forwards| && d.forwards == c.forwards)
            && ErrorOf(NewItem(s, l, l.sid))
               == (if NewOutcome(s, l, l.sid).Some? && NewOutcome(s, l, l.sid).value.Refused? && c.writing
                   then [ForwardError(c.forwards[|c.outcomes|].target, NewOutcome(s, l, l.sid).value.reason)] else [])
  {
    hide ValidBase64, Held, Answer, Blank;
  }

  lemma ErrorsKept(s: State, l: Label, x: Sid)
    requires Enabled(s, l) && x in s.sessions && TaskOk(s, x) && ErrorsOk(s.sessions[x])
    ensures x in Next(s, l).sessions && ErrorsOk(Next(s, l).sessions[x])
  {
    hide Next, Enabled, NewItem, NewOutcome, TaskOk, Expected, Errors;
    var c := s.sessions[x];
    if x != l.sid {
      if NewItem(s, l, x).None? {
        StepElsewhere(s, l, x);
      } else {
        StepPushed(s, l, x);
        ErrorsGrow(c.log, NewItem(s, l, x));
      }
    } else {
      OwnErrorsKept(s, l);
    }
  }

  lemma OwnErrorsKept(s: State, l: Label)
    requires Enabled(s, l) && l.sid in s.sessions && TaskOk(s, l.sid) && ErrorsOk(s.sessions[l.sid])
    ensures l.sid in Next(s, l).sessions && ErrorsOk(Next(s, l).sessions[l.sid])
  {
    hide Next, Enabled, NewItem, NewOutcome, TaskOk, Expected, Errors, ErrorOf;
    var c := s.sessions[l.sid];
    StepAdds(s, l, l.sid);
    StepRecords(s, l, l.sid);
    ErrorStep(s, l);
    ErrorsGrow(c.log, NewItem(s, l, l.sid));
    if NewOutcome(s, l, l.sid).Some? {
      ExpectedGrows(c.forwards, c.outcomes, NewOutcome(s, l, l.sid));
    } else if l.ForwardRead? {
      ExpectedOfMore(c.forwards, [Forward(l.target, l.payload)], c.outcomes);
    }
  }

  // ---- the reasons ---------------------------------------------------------------------------------------

  /** An outcome that a forward of `peer` may have, as far as the forward itself decides it. */
  ghost predicate Just(peer: PeerId, f: Forward, o: Outcome) {
    && (o == Refused(SelfRouteRefused) <==> f.target == peer)
    && (f.target != peer && !ValidBase64(f.payload) ==> o == Refused(UnknownPeer))
  }

  ghost predicate ReasonsOk(c: Session) {
    && |c.outcomes| <= |c.forwards|
    && (forall k | 0 <= k < |c.outcomes| :: Just(c.peer, c.forwards[k], c.outcomes[k]))
    && (c.task.Replying? && c.task.frame.ForwardError? ==>
          c.forwards != [] && Just(c.peer, Current(c), Refused(c.task.frame.reason)))
    && (c.task.LookingUp? || c.task.Pushing? ==>
          c.forwards != [] && Current(c).target != c.peer && ValidBase64(Current(c).payload))
  }

  lemma ReasonsKept(s: State, l: Label, x: Sid)
    requires Enabled(s, l) && x in s.sessions && TaskOk(s, x) && ReasonsOk(s.sessions[x])
    ensures x in Next(s, l).sessions && ReasonsOk(Next(s, l).sessions[x])
  {
    hide Next, Enabled, NewItem, TaskOk, ReasonsOk;
    if x != l.sid {
      if NewItem(s, l, x).None? { StepElsewhere(s, l, x); } else { StepPushed(s, l, x); }
      SameReasons(s.sessions[x], Next(s, l).sessions[x]);
    } else if l.ForwardRead? || l.Lookup? {
      StartedReasons(s, l);
    } else if l.Push? || l.Reply? {
      EndedReasons(s, l);
    } else {
      OtherReasons(s, l);
    }
  }

  lemma SameCurrent(c: Session, d: Session)
    requires c.forwards == d.forwards
    ensures c.forwards != [] ==> Current(c) == Current(d)
  {
  }

  lemma StartedReasons(s: State, l: Label)
    requires Enabled(s, l) && l.sid in s.sessions && ReasonsOk(s.sessions[l.sid])
    requires l.ForwardRead? || l.Lookup?
    ensures l.sid in Next(s, l).sessions && ReasonsOk(Next(s, l).sessions[l.sid])
  {
    hide ValidBase64, Blank;
  }

  lemma EndedReasons(s: State, l: Label)
    requires Enabled(s, l) && l.sid in s.sessions && TaskOk(s, l.sid) && ReasonsOk(s.sessions[l.sid])
    requires l.Push? || l.Reply?
    ensures l.sid in Next(s, l).sessions && ReasonsOk(Next(s, l).sessions[l.sid])
  {
    hide ValidBase64, Held, Blank, Target;
    StepRecords(s, l, l.sid);
  }

  /** The other steps leave a forward in progress as it is, and start none. */
  lemma OtherReasons(s: State, l: Label)
    requires Enabled(s, l) && l.sid in s.sessions && ReasonsOk(s.sessions[l.sid])
    requires !l.ForwardRead? && !l.Lookup? && !l.Push? && !l.Reply?
    ensures l.sid in Next(s, l).sessions && ReasonsOk(Next(s, l).sessions[l.sid])
  {
    hide ReasonsOk, Just;
    OtherStep(s, l);
    SameReasons(s.sessions[l.sid], Next(s, l).sessions[l.sid]);
  }

  lemma OtherStep(s: State, l: Label)
    requires Enabled(s, l) && l.sid in s.sessions
    requires !l.ForwardRead? && !l.Lookup? && !l.Push? && !l.Reply?
    ensures l.sid in Next(s, l).sessions
    ensures var c, d := s.sessions[l.sid], Next(s, l).sessions[l.sid];
            && d.peer == c.peer && d.forwards == c.forwards && d.outcomes == c.outcomes
            && (d.task == c.task || !Busy(d.task))
  {
    hide ValidBase64, Held, Blank;
  }

  lemma SameReasons(c: Session, d: Session)
    requires ReasonsOk(c) && d.peer == c.peer && d.forwards == c.forwards && d.outcomes == c.outcomes
    requires d.task == c.task || !Busy(d.task)
    ensures ReasonsOk(d)
  {
    hide Just;
    SameCurrent(c, d);
  }

  // ---- all runs ------------------------------------------------------------------------------------------

  ghost predicate ReportsOk(s: State) {
    forall x | x in s.sessions :: ErrorsOk(s.sessions[x]) && ReasonsOk(s.sessions[x])
  }

  lemma {:induction false} AlwaysReports(ls: seq<Label>)
    requires Legal(INITIAL, ls)
    ensures ReportsOk(After(INITIAL, ls))
  {
    hide Next, Enabled, Safe, ErrorsOk, ReasonsOk;
    if ls != [] {
      var s, l := After(INITIAL, ls[..|ls| - 1]), ls[|ls| - 1];
      AlwaysReports(ls[..|ls| - 1]);
      AlwaysSafe(ls[..|ls| - 1]);
      StepSessions(s, l);
      forall x | x in Next(s, l).sessions
        ensures ErrorsOk(Next(s, l).sessions[x]) && ReasonsOk(Next(s, l).sessions[x])
      {
        if x in s.sessions {
          SafeTask(s, x);
          ErrorsKept(s, l, x);
          ReasonsKept(s, l, x);
        } else {
          NewSession(s, l);
          NothingReported(Next(s, l).sessions[x]);
        }
      }
    }
  }

  lemma SafeTask(s: State, x: Sid)
    requires Safe(s) && x in s.sessions
    ensures TaskOk(s, x)
  {
    SafeSession(s, x);
  }

  lemma NothingReported(c: Session)
    requires c.task.Greeted? && c.log == [] && c.forwards == [] && c.outcomes == []
    ensures ErrorsOk(c) && ReasonsOk(c)
  {
  }

  /** The ForwardErrors on a session's own queue are exactly one for each refused forward, in order, with its target
      and its reason; only when the writer is gone may the last ones be missing. */
  lemma ErrorsAnswerRefusals(ls: seq<Label>, x: Sid)
    requires Legal(INITIAL, ls) && x in After(INITIAL, ls).sessions
    ensures var c := After(INITIAL, ls).sessions[x];
            && |c.outcomes| <= |c.forwards|
            && Errors(c.log) <= Expected(c.forwards, c.outcomes)
            && (c.writing ==> Errors(c.log) == Expected(c.forwards, c.outcomes))
  {
    hide Legal, After, Expected, Errors, ReasonsOk;
    AlwaysReports(ls);
  }

  /** A forward to the sender's own id is refused for that reason, and no other forward is; a payload that is not
      base64 is reported as an unknown peer. */
  lemma RefusalsAreJust(ls: seq<Label>, x: Sid, k: nat)
    requires Legal(INITIAL, ls) && x in After(INITIAL, ls).sessions
    requires k < |After(INITIAL, ls).sessions[x].outcomes|
    ensures var c := After(INITIAL, ls).sessions[x];
            && k < |c.forwards|
            && (c.outcomes[k] == Refused(SelfRouteRefused) <==> c.forwards[k].target == c.peer)
            && (c.forwards[k].target != c.peer && !ValidBase64(c.forwards[k].payload) ==>
                  c.outcomes[k] == Refused(UnknownPeer))
  {
    hide Legal, After, ErrorsOk, ValidBase64;
    AlwaysReports(ls);
    var c := After(INITIAL, ls).sessions[x];
    assert Just(c.peer, c.forwards[k], c.outcomes[k]);
  }

  /** What a lookup makes of the registry, in a run. */
  lemma LookupRegistry(ls: seq<Label>, x: Sid)
    requires Legal(INITIAL, ls) && Enabled(After(INITIAL, ls), Lookup(x))
    ensures var s := After(INITIAL, ls);
            var target := Current(s.sessions[x]).target;
            var task := Next(s, Lookup(x)).sessions[x].task;
            && (target !in s.registry <==> task == Replying(ForwardError(target, UnknownPeer)))
            && (target in s.registry <==> task.Pushing?)
            && (task.Pushing? ==> task.tx in s.sessions && s.sessions[task.tx].peer == target && task.tx != x)
  {
    hide Legal, After, Safe, Current, Held;
    AlwaysSafe(ls);
    var s := After(INITIAL, ls);
    SafeTask(s, x);
    SafeDb(s);
    LookupFinds(s, x);
  }
}
