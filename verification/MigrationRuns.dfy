/** Migrations in which nothing fails, and what becomes of those in which something does. */
module MigrationRuns {
  import opened Wrappers
  import opened Migration

  // ----- nothing fails -----

  /** An event in which nothing breaks and every call does what it is for. */
  predicate Faultless(e: Event) {
    match e
    case SenderReads => true
    case ReceiverReads => true
    case Suspend(outcome) => outcome == SuspendOk
    case RenameAway(ok, _) => ok
    case WriteGo(ok, _) => ok
    case RenameBack(done) => done
    case Resume(effective) => effective
    case DestroySender(effective) => effective
    case Create(ok) => ok
    case RenameIncoming(ok, _) => ok
    case Unpause(ok, _) => ok
    case ReceiverWrites(ok, _) => ok
    case DestroyReceiver(ok, gone) => ok && gone
    case _ => false
  }

  function SenderAt(i: nat): SenderPc
    requires i <= 8
  {
    [AwaitBanner, Suspending, AwaitReady, RenamingAway, SendingGo, AwaitReport, AwaitStatus, Destroying, Succeeded][i]
  }

  function ReceiverAt(j: nat): ReceiverPc
    requires j <= 8
  {
    [WritingBanner, Creating, WritingReady, AwaitGo, Renaming, Unpausing, WritingReport(false), WritingStatus(false), ReceiverExited][j]
  }

  /** How many messages the receiver has written after `j` steps, and how many the sender has read after `i`. */
  function WrittenUp(j: nat): nat { if j < 1 then 0 else if j < 3 then 1 else if j < 7 then 2 else if j < 8 then 3 else 4 }

  function ReadUp(i: nat): nat { if i < 1 then 0 else if i < 3 then 1 else if i < 6 then 2 else if i < 7 then 3 else 4 }

  function WrittenDown(i: nat): nat { if i < 2 then 0 else if i < 5 then 1 else 2 }

  function ReadDown(j: nat): nat { if j < 2 then 0 else if j < 4 then 1 else 2 }

  const UP: seq<Message> := [Banner, Ready, Report, Status(false)]
  const DOWN: seq<Message> := [Image, Permission]

  /** What is under way has been written; a receiver without a name to give skips the rename. */
  predicate Stage(env: Env, i: nat, j: nat) {
    i <= 8 && j <= 8 && ReadUp(i) <= WrittenUp(j) && ReadDown(j) <= WrittenDown(i) && (env.target.None? ==> j != 4)
  }

  /** Where both ends stand after `i` steps of the sender and `j` of the receiver. */
  function StageState(env: Env, i: nat, j: nat): State
    requires Stage(env, i, j)
  {
    State(SenderAt(i), if i < 2 then Running else if i < 8 then Stopped else Absent,
          if i < 4 then env.held else if i < 8 then GivenName(env) else None,
          ReceiverAt(j), if j < 2 then Absent else if j < 6 then Stopped else Running,
          if j < 2 then None else if j < 5 then TempName(env) else env.target,
          DOWN[ReadDown(j)..WrittenDown(i)], UP[ReadUp(i)..WrittenUp(j)], i == 8, j == 8, i >= 5, j >= 6, false)
  }

  /** A faultless event takes one of the ends one step further. */
  lemma SenderGoesOn(env: Env, i: nat, j: nat, e: Event)
    requires Renames(env) && Stage(env, i, j) && Faultless(e) && Step(env, StageState(env, i, j), e).Some?
    requires e.SenderReads? || e.Suspend? || e.RenameAway? || e.WriteGo? || e.DestroySender? || e.RenameBack? || e.Resume?
    ensures Stage(env, i + 1, j) && Step(env, StageState(env, i, j), e) == Some(StageState(env, i + 1, j))
  {
    if e.SenderReads? {
      SenderReadsOn(env, i, j);
    } else if e.Suspend? {
      Queued(DOWN, ReadDown(j), WrittenDown(i));
    } else if e.WriteGo? {
      Queued(DOWN, ReadDown(j), WrittenDown(i));
    }
  }

  lemma SenderReadsOn(env: Env, i: nat, j: nat)
    requires Renames(env) && Stage(env, i, j) && SenderReadStep(StageState(env, i, j)).Some?
    ensures Stage(env, i + 1, j) && SenderReadStep(StageState(env, i, j)) == Some(StageState(env, i + 1, j))
  {
    Queued(UP, ReadUp(i), WrittenUp(j));
  }

  /** One message more in a queue, and one less. */
  lemma Queued(s: seq<Message>, a: nat, b: nat)
    requires a <= b <= |s|
    ensures b < |s| ==> s[a..b] + [s[b]] == s[a..b + 1]
    ensures a < b ==> s[a..b][0] == s[a] && s[a..b][1..] == s[a + 1..b]
  {
  }

  lemma ReceiverGoesOn(env: Env, i: nat, j: nat, e: Event)
    requires Renames(env) && Stage(env, i, j) && Faultless(e) && Step(env, StageState(env, i, j), e).Some?
    requires e.Create? || e.ReceiverReads? || e.RenameIncoming? || e.Unpause? || e.ReceiverWrites? || e.DestroyReceiver?
    ensures var j' := if j == 3 && env.target.None? then 5 else j + 1;
      Stage(env, i, j') && Step(env, StageState(env, i, j), e) == Some(StageState(env, i, j'))
  {
    if e.ReceiverWrites? {
      ReceiverWritesOn(env, i, j, e.delivered);
    } else {
      Queued(DOWN, ReadDown(j), WrittenDown(i));
    }
  }

  lemma ReceiverWritesOn(env: Env, i: nat, j: nat, delivered: bool)
    requires Renames(env) && Stage(env, i, j) && ReceiverWriteStep(StageState(env, i, j), true, delivered).Some?
    ensures Stage(env, i, j + 1) && ReceiverWriteStep(StageState(env, i, j), true, delivered) == Some(StageState(env, i, j + 1)) && j != 3
  {
    Queued(UP, ReadUp(i), WrittenUp(j));
  }

  /** The next faultless event, if both ends are not done. */
  function NextEvent(env: Env, i: nat, j: nat): Event
    requires Stage(env, i, j)
  {
    if ReadUp(i) < WrittenUp(j) && (i == 0 || i == 2 || i == 5 || i == 6) then SenderReads
    else if i == 1 then Suspend(SuspendOk)
    else if i == 3 then RenameAway(true, true)
    else if i == 4 then WriteGo(true, true)
    else if i == 7 then DestroySender(true)
    else if j == 1 then Create(true)
    else if j == 3 then ReceiverReads
    else if j == 4 then RenameIncoming(true, true)
    else if j == 5 then Unpause(true, true)
    else ReceiverWrites(true, true)
  }

  /** No end is ever stuck. */
  lemma NextIsPossible(env: Env, i: nat, j: nat)
    requires Renames(env) && Stage(env, i, j) && !(i == 8 && j == 8)
    ensures Faultless(NextEvent(env, i, j)) && Step(env, StageState(env, i, j), NextEvent(env, i, j)).Some?
  {
  }

  /** A faultless run of `n` events stands at some stage. */
  lemma {:induction false} FaultlessStage(env: Env, events: seq<Event>) returns (i: nat, j: nat)
    requires Renames(env) && Run(env, Init(env), events).Some? && forall k :: 0 <= k < |events| ==> Faultless(events[k])
    ensures Stage(env, i, j) && Run(env, Init(env), events) == Some(StageState(env, i, j)) && |events| <= i + j
    decreases |events|
  {
    hide StageState, Stage, Step, Faultless;
    if events == [] {
      i, j := 0, 0;
      InitStage(env);
    } else {
      var front, last := events[..|events| - 1], events[|events| - 1];
      assert events == front + [last];
      FrontRuns(env, Init(env), front, [last]);
      var a, b := FaultlessStage(env, front);
      RunAppends(env, Init(env), front, last);
      i, j := OneMore(env, a, b, last);
    }
  }

  lemma InitStage(env: Env)
    ensures Stage(env, 0, 0) && StageState(env, 0, 0) == Init(env)
  {
  }

  lemma {:induction false} FrontRuns(env: Env, s: State, front: seq<Event>, back: seq<Event>)
    requires Run(env, s, front + back).Some?
    ensures Run(env, s, front).Some?
    ensures Run(env, s, front + back) == Run(env, Run(env, s, front).value, back)
    decreases |front|
  {
    hide Step;
    if front == [] {
      assert front + back == back;
    } else {
      assert (front + back)[1..] == front[1..] + back && (front + back)[0] == front[0];
      FrontRuns(env, Step(env, s, front[0]).value, front[1..], back);
    }
  }

  lemma OneMore(env: Env, a: nat, b: nat, e: Event) returns (i: nat, j: nat)
    requires Renames(env) && Stage(env, a, b) && Faultless(e) && Step(env, StageState(env, a, b), e).Some?
    ensures Stage(env, i, j) && Step(env, StageState(env, a, b), e) == Some(StageState(env, i, j)) && a + b < i + j
  {
    hide StageState, Stage, Step;
    if e.SenderReads? || e.Suspend? || e.RenameAway? || e.WriteGo? || e.DestroySender? || e.RenameBack? || e.Resume? {
      SenderGoesOn(env, a, b, e);
      i, j := a + 1, b;
    } else {
      ReceiverGoesOn(env, a, b, e);
      i, j := a, if b == 3 && env.target.None? then 5 else b + 1;
    }
  }

  /** A migration in which nothing fails cannot go on for ever, and does not end before it has succeeded: the guest runs at the
      receiver under its name there, and the sender has neither guest nor name left. */
  lemma FaultlessSucceeds(env: Env, events: seq<Event>)
    requires Renames(env) && Run(env, Init(env), events).Some? && forall k :: 0 <= k < |events| ==> Faultless(events[k])
    ensures |events| <= 16
    ensures (exists e :: Faultless(e) && Step(env, Run(env, Init(env), events).value, e).Some?) ||
      Run(env, Init(env), events) == Some(State(Succeeded, Absent, None, ReceiverExited, Running, env.target, [], [], true, true, true, true, false))
  {
    hide Step, Faultless;
    var i, j := FaultlessStage(env, events);
    if i == 8 && j == 8 {
      LastStage(env);
    } else {
      NextIsPossible(env, i, j);
    }
  }

  lemma LastStage(env: Env)
    ensures Stage(env, 8, 8)
    ensures StageState(env, 8, 8) == State(Succeeded, Absent, None, ReceiverExited, Running, env.target, [], [], true, true, true, true, false)
  {
  }

  // ----- runs, event by event -----

  /** Up to where both ends know that the guest has been transferred. */
  const TRANSFER: seq<Event> :=
    [ReceiverWrites(true, true), SenderReads, Suspend(SuspendOk), Create(true), ReceiverWrites(true, true), SenderReads]

  /** Up to where the receiver may start the guest; without a name to give it skips the rename. */
  function Handshake(env: Env): seq<Event> {
    TRANSFER + [RenameAway(true, true), WriteGo(true, true), ReceiverReads]
    + if env.target.None? then [] else [RenameIncoming(true, true)]
  }

  /** The name of the sender's domain behind it. */
  function AwayName(env: Env): Option<string> {
    if env.known.None? then env.held else Some(env.known.value + "--migratedaway")
  }

  /** Report and status from one end to the other. */
  const TELL: seq<Event> := [ReceiverWrites(true, true), ReceiverWrites(true, true), SenderReads, SenderReads]

  /** A receiver that has failed gives the guest back. */
  const RETURN: seq<Event> := TELL + [DestroyReceiver(true, true), ReceiverWrites(true, true), SenderReads, RenameBack(true), Resume(true)]

  /** One event more. */
  lemma Extended(env: Env, events: seq<Event>, s: State, e: Event) returns (all: seq<Event>, t: State)
    requires Run(env, Init(env), events) == Some(s) && Step(env, s, e).Some?
    ensures all == events + [e] && Step(env, s, e) == Some(t) && Run(env, Init(env), all) == Some(t)
  {
    hide Step, Run;
    RunAppends(env, Init(env), events, e);
    all, t := events + [e], Step(env, s, e).value;
  }

  /** The transfer: the receiver has the guest, under the name for domains that are being received. */
  lemma Transferred(env: Env) returns (events: seq<Event>, s: State)
    ensures events == TRANSFER
    ensures Run(env, Init(env), events) == Some(s)
    ensures s == State(RenamingAway, Stopped, env.held,
                       AwaitGo, Stopped, if env.target.None? then None else Some(env.target.value + "--incoming"),
                       [], [], false, false, false, false, false)
  {
    hide Run;
    RunOfNone(env);
    events, s := [], Init(env);
    events, s := Extended(env, events, s, ReceiverWrites(true, true));
    events, s := Extended(env, events, s, SenderReads);
    events, s := Extended(env, events, s, Suspend(SuspendOk));
    events, s := Extended(env, events, s, Create(true));
    events, s := Extended(env, events, s, ReceiverWrites(true, true));
    events, s := Extended(env, events, s, SenderReads);
  }

  lemma RunOfNone(env: Env)
    ensures Run(env, Init(env), []) == Some(Init(env))
  {
  }

  /** The receiver has read the permission. */
  lemma Went(env: Env) returns (events: seq<Event>, s: State)
    requires Renames(env)
    ensures events == TRANSFER + [RenameAway(true, true), WriteGo(true, true), ReceiverReads]
    ensures Run(env, Init(env), events) == Some(s)
    ensures s == State(AwaitReport, Stopped, AwayName(env),
                       if env.target.None? then Unpausing else Renaming, Stopped,
                       if env.target.None? then None else Some(env.target.value + "--incoming"),
                       [], [], false, false, true, false, false)
  {
    hide Run;
    events, s := Transferred(env);
    events, s := Extended(env, events, s, RenameAway(true, true));
    events, s := Extended(env, events, s, WriteGo(true, true));
    assert s.down == [Permission];
    events, s := Extended(env, events, s, ReceiverReads);
  }

  /** The handshake: the sender's domain has the name for domains that were given away, and the receiver may start its own,
      under its name there. */
  lemma Allowed(env: Env) returns (events: seq<Event>, s: State)
    requires Renames(env)
    ensures events == Handshake(env)
    ensures Run(env, Init(env), events) == Some(s)
    ensures s == State(AwaitReport, Stopped, AwayName(env), Unpausing, Stopped, env.target,
                       [], [], false, false, true, false, false)
  {
    hide Run;
    events, s := Went(env);
    if env.target.Some? { events, s := Extended(env, events, s, RenameIncoming(true, true)); }
  }

  /** It is started there, says so, and the sender destroys its own. */
  lemma Success(env: Env) returns (events: seq<Event>, s: State)
    requires Renames(env)
    ensures events == Handshake(env)
      + [Unpause(true, true), ReceiverWrites(true, true), ReceiverWrites(true, true), SenderReads, SenderReads, DestroySender(true)]
    ensures Run(env, Init(env), events) == Some(s)
    ensures s == State(Succeeded, Absent, None, ReceiverExited, Running, env.target, [], [], true, true, true, true, false)
  {
    hide Run;
    events, s := Allowed(env);
    events, s := Extended(env, events, s, Unpause(true, true));
    events, s := Extended(env, events, s, ReceiverWrites(true, true));
    events, s := Extended(env, events, s, ReceiverWrites(true, true));
    events, s := Extended(env, events, s, SenderReads);
    events, s := Extended(env, events, s, SenderReads);
    events, s := Extended(env, events, s, DestroySender(true));
  }

  /** A receiver that has failed says so. */
  lemma FailureTold(env: Env, events0: seq<Event>, s0: State) returns (events: seq<Event>, s: State)
    requires Run(env, Init(env), events0) == Some(s0) && s0.sender == AwaitReport && s0.receiver == WritingReport(true) && s0.up == [] && !s0.upCut
    ensures events == events0 + TELL
    ensures Run(env, Init(env), events) == Some(s) && s == s0.(sender := AwaitPermission, receiver := DestroyingOurs)
  {
    hide Run;
    events, s := Extended(env, events0, s0, ReceiverWrites(true, true));
    events, s := Extended(env, events, s, ReceiverWrites(true, true));
    assert s.up == [Report, Status(true)] && s.up[1..] == [Status(true)];
    events, s := Extended(env, events, s, SenderReads);
    events, s := Extended(env, events, s, SenderReads);
  }

  /** It destroys its copy and grants the guest back. */
  lemma Granted(env: Env, events0: seq<Event>, s0: State) returns (events: seq<Event>, s: State)
    requires Run(env, Init(env), events0) == Some(s0) && s0.sender == AwaitPermission && s0.receiver == DestroyingOurs && s0.up == [] && !s0.upCut
    ensures events == events0 + [DestroyReceiver(true, true), ReceiverWrites(true, true), SenderReads]
    ensures Run(env, Init(env), events) == Some(s)
    ensures s == s0.(sender := RenamingBack, receiver := ReceiverExited, rCopy := Absent, rName := None, upCut := true, cleaned := true)
  {
    hide Run;
    events, s := Extended(env, events0, s0, DestroyReceiver(true, true));
    events, s := Extended(env, events, s, ReceiverWrites(true, true));
    assert s.up == [Permission];
    events, s := Extended(env, events, s, SenderReads);
  }

  /** And the sender takes back the name and resumes the guest. */
  lemma GivenBack(env: Env, events0: seq<Event>, s0: State) returns (events: seq<Event>, s: State)
    requires Renames(env) && Run(env, Init(env), events0) == Some(s0)
    requires s0.sender == AwaitReport && s0.sCopy == Stopped && s0.sName == AwayName(env)
    requires s0.receiver == WritingReport(true) && s0.up == [] && !s0.upCut
    ensures events == events0 + RETURN
    ensures Run(env, Init(env), events) == Some(s)
    ensures s == s0.(sender := HandedBack, sCopy := Running, sName := env.held, receiver := ReceiverExited, rCopy := Absent, rName := None,
                     downCut := true, upCut := true, cleaned := true)
  {
    hide Run;
    events, s := FailureTold(env, events0, s0);
    events, s := Granted(env, events, s);
    events, s := Extended(env, events, s, RenameBack(true));
    events, s := Extended(env, events, s, Resume(true));
  }

  /** The guest could not be started. */
  lemma UnpauseFails(env: Env) returns (events: seq<Event>, s: State)
    requires Renames(env)
    ensures events == Handshake(env) + [Unpause(false, false)] + RETURN
    ensures Run(env, Init(env), events) == Some(s)
    ensures s == State(HandedBack, Running, env.held, ReceiverExited, Absent, None, [], [], true, true, true, false, true)
  {
    hide Run;
    events, s := Allowed(env);
    events, s := Extended(env, events, s, Unpause(false, false));
    events, s := GivenBack(env, events, s);
  }

  /** The permission was lost on the way, and the receiver could not read it. */
  lemma GoIsLost(env: Env) returns (events: seq<Event>, s: State)
    requires Renames(env)
    ensures events == TRANSFER + [RenameAway(true, true), WriteGo(true, true), CutDown(0), ReceiverReadFails] + RETURN
    ensures Run(env, Init(env), events) == Some(s)
    ensures s == State(HandedBack, Running, env.held, ReceiverExited, Absent, None, [], [], true, true, true, false, true)
  {
    hide Run;
    events, s := Transferred(env);
    events, s := Extended(env, events, s, RenameAway(true, true));
    events, s := Extended(env, events, s, WriteGo(true, true));
    events, s := Extended(env, events, s, CutDown(0));
    events, s := Extended(env, events, s, ReceiverReadFails);
    events, s := GivenBack(env, events, s);
  }

  /** The receiver could not take its name. */
  lemma RenameFails(env: Env) returns (events: seq<Event>, s: State)
    requires Renames(env) && env.target.Some?
    ensures events == TRANSFER + [RenameAway(true, true), WriteGo(true, true), ReceiverReads, RenameIncoming(false, false)] + RETURN
    ensures Run(env, Init(env), events) == Some(s)
    ensures s == State(HandedBack, Running, env.held, ReceiverExited, Absent, None, [], [], true, true, true, false, true)
  {
    hide Run;
    events, s := Went(env);
    events, s := Extended(env, events, s, RenameIncoming(false, false));
    events, s := GivenBack(env, events, s);
  }

  /** The receiver's rename is reported as failed and has been done all the same. */
  lemma IncomingAllTheSame(env: Env) returns (events: seq<Event>, s: State)
    requires Renames(env) && env.target.Some?
    ensures events == TRANSFER + [RenameAway(true, true), WriteGo(true, true), ReceiverReads, RenameIncoming(false, true)]
    ensures Run(env, Init(env), events) == Some(s)
    ensures s == State(AwaitReport, Stopped, AwayName(env), WritingReport(true), Stopped, env.target, [], [], false, false, true, false, false)
  {
    hide Run;
    events, s := Went(env);
    events, s := Extended(env, events, s, RenameIncoming(false, true));
  }

  /** The rename back fails: that is not looked at, and the guest is resumed under the other name. */
  lemma ResumedAway(env: Env) returns (events: seq<Event>, s: State)
    requires Renames(env)
    ensures events == Handshake(env) + [Unpause(false, false)] + TELL
      + [DestroyReceiver(true, true), ReceiverWrites(true, true), SenderReads, RenameBack(false), Resume(true)]
    ensures Run(env, Init(env), events) == Some(s)
    ensures s == State(HandedBack, Running, AwayName(env), ReceiverExited, Absent, None, [], [], true, true, true, false, true)
  {
    hide Run;
    events, s := Allowed(env);
    events, s := Extended(env, events, s, Unpause(false, false));
    events, s := FailureTold(env, events, s);
    events, s := Granted(env, events, s);
    events, s := Extended(env, events, s, RenameBack(false));
    events, s := Extended(env, events, s, Resume(true));
  }

  /** The sender's destroy has no effect: it ends in the same way, with its stopped copy left. */
  lemma LeftBehind(env: Env) returns (events: seq<Event>, s: State)
    requires Renames(env)
    ensures events == Handshake(env)
      + [Unpause(true, true), ReceiverWrites(true, true), ReceiverWrites(true, true), SenderReads, SenderReads, DestroySender(false)]
    ensures Run(env, Init(env), events) == Some(s)
    ensures s == State(Succeeded, Stopped, AwayName(env), ReceiverExited, Running, env.target, [], [], true, true, true, true, false)
  {
    hide Run;
    events, s := Allowed(env);
    events, s := Extended(env, events, s, Unpause(true, true));
    events, s := Extended(env, events, s, ReceiverWrites(true, true));
    events, s := Extended(env, events, s, ReceiverWrites(true, true));
    events, s := Extended(env, events, s, SenderReads);
    events, s := Extended(env, events, s, SenderReads);
    events, s := Extended(env, events, s, DestroySender(false));
  }

  // ----- failures before the permission -----

  /** Whatever goes wrong before the sender has tried to say "go": it never reaches failed_badly, and where it has failed to hand the guest over
      it resumes it, except where the suspension timed out. */
  lemma BadlyOnlyAfterGo(env: Env, s: State)
    requires Reachable(env, s)
    ensures s.sender == FailedBadly ==> s.goTried
    ensures s.sender == FailedResume || s.sender == Resumed ==> !s.goTried
    ensures s.sender == NotStarted || s.sender == SuspendFailed ==> !s.goTried && s.sCopy == Running && s.rCopy != Running
  {
    ReachableInv(env, s);
  }

  /** The receiver does not answer, or its banner is not read. */
  lemma NoBanner(env: Env) returns (events: seq<Event>, s: State)
    ensures events == [ReceiverDies, SenderReadFails]
    ensures Run(env, Init(env), events) == Some(s)
    ensures s == State(NotStarted, Running, env.held, ReceiverExited, Absent, None, [], [], true, true, false, false, false)
  {
    hide Run;
    RunOfNone(env);
    events, s := [], Init(env);
    events, s := Extended(env, events, s, ReceiverDies);
    events, s := Extended(env, events, s, SenderReadFails);
  }

  /** The guest does not stop in time, and goes on. */
  lemma SuspendTooLate(env: Env) returns (events: seq<Event>, s: State)
    ensures events == [ReceiverWrites(true, true), SenderReads, Suspend(SuspendTimedOut)]
    ensures Run(env, Init(env), events) == Some(s)
    ensures s == State(SuspendFailed, Running, env.held, Creating, Absent, None, [], [], true, false, false, false, false)
  {
    hide Run;
    RunOfNone(env);
    events, s := [], Init(env);
    events, s := Extended(env, events, s, ReceiverWrites(true, true));
    events, s := Extended(env, events, s, SenderReads);
    events, s := Extended(env, events, s, Suspend(SuspendTimedOut));
  }

  /** Suspending fails otherwise, with the guest stopped: it is resumed. */
  lemma SuspendBreaks(env: Env) returns (events: seq<Event>, s: State)
    ensures events == [ReceiverWrites(true, true), SenderReads, Suspend(SuspendError(true)), Resume(true)]
    ensures Run(env, Init(env), events) == Some(s)
    ensures s == State(Resumed, Running, env.held, Creating, Absent, None, [Image], [], true, false, false, false, false)
  {
    hide Run;
    RunOfNone(env);
    events, s := [], Init(env);
    events, s := Extended(env, events, s, ReceiverWrites(true, true));
    events, s := Extended(env, events, s, SenderReads);
    events, s := Extended(env, events, s, Suspend(SuspendError(true)));
    events, s := Extended(env, events, s, Resume(true));
  }

  /** And where the resume has no effect, it stays as the suspension has left it. */
  lemma SuspendBreaksForGood(env: Env, stopped: bool) returns (events: seq<Event>, s: State)
    ensures events == [ReceiverWrites(true, true), SenderReads, Suspend(SuspendError(stopped)), Resume(false)]
    ensures Run(env, Init(env), events) == Some(s)
    ensures s == State(Resumed, if stopped then Stopped else Running, env.held, Creating, Absent, None,
                       if stopped then [Image] else [], [], true, false, false, false, false)
  {
    hide Run;
    RunOfNone(env);
    events, s := [], Init(env);
    events, s := Extended(env, events, s, ReceiverWrites(true, true));
    events, s := Extended(env, events, s, SenderReads);
    events, s := Extended(env, events, s, Suspend(SuspendError(stopped)));
    events, s := Extended(env, events, s, Resume(false));
  }

  /** The receiver cannot create the domain: the sender does not get its answer, and resumes the guest. */
  lemma CreateFails(env: Env) returns (events0: seq<Event>, s0: State, events: seq<Event>, s: State)
    ensures events0 == [ReceiverWrites(true, true), SenderReads, Suspend(SuspendOk), Create(false), SenderReadFails]
    ensures events == events0 + [Resume(true)]
    ensures Run(env, Init(env), events0) == Some(s0) && Run(env, Init(env), events) == Some(s)
    ensures s0 == State(FailedResume, Stopped, env.held, ReceiverExited, Absent, None, [Image], [], false, true, false, false, false)
    ensures s == State(Resumed, Running, env.held, ReceiverExited, Absent, None, [Image], [], true, true, false, false, false)
  {
    hide Run;
    RunOfNone(env);
    events, s := [], Init(env);
    events, s := Extended(env, events, s, ReceiverWrites(true, true));
    events, s := Extended(env, events, s, SenderReads);
    events, s := Extended(env, events, s, Suspend(SuspendOk));
    events, s := Extended(env, events, s, Create(false));
    events0, s0 := Extended(env, events, s, SenderReadFails);
    events, s := Extended(env, events0, s0, Resume(true));
  }

  /** The rename is reported as failed and has been done all the same: the domain is resumed under the other name. */
  lemma RenamedAllTheSame(env: Env) returns (events: seq<Event>, s: State)
    requires env.known.Some? && env.known == env.held
    ensures events == TRANSFER + [RenameAway(false, true), Resume(true)]
    ensures Run(env, Init(env), events) == Some(s)
    ensures s == State(Resumed, Running, Some(env.held.value + "--migratedaway"),
                       AwaitGo, Stopped, if env.target.None? then None else Some(env.target.value + "--incoming"),
                       [], [], true, false, false, false, false)
  {
    hide Run;
    events, s := Transferred(env);
    events, s := Extended(env, events, s, RenameAway(false, true));
    events, s := Extended(env, events, s, Resume(true));
  }

  /** The sender cannot rename its domain: it resumes it. */
  lemma RenameAwayFails(env: Env) returns (events: seq<Event>, s: State)
    requires env.known.Some?
    ensures events == TRANSFER + [RenameAway(false, false), Resume(true)]
    ensures Run(env, Init(env), events) == Some(s)
    ensures s == State(Resumed, Running, env.held,
                       AwaitGo, Stopped, if env.target.None? then None else Some(env.target.value + "--incoming"),
                       [], [], true, false, false, false, false)
  {
    hide Run;
    events, s := Transferred(env);
    events, s := Extended(env, events, s, RenameAway(false, false));
    events, s := Extended(env, events, s, Resume(true));
  }

  // ----- failures after it -----

  /** The write of the permission fails, though the permission may arrive. */
  lemma GoNotWritten(env: Env, delivered: bool) returns (events: seq<Event>, s: State)
    requires Renames(env)
    ensures events == TRANSFER + [RenameAway(true, true), WriteGo(false, delivered)]
    ensures Run(env, Init(env), events) == Some(s)
    ensures s == State(FailedBadly, Stopped, AwayName(env),
                       AwaitGo, Stopped, if env.target.None? then None else Some(env.target.value + "--incoming"),
                       if delivered then [Permission] else [], [], true, false, true, false, false)
  {
    hide Run;
    events, s := Transferred(env);
    events, s := Extended(env, events, s, RenameAway(true, true));
    events, s := Extended(env, events, s, WriteGo(false, delivered));
  }

  /** The report is not read. */
  lemma ReportNotRead(env: Env) returns (events: seq<Event>, s: State)
    requires Renames(env)
    ensures events == TRANSFER + [RenameAway(true, true), WriteGo(true, true), SenderReadFails]
    ensures Run(env, Init(env), events) == Some(s)
    ensures s == State(FailedBadly, Stopped, AwayName(env),
                       AwaitGo, Stopped, if env.target.None? then None else Some(env.target.value + "--incoming"),
                       [Permission], [], true, false, true, false, false)
  {
    hide Run;
    events, s := Transferred(env);
    events, s := Extended(env, events, s, RenameAway(true, true));
    events, s := Extended(env, events, s, WriteGo(true, true));
    events, s := Extended(env, events, s, SenderReadFails);
  }

  /** The status is not read, though the guest runs at the receiver. */
  lemma StatusNotRead(env: Env) returns (events: seq<Event>, s: State)
    requires Renames(env)
    ensures events == Handshake(env) + [Unpause(true, true), ReceiverWrites(true, true), SenderReads, ReceiverWrites(false, false), SenderReadFails]
    ensures Run(env, Init(env), events) == Some(s)
    ensures s == State(FailedBadly, Stopped, AwayName(env), ReceiverExited, Running, env.target, [], [], true, true, true, true, false)
  {
    hide Run;
    events, s := Allowed(env);
    events, s := Extended(env, events, s, Unpause(true, true));
    events, s := Extended(env, events, s, ReceiverWrites(true, true));
    events, s := Extended(env, events, s, SenderReads);
    events, s := Extended(env, events, s, ReceiverWrites(false, false));
    events, s := Extended(env, events, s, SenderReadFails);
  }

  /** The receiver cannot destroy its copy, and gives no permission. */
  lemma DestroyFails(env: Env) returns (events: seq<Event>, s: State)
    requires Renames(env)
    ensures events == Handshake(env) + [Unpause(false, false)] + TELL + [DestroyReceiver(false, false), SenderReadFails]
    ensures Run(env, Init(env), events) == Some(s)
    ensures s == State(FailedBadly, Stopped, AwayName(env), ReceiverExited, Stopped, env.target, [], [], true, true, true, false, false)
  {
    hide Run;
    events, s := Allowed(env);
    events, s := Extended(env, events, s, Unpause(false, false));
    events, s := FailureTold(env, events, s);
    events, s := Extended(env, events, s, DestroyReceiver(false, false));
    events, s := Extended(env, events, s, SenderReadFails);
  }

  // ----- writes of the receiver that fail -----

  /** The banner is not written, though it may arrive: the receiver exits. */
  lemma BannerNotWritten(env: Env, delivered: bool) returns (events: seq<Event>, s: State)
    ensures events == [ReceiverWrites(false, delivered)] && Run(env, Init(env), events) == Some(s)
    ensures s == State(AwaitBanner, Running, env.held, ReceiverExited, Absent, None, [], if delivered then [Banner] else [],
                       false, true, false, false, false)
  {
    hide Run;
    RunOfNone(env);
    events, s := Extended(env, [], Init(env), ReceiverWrites(false, delivered));
  }

  /** The same with the message that it is ready. */
  lemma ReadyNotWritten(env: Env, delivered: bool) returns (events: seq<Event>, s: State)
    ensures events == [ReceiverWrites(true, true), SenderReads, Suspend(SuspendOk), Create(true), ReceiverWrites(false, delivered)]
    ensures Run(env, Init(env), events) == Some(s)
    ensures s == State(AwaitReady, Stopped, env.held,
                       ReceiverExited, Stopped, if env.target.None? then None else Some(env.target.value + "--incoming"),
                       [], if delivered then [Ready] else [], false, true, false, false, false)
  {
    hide Run;
    RunOfNone(env);
    events, s := [], Init(env);
    events, s := Extended(env, events, s, ReceiverWrites(true, true));
    events, s := Extended(env, events, s, SenderReads);
    events, s := Extended(env, events, s, Suspend(SuspendOk));
    events, s := Extended(env, events, s, Create(true));
    events, s := Extended(env, events, s, ReceiverWrites(false, delivered));
  }

  /** With the report, whatever has become of the guest. */
  lemma ReportNotWritten(env: Env, started: bool, delivered: bool) returns (events: seq<Event>, s: State)
    requires Renames(env)
    ensures events == Handshake(env) + [Unpause(started, started), ReceiverWrites(false, delivered)]
    ensures Run(env, Init(env), events) == Some(s)
    ensures s == State(AwaitReport, Stopped, AwayName(env), ReceiverExited, if started then Running else Stopped, env.target,
                       [], if delivered then [Report] else [], false, true, true, started, false)
  {
    hide Run;
    events, s := Allowed(env);
    events, s := Extended(env, events, s, Unpause(started, started));
    events, s := Extended(env, events, s, ReceiverWrites(false, delivered));
  }

  /** With the status: a copy that was not started is not destroyed. */
  lemma StatusNotWritten(env: Env, started: bool, delivered: bool) returns (events: seq<Event>, s: State)
    requires Renames(env)
    ensures events == Handshake(env) + [Unpause(started, started), ReceiverWrites(true, true), ReceiverWrites(false, delivered)]
    ensures Run(env, Init(env), events) == Some(s)
    ensures s == State(AwaitReport, Stopped, AwayName(env), ReceiverExited, if started then Running else Stopped, env.target,
                       [], if delivered then [Report, Status(!started)] else [Report], false, true, true, started, false)
  {
    hide Run;
    events, s := Allowed(env);
    events, s := Extended(env, events, s, Unpause(started, started));
    events, s := Extended(env, events, s, ReceiverWrites(true, true));
    events, s := Extended(env, events, s, ReceiverWrites(false, delivered));
  }

  /** With the permission: its copy is gone, and the sender waits. */
  lemma GrantNotWritten(env: Env, delivered: bool) returns (events: seq<Event>, s: State)
    requires Renames(env)
    ensures events == Handshake(env) + [Unpause(false, false)] + TELL + [DestroyReceiver(true, true), ReceiverWrites(false, delivered)]
    ensures Run(env, Init(env), events) == Some(s)
    ensures s == State(AwaitPermission, Stopped, AwayName(env), ReceiverExited, Absent, None,
                       [], if delivered then [Permission] else [], false, true, true, false, true)
  {
    hide Run;
    events, s := Allowed(env);
    events, s := Extended(env, events, s, Unpause(false, false));
    events, s := FailureTold(env, events, s);
    events, s := Extended(env, events, s, DestroyReceiver(true, true));
    events, s := Extended(env, events, s, ReceiverWrites(false, delivered));
  }

  /** An end that dies closes its stream, and does nothing more; a stream that breaks keeps what has arrived. */
  lemma Breaks(env: Env, s: State, n: nat)
    requires !Ended(s.sender)
    ensures Step(env, s, SenderDies) == Some(s.(sender := SenderDied, downCut := true))
    ensures Step(env, s, ReceiverDies) == Some(s.(receiver := ReceiverExited, upCut := true))
    ensures n <= |s.down| ==> Step(env, s, CutDown(n)) == Some(s.(down := s.down[..n], downCut := true))
    ensures n <= |s.up| ==> Step(env, s, CutUp(n)) == Some(s.(up := s.up[..n], upCut := true))
  {
  }

  /** Nothing arrives on a broken stream any more, and it stays broken. */
  predicate NothingArrives(cut: bool, queue: seq<Message>, cut': bool, queue': seq<Message>) {
    cut ==> cut' && (queue' == queue || queue' <= queue || (queue != [] && queue' == queue[1..]))
  }

  lemma BrokenStays(env: Env, s: State, e: Event)
    requires Step(env, s, e).Some?
    ensures var t := Step(env, s, e).value;
      NothingArrives(s.downCut, s.down, t.downCut, t.down) && NothingArrives(s.upCut, s.up, t.upCut, t.up)
  {
    hide Put;
    BrokenPut();
    match e
    case ReceiverWrites(ok, delivered) => BrokenWrite(s, ok, delivered);
    case SenderReads => BrokenRead(s);
    case CutDown(n) =>
    case CutUp(n) =>
    case _ => BrokenElse(env, s, e);
  }

  lemma BrokenPut()
    ensures forall queue, m, ok, delivered :: Put(queue, true, m, ok, delivered) == queue
  {
  }

  lemma BrokenWrite(s: State, ok: bool, delivered: bool)
    requires ReceiverWriteStep(s, ok, delivered).Some?
    requires forall queue, m, ok, delivered :: Put(queue, true, m, ok, delivered) == queue
    ensures var t := ReceiverWriteStep(s, ok, delivered).value; t.down == s.down && t.downCut == s.downCut && (s.upCut ==> t.upCut && t.up == s.up)
  {
    hide Put;
    match s.receiver
    case WritingBanner =>
    case WritingReady =>
    case WritingReport(failed) =>
    case WritingStatus(failed) =>
    case Granting =>
  }

  lemma BrokenRead(s: State)
    requires SenderReadStep(s).Some?
    ensures var t := SenderReadStep(s).value;
      t.down == s.down && t.downCut == s.downCut && NothingArrives(s.upCut, s.up, t.upCut, t.up)
  {
  }

  lemma BrokenElse(env: Env, s: State, e: Event)
    requires Step(env, s, e).Some? && !e.ReceiverWrites? && !e.SenderReads? && !e.CutDown? && !e.CutUp?
    requires forall queue, m, ok, delivered :: Put(queue, true, m, ok, delivered) == queue
    ensures var t := Step(env, s, e).value;
      && (s.downCut ==> t.downCut && (t.down == s.down || (s.down != [] && t.down == s.down[1..])))
      && t.up == s.up && (s.upCut ==> t.upCut)
  {
    hide Put, Renamed, Step;
    if e.Suspend? || e.WriteGo? || e.SenderReadFails? || e.Resume? || e.DestroySender? {
      BrokenSend(env, s, e);
    } else {
      BrokenReceive(env, s, e);
    }
  }

  lemma BrokenSend(env: Env, s: State, e: Event)
    requires Step(env, s, e).Some? && (e.Suspend? || e.WriteGo? || e.SenderReadFails? || e.Resume? || e.DestroySender?)
    requires forall queue, m, ok, delivered :: Put(queue, true, m, ok, delivered) == queue
    ensures var t := Step(env, s, e).value; (s.downCut ==> t.downCut && t.down == s.down) && t.up == s.up && (s.upCut ==> t.upCut)
  {
    hide Put, Renamed;
  }

  lemma BrokenReceive(env: Env, s: State, e: Event)
    requires Step(env, s, e).Some?
    requires e.SenderDies? || e.ReceiverDies? || e.RenameAway? || e.RenameBack? || e.Create? || e.ReceiverReads? || e.ReceiverReadFails?
          || e.RenameIncoming? || e.Unpause? || e.DestroyReceiver?
    ensures var t := Step(env, s, e).value;
      && (s.downCut ==> t.downCut && (t.down == s.down || (s.down != [] && t.down == s.down[1..])))
      && t.up == s.up && (s.upCut ==> t.upCut)
  {
    hide Put, Renamed;
  }

  // ----- the sender's destroy -----

  /** Once the sender's destroy has worked it has neither guest nor name, whatever happens then. */
  lemma DestroyedStays(env: Env, before: seq<Event>, after: seq<Event>)
    requires Run(env, Init(env), before + ([DestroySender(true)] + after)).Some?
    ensures var s := Run(env, Init(env), before + ([DestroySender(true)] + after)).value;
      s.sender == Succeeded && s.sCopy == Absent && s.sName == None
  {
    hide Step;
    FrontRuns(env, Init(env), before, [DestroySender(true)] + after);
    var s := Run(env, Init(env), before).value;
    assert ([DestroySender(true)] + after)[1..] == after;
    Destroyed(env, s);
    GoneStays(env, Step(env, s, DestroySender(true)).value, after);
  }

  lemma Destroyed(env: Env, s: State)
    requires Step(env, s, DestroySender(true)).Some?
    ensures var t := Step(env, s, DestroySender(true)).value; t.sender == Succeeded && t.sCopy == Absent && t.sName == None
  {
  }

  lemma {:induction false} GoneStays(env: Env, s: State, events: seq<Event>)
    requires s.sender == Succeeded && Run(env, s, events).Some?
    ensures var t := Run(env, s, events).value; t.sender == Succeeded && t.sCopy == s.sCopy && t.sName == s.sName
    decreases |events|
  {
    hide Step;
    if events != [] {
      SucceededStep(env, s, events[0]);
      GoneStays(env, Step(env, s, events[0]).value, events[1..]);
    }
  }

  lemma SucceededStep(env: Env, s: State, e: Event)
    requires s.sender == Succeeded && Step(env, s, e).Some?
    ensures var t := Step(env, s, e).value; t.sender == Succeeded && t.sCopy == s.sCopy && t.sName == s.sName
  {
    match e
    case Create(ok) => StepsLeaveSender(env, s, e);
    case ReceiverReads => StepsLeaveSender(env, s, e);
    case ReceiverReadFails => StepsLeaveSender(env, s, e);
    case RenameIncoming(_, _) => StepsLeaveSender(env, s, e);
    case Unpause(_, _) => StepsLeaveSender(env, s, e);
    case ReceiverWrites(ok, delivered) => WritesLeaveSender(s, ok, delivered);
    case DestroyReceiver(_, _) => StepsLeaveSender(env, s, e);
    case _ =>
  }

  /** What the receiver does changes nothing at the sender. */
  lemma StepsLeaveSender(env: Env, s: State, e: Event)
    requires e.Create? || e.ReceiverReads? || e.ReceiverReadFails? || e.RenameIncoming? || e.Unpause? || e.DestroyReceiver?
    requires Step(env, s, e).Some?
    ensures var t := Step(env, s, e).value; t.sender == s.sender && t.sCopy == s.sCopy && t.sName == s.sName && t.goTried == s.goTried
  {
  }

  lemma WritesLeaveSender(s: State, ok: bool, delivered: bool)
    requires ReceiverWriteStep(s, ok, delivered).Some?
    ensures var t := ReceiverWriteStep(s, ok, delivered).value;
      t.sender == s.sender && t.sCopy == s.sCopy && t.sName == s.sName && t.goTried == s.goTried
  {
    hide Put;
  }
}
