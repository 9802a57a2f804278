/** migrate_domain and migrate_receive of xl_cmdimpl.c: two processes on two hosts, joined by two byte
    streams that may break at any point. A run is a list of events; an event that the code does not
    allow in a state has no successor. */
module Migration {

  import opened Wrappers

  /** What one end writes with a single call. The permission string serves in both directions. */
  datatype Message = Banner | Image | Ready | Permission | Report | Status(failed: bool)

  /** A copy of the guest on one host. */
  datatype Copy = Absent | Stopped | Running

  datatype SenderPc =
    | AwaitBanner | Suspending | AwaitReady | RenamingAway | SendingGo
    | AwaitReport | AwaitStatus | AwaitPermission | RenamingBack | ResumingBack | Destroying
    | FailedResume
    | NotStarted | SuspendFailed | Resumed | HandedBack | Succeeded  // exits
    | FailedBadly | SenderDied

  datatype ReceiverPc =
    | WritingBanner | Creating | WritingReady | AwaitGo | Renaming | Unpausing
    | WritingReport(failed: bool) | WritingStatus(failed: bool) | DestroyingOurs | Granting
    | ReceiverExited

  /** The host libraries: whether a destroy that returns 0 has always removed the domain, and whether an unpause
      that reports failure has always left it stopped. The names: what the sender's domain is called, what the sender
      takes it to be called (common_domname), and what the receiver is to call it, from the configuration. */
  datatype Env = Env(destroyWorks: bool, failedUnpauseInert: bool,
                     held: Option<string>, known: Option<string>, target: Option<string>)

  /** The name of a domain that is being given away. */
  function Away(name: string): string { name + "--migratedaway" }

  /** The name of a domain that is being received. */
  function Incoming(name: string): string { name + "--incoming" }

  lemma NamesDiffer(a: string, b: string)
    ensures Away(a) != a && Incoming(a) != a && Away(a) != Incoming(b)
  {
    assert Away(a)[|Away(a)| - 1] == 'y' && Incoming(b)[|Incoming(b)| - 1] == 'g';
  }

  /** libxl_domain_rename: nothing happens to a domain of another name. */
  function Renamed(name: Option<string>, from: string, to: string, done: bool): Option<string> {
    if done && name == Some(from) then Some(to) else name
  }

  datatype State = State(
    sender: SenderPc, sCopy: Copy, sName: Option<string>,
    receiver: ReceiverPc, rCopy: Copy, rName: Option<string>,
    down: seq<Message>, up: seq<Message>, downCut: bool, upCut: bool,
    goTried: bool, unpaused: bool, cleaned: bool)

  function Init(env: Env): State {
    State(AwaitBanner, Running, env.held, WritingBanner, Absent, None, [], [], false, false, false, false, false)
  }

  datatype Suspension = SuspendOk | SuspendTimedOut | SuspendError(stopped: bool)

  /** What a call reports and what it has done are two things. An end that dies inside a call is that call, as far as
      it got, and then the death. */
  datatype Event =
    | CutDown(n: nat) | CutUp(n: nat)                       // a stream breaks behind its first n messages
    | SenderDies | ReceiverDies
    | SenderReads | SenderReadFails                         // libxl_read_exactly and the comparison
    | Suspend(outcome: Suspension)
    | RenameAway(ok: bool, done: bool) | WriteGo(ok: bool, delivered: bool)
    | RenameBack(done: bool) | Resume(effective: bool) | DestroySender(effective: bool)
    | Create(ok: bool)
    | ReceiverReads | ReceiverReadFails
    | RenameIncoming(ok: bool, done: bool) | Unpause(ok: bool, starts: bool)
    | ReceiverWrites(ok: bool, delivered: bool)
    | DestroyReceiver(ok: bool, gone: bool)

  /** The sender has exited, and not through failed_badly. */
  predicate Ended(pc: SenderPc) {
    (pc.NotStarted? || pc.SuspendFailed? || pc.Resumed? || pc.HandedBack? || pc.Succeeded?)
  }

  // ----- streams -----

  /** A write: a call that succeeds on an unbroken stream has delivered its message; after a break nothing
      more arrives; a call that fails may still have delivered. */
  function Put(queue: seq<Message>, cut: bool, m: Message, ok: bool, delivered: bool): seq<Message> {
    if !cut && (ok || delivered) then queue + [m] else queue
  }

  predicate NextIs(queue: seq<Message>, m: Message) {
    queue != [] && queue[0] == m
  }

  // ----- the sender -----

  function SenderReadStep(s: State): Option<State> {
    match s.sender
    case AwaitBanner =>
      if NextIs(s.up, Banner) then Some(s.(sender := Suspending, up := s.up[1..])) else None
    case AwaitReady =>
      if NextIs(s.up, Ready) then Some(s.(sender := RenamingAway, up := s.up[1..])) else None
    case AwaitReport =>
      if NextIs(s.up, Report) then Some(s.(sender := AwaitStatus, up := s.up[1..])) else None
    case AwaitStatus =>
      if s.up != [] && s.up[0].Status? then
        Some(s.(sender := if s.up[0].failed then AwaitPermission else Destroying, up := s.up[1..]))
      else None
    case AwaitPermission =>
      if NextIs(s.up, Permission) then Some(s.(sender := RenamingBack, up := s.up[1..])) else None
    case _ => None
  }

  function SenderReadFailStep(s: State): Option<State> {
    match s.sender
    case AwaitBanner => Some(s.(sender := NotStarted, downCut := true))
    case AwaitReady => Some(s.(sender := FailedResume))
    case AwaitReport => Some(s.(sender := FailedBadly, downCut := true))
    case AwaitStatus => Some(s.(sender := FailedBadly, downCut := true))
    case AwaitPermission => Some(s.(sender := FailedBadly, downCut := true))
    case _ => None
  }

  function SuspendStep(s: State, outcome: Suspension): Option<State> {
    if s.sender != Suspending then None
    else
      match outcome
      case SuspendOk => Some(s.(sender := AwaitReady, sCopy := Stopped, down := Put(s.down, s.downCut, Image, true, true)))
      case SuspendTimedOut => Some(s.(sender := SuspendFailed, downCut := true))
      case SuspendError(stopped) =>
        // the image may have been written completely before the error
        Some(s.(sender := FailedResume, sCopy := if stopped then Stopped else Running,
                down := Put(s.down, s.downCut, Image, false, stopped)))
  }

  function RenameAwayStep(env: Env, s: State, ok: bool, done: bool): Option<State> {
    if s.sender != RenamingAway then None
    else if env.known.None? then Some(s.(sender := SendingGo))
    else if ok && s.sName != env.known then None
    else
      Some(s.(sender := if ok then SendingGo else FailedResume,
              sName := Renamed(s.sName, env.known.value, Away(env.known.value), ok || done)))
  }

  function WriteGoStep(s: State, ok: bool, delivered: bool): Option<State> {
    if s.sender != SendingGo then None
    else Some(s.(sender := if ok then AwaitReport else FailedBadly, goTried := true,
                 down := Put(s.down, s.downCut, Permission, ok, delivered), downCut := s.downCut || !ok))
  }

  /** The result of this rename is not looked at. */
  function RenameBackStep(env: Env, s: State, done: bool): Option<State> {
    if s.sender != RenamingBack then None
    else
      Some(s.(sender := ResumingBack,
              sName := if env.known.None? then s.sName else Renamed(s.sName, Away(env.known.value), env.known.value, done)))
  }

  /** libxl_domain_resume returns 0 whether or not it has resumed the domain. */
  function ResumeStep(s: State, effective: bool): Option<State> {
    var sCopy := if effective then Running else s.sCopy;
    match s.sender
    case FailedResume => Some(s.(sender := Resumed, sCopy := sCopy, downCut := true))
    case ResumingBack => Some(s.(sender := HandedBack, sCopy := sCopy, downCut := true))
    case _ => None
  }

  function DestroySenderStep(s: State, effective: bool): Option<State> {
    if s.sender != Destroying then None
    else Some(s.(sender := Succeeded, downCut := true, sCopy := if effective then Absent else s.sCopy,
                 sName := if effective then None else s.sName))
  }

  // ----- the receiver -----

  function CreateStep(env: Env, s: State, ok: bool): Option<State> {
    if s.receiver != Creating then None
    else if !ok then Some(s.(receiver := ReceiverExited, upCut := true))
    else if NextIs(s.down, Image) then
      Some(s.(receiver := WritingReady, rCopy := Stopped, down := s.down[1..],
              rName := if env.target.None? then None else Some(Incoming(env.target.value))))
    else None
  }

  function ReceiverReadStep(env: Env, s: State): Option<State> {
    if s.receiver != AwaitGo || !NextIs(s.down, Permission) then None
    else Some(s.(receiver := if env.target.Some? then Renaming else Unpausing, down := s.down[1..]))
  }

  function ReceiverReadFailStep(s: State): Option<State> {
    if s.receiver != AwaitGo then None else Some(s.(receiver := WritingReport(true)))
  }

  function RenameIncomingStep(env: Env, s: State, ok: bool, done: bool): Option<State> {
    if s.receiver != Renaming || env.target.None? || (ok && s.rName != Some(Incoming(env.target.value))) then None
    else
      Some(s.(receiver := if ok then Unpausing else WritingReport(true),
              rName := Renamed(s.rName, Incoming(env.target.value), env.target.value, ok || done)))
  }

  function UnpauseStep(env: Env, s: State, ok: bool, starts: bool): Option<State> {
    if s.receiver != Unpausing then None
    else if ok then Some(s.(receiver := WritingReport(false), rCopy := Running, unpaused := true))
    else if env.failedUnpauseInert && starts then None
    else Some(s.(receiver := WritingReport(true), rCopy := if starts then Running else s.rCopy))
  }

  function ReceiverWriteStep(s: State, ok: bool, delivered: bool): Option<State> {
    match s.receiver
    case WritingBanner =>
      Some(s.(receiver := if ok then Creating else ReceiverExited,
              up := Put(s.up, s.upCut, Banner, ok, delivered), upCut := s.upCut || !ok))
    case WritingReady =>
      Some(s.(receiver := if ok then AwaitGo else ReceiverExited,
              up := Put(s.up, s.upCut, Ready, ok, delivered), upCut := s.upCut || !ok))
    case WritingReport(failed) =>
      Some(s.(receiver := if ok then WritingStatus(failed) else ReceiverExited,
              up := Put(s.up, s.upCut, Report, ok, delivered), upCut := s.upCut || !ok))
    case WritingStatus(failed) =>
      Some(s.(receiver := if ok && failed then DestroyingOurs else ReceiverExited,
              up := Put(s.up, s.upCut, Status(failed), ok, delivered), upCut := s.upCut || !ok || !failed))
    case Granting =>
      Some(s.(receiver := ReceiverExited, up := Put(s.up, s.upCut, Permission, ok, delivered), upCut := true))
    case _ => None
  }

  /** A destroy that returns 0 leads to the permission for the sender. */
  function DestroyReceiverStep(env: Env, s: State, ok: bool, gone: bool): Option<State> {
    if s.receiver != DestroyingOurs || (ok && env.destroyWorks && !gone) then None
    else
      Some(s.(receiver := if ok then Granting else ReceiverExited, cleaned := ok, upCut := s.upCut || !ok,
              rCopy := if gone then Absent else s.rCopy, rName := if gone then None else s.rName))
  }

  // ----- runs -----

  function Step(env: Env, s: State, e: Event): Option<State> {
    match e
    case CutDown(n) => if n <= |s.down| then Some(s.(down := s.down[..n], downCut := true)) else None
    case CutUp(n) => if n <= |s.up| then Some(s.(up := s.up[..n], upCut := true)) else None
    case SenderDies => if Ended(s.sender) then None else Some(s.(sender := SenderDied, downCut := true))
    case ReceiverDies => Some(s.(receiver := ReceiverExited, upCut := true))
    case SenderReads => SenderReadStep(s)
    case SenderReadFails => SenderReadFailStep(s)
    case Suspend(outcome) => SuspendStep(s, outcome)
    case RenameAway(ok, done) => RenameAwayStep(env, s, ok, done)
    case WriteGo(ok, delivered) => WriteGoStep(s, ok, delivered)
    case RenameBack(done) => RenameBackStep(env, s, done)
    case Resume(effective) => ResumeStep(s, effective)
    case DestroySender(effective) => DestroySenderStep(s, effective)
    case Create(ok) => CreateStep(env, s, ok)
    case ReceiverReads => ReceiverReadStep(env, s)
    case ReceiverReadFails => ReceiverReadFailStep(s)
    case RenameIncoming(ok, done) => RenameIncomingStep(env, s, ok, done)
    case Unpause(ok, starts) => UnpauseStep(env, s, ok, starts)
    case ReceiverWrites(ok, delivered) => ReceiverWriteStep(s, ok, delivered)
    case DestroyReceiver(ok, gone) => DestroyReceiverStep(env, s, ok, gone)
  }

  function Run(env: Env, s: State, events: seq<Event>): Option<State>
    decreases |events|
  {
    if events == [] then Some(s)
    else match Step(env, s, events[0]) case None => None case Some(t) => Run(env, t, events[1..])
  }

  // ----- the properties -----

  /** At most one copy of the guest runs. */
  predicate OneRunning(s: State) {
    !(s.sCopy == Running && s.rCopy == Running)
  }

  /** No name is held on both hosts. */
  predicate OneName(s: State) {
    s.sName.Some? ==> s.sName != s.rName
  }

  predicate PastGo(pc: SenderPc) {
    pc.AwaitReport? || pc.AwaitStatus? || pc.AwaitPermission? || pc.RenamingBack? || pc.ResumingBack?
    || pc.Destroying? || pc.HandedBack? || pc.Succeeded? || pc.FailedBadly?
  }

  predicate MayResume(pc: SenderPc) {
    (pc.RenamingBack? || pc.ResumingBack? || pc.HandedBack?)
  }

  // ----- the invariant -----

  predicate PastReport(pc: ReceiverPc) {
    pc.DestroyingOurs? || pc.Granting? || pc.ReceiverExited?
  }

  predicate SenderInv(s: State) {
    && (s.goTried <==> PastGo(s.sender) || (s.sender == SenderDied && s.goTried))
    && ((s.sender.AwaitBanner? || s.sender.Suspending? || s.sender.NotStarted? || s.sender.SuspendFailed?) ==> s.sCopy == Running)
    && ((s.sender.AwaitReady? || s.sender.RenamingAway? || s.sender.SendingGo?) ==> s.sCopy == Stopped)
    && (s.goTried && s.sCopy == Running ==> s.sender == HandedBack)
    && (MayResume(s.sender) ==> s.cleaned)
    && (s.sender == AwaitPermission ==> !s.unpaused && PastReport(s.receiver))
    && ((s.sender.Destroying? || s.sender.Succeeded?) ==> s.unpaused)
  }

  predicate ReceiverInv(env: Env, s: State) {
    && (s.rCopy == Running || s.unpaused || (s.receiver.Renaming? || s.receiver.Unpausing?) ==> s.goTried)
    && (s.receiver.WritingReport? || s.receiver.WritingStatus? ==> s.receiver.failed == !s.unpaused)
    && (s.unpaused ==> s.rCopy == Running && !s.cleaned)
    && (s.unpaused ==> s.receiver.WritingReport? || s.receiver.WritingStatus? || s.receiver == ReceiverExited)
    && (s.cleaned ==> (s.receiver.Granting? || s.receiver.ReceiverExited?) && (env.destroyWorks ==> s.rCopy == Absent && s.rName.None?))
    && (s.receiver == Granting ==> s.cleaned)
    && (env.failedUnpauseInert && s.rCopy == Running ==> s.unpaused)
    && (s.receiver == Renaming ==> env.target.Some?)
  }

  predicate StreamInv(s: State) {
    && (Permission in s.down ==> s.goTried)
    && (Permission in s.up ==> s.cleaned && s.receiver == ReceiverExited)
    && (Status(true) in s.up ==> !s.unpaused && PastReport(s.receiver))
    && (Status(false) in s.up ==> s.unpaused)
  }

  predicate NameInv(env: Env, s: State) {
    && (s.sName == env.held || s.sName.None? || (env.held.Some? && env.known == env.held && s.sName == Some(Away(env.held.value))))
    && (s.goTried || s.sender == SendingGo ==>
          env.known.None? || (env.known == env.held && (s.sName != env.held || s.cleaned)))
    && (s.rName.Some? ==>
          && env.target.Some?
          && (s.rName == Some(Incoming(env.target.value)) || (s.goTried && s.rName == env.target)))
  }

  predicate Inv(env: Env, s: State) {
    SenderInv(s) && ReceiverInv(env, s) && StreamInv(s) && NameInv(env, s)
  }

  lemma PutHolds(queue: seq<Message>, cut: bool, m: Message, ok: bool, delivered: bool)
    ensures forall x :: x in Put(queue, cut, m, ok, delivered) ==> x == m || x in queue
  {
  }

  lemma TailHolds(queue: seq<Message>, n: nat)
    requires n <= |queue|
    ensures forall x :: x in queue[n..] ==> x in queue
    ensures forall x :: x in queue[..n] ==> x in queue
  {
  }

  lemma InitInv(env: Env)
    ensures Inv(env, Init(env))
  {
  }

  lemma NetworkKeepsInv(env: Env, s: State, e: Event)
    requires Inv(env, s) && Step(env, s, e).Some?
    requires e.CutDown? || e.CutUp? || e.SenderDies? || e.ReceiverDies?
    ensures Inv(env, Step(env, s, e).value)
  {
    match e
    case CutDown(n) => TailHolds(s.down, n);
    case CutUp(n) => TailHolds(s.up, n);
    case SenderDies =>
    case ReceiverDies =>
  }

  lemma FixedReadKeepsInv(env: Env, s: State)
    requires Inv(env, s) && SenderReadStep(s).Some? && (s.sender.AwaitBanner? || s.sender.AwaitReady? || s.sender.AwaitReport?)
    ensures Inv(env, SenderReadStep(s).value)
  {
    TailHolds(s.up, 1);
  }

  lemma StatusReadKeepsInv(env: Env, s: State)
    requires Inv(env, s) && SenderReadStep(s).Some? && s.sender.AwaitStatus?
    ensures Inv(env, SenderReadStep(s).value)
  {
    assert s.up[0] in s.up && s.up[0] == Status(s.up[0].failed);
    TailHolds(s.up, 1);
  }

  lemma PermissionReadKeepsInv(env: Env, s: State)
    requires Inv(env, s) && SenderReadStep(s).Some? && s.sender.AwaitPermission?
    ensures Inv(env, SenderReadStep(s).value)
  {
    assert s.up[0] in s.up;
    TailHolds(s.up, 1);
  }

  lemma SuspendKeepsInv(env: Env, s: State, outcome: Suspension)
    requires Inv(env, s) && SuspendStep(s, outcome).Some?
    ensures Inv(env, SuspendStep(s, outcome).value)
  {
    match outcome
    case SuspendOk => PutHolds(s.down, s.downCut, Image, true, true);
    case SuspendTimedOut =>
    case SuspendError(stopped) => PutHolds(s.down, s.downCut, Image, false, stopped);
  }

  lemma ReadFailKeepsInv(env: Env, s: State)
    requires Inv(env, s) && SenderReadFailStep(s).Some?
    ensures Inv(env, SenderReadFailStep(s).value)
  {
    hide ReceiverInv, StreamInv, NameInv;
    if s.sender.AwaitBanner? {
      SenderMoves(env, s, NotStarted);
    } else if s.sender.AwaitReady? {
      SenderMoves(env, s, FailedResume);
    } else {
      SenderMoves(env, s, FailedBadly);
    }
  }

  /** What a sender that only moves must see to. */
  lemma SenderMoves(env: Env, s: State, pc: SenderPc)
    requires Inv(env, s) && SenderInv(s.(sender := pc)) && pc != SendingGo
    ensures Inv(env, s.(sender := pc)) && Inv(env, s.(sender := pc, downCut := true))
  {
  }

  lemma RenameAwayKeepsInv(env: Env, s: State, ok: bool, done: bool)
    requires Inv(env, s) && RenameAwayStep(env, s, ok, done).Some?
    ensures Inv(env, RenameAwayStep(env, s, ok, done).value)
  {
    if env.held.Some? { NamesDiffer(env.held.value, ""); }
    if env.known.Some? { NamesDiffer(env.known.value, ""); }
  }

  lemma WriteGoKeepsInv(env: Env, s: State, ok: bool, delivered: bool)
    requires Inv(env, s) && WriteGoStep(s, ok, delivered).Some?
    ensures Inv(env, WriteGoStep(s, ok, delivered).value)
  {
    PutHolds(s.down, s.downCut, Permission, ok, delivered);
  }

  lemma AftermathKeepsInv(env: Env, s: State, e: Event)
    requires Inv(env, s) && Step(env, s, e).Some?
    requires e.RenameBack? || e.Resume? || e.DestroySender?
    ensures Inv(env, Step(env, s, e).value)
  {
    if env.held.Some? { NamesDiffer(env.held.value, ""); }
  }

  lemma HandshakeWriteKeepsInv(env: Env, s: State, ok: bool, delivered: bool)
    requires Inv(env, s) && (s.receiver.WritingBanner? || s.receiver.WritingReady?)
    ensures Inv(env, ReceiverWriteStep(s, ok, delivered).value)
  {
    hide Put;
    PutHolds(s.up, s.upCut, if s.receiver.WritingBanner? then Banner else Ready, ok, delivered);
  }

  lemma ReportWriteKeepsInv(env: Env, s: State, ok: bool, delivered: bool)
    requires Inv(env, s) && (s.receiver.WritingReport? || s.receiver.WritingStatus?)
    ensures Inv(env, ReceiverWriteStep(s, ok, delivered).value)
  {
    hide Put;
    PutHolds(s.up, s.upCut, if s.receiver.WritingReport? then Report else Status(s.receiver.failed), ok, delivered);
  }

  lemma GrantKeepsInv(env: Env, s: State, ok: bool, delivered: bool)
    requires Inv(env, s) && (s.receiver.Granting?)
    ensures Inv(env, ReceiverWriteStep(s, ok, delivered).value)
  {
    hide Put;
    PutHolds(s.up, s.upCut, Permission, ok, delivered);
  }

  lemma ReceiverWriteKeepsInv(env: Env, s: State, ok: bool, delivered: bool)
    requires Inv(env, s) && ReceiverWriteStep(s, ok, delivered).Some?
    ensures Inv(env, ReceiverWriteStep(s, ok, delivered).value)
  {
    hide Inv, Put;
    if s.receiver.WritingBanner? || s.receiver.WritingReady? {
      HandshakeWriteKeepsInv(env, s, ok, delivered);
    } else if s.receiver.Granting? {
      GrantKeepsInv(env, s, ok, delivered);
    } else {
      ReportWriteKeepsInv(env, s, ok, delivered);
    }
  }

  lemma CreateKeepsInv(env: Env, s: State, ok: bool)
    requires Inv(env, s) && CreateStep(env, s, ok).Some?
    ensures Inv(env, CreateStep(env, s, ok).value)
  {
    if s.down != [] { TailHolds(s.down, 1); }
  }

  lemma ReceiverReadKeepsInv(env: Env, s: State)
    requires Inv(env, s) && ReceiverReadStep(env, s).Some?
    ensures Inv(env, ReceiverReadStep(env, s).value)
  {
    assert s.down[0] in s.down;
    TailHolds(s.down, 1);
  }

  lemma ReceiverReadFailKeepsInv(env: Env, s: State)
    requires Inv(env, s) && ReceiverReadFailStep(s).Some?
    ensures Inv(env, ReceiverReadFailStep(s).value)
  {
  }

  lemma RenameIncomingKeepsInv(env: Env, s: State, ok: bool, done: bool)
    requires Inv(env, s) && RenameIncomingStep(env, s, ok, done).Some?
    ensures Inv(env, RenameIncomingStep(env, s, ok, done).value)
  {
  }

  lemma UnpauseKeepsInv(env: Env, s: State, ok: bool, starts: bool)
    requires Inv(env, s) && UnpauseStep(env, s, ok, starts).Some?
    ensures Inv(env, UnpauseStep(env, s, ok, starts).value)
  {
  }

  lemma DestroyKeepsInv(env: Env, s: State, ok: bool, gone: bool)
    requires Inv(env, s) && DestroyReceiverStep(env, s, ok, gone).Some?
    ensures Inv(env, DestroyReceiverStep(env, s, ok, gone).value)
  {
  }

  /** Every event keeps the invariant. */
  lemma StepKeepsInv(env: Env, s: State, e: Event)
    requires Inv(env, s) && Step(env, s, e).Some?
    ensures Inv(env, Step(env, s, e).value)
  {
    match e
    case CutDown(_) => NetworkKeepsInv(env, s, e);
    case CutUp(_) => NetworkKeepsInv(env, s, e);
    case SenderDies => NetworkKeepsInv(env, s, e);
    case ReceiverDies => NetworkKeepsInv(env, s, e);
    case SenderReads =>
      if s.sender.AwaitStatus? {
        StatusReadKeepsInv(env, s);
      } else if s.sender.AwaitPermission? {
        PermissionReadKeepsInv(env, s);
      } else {
        FixedReadKeepsInv(env, s);
      }
    case SenderReadFails => ReadFailKeepsInv(env, s);
    case Suspend(outcome) => SuspendKeepsInv(env, s, outcome);
    case RenameAway(ok, done) => RenameAwayKeepsInv(env, s, ok, done);
    case WriteGo(ok, delivered) => WriteGoKeepsInv(env, s, ok, delivered);
    case RenameBack(_) => AftermathKeepsInv(env, s, e);
    case Resume(_) => AftermathKeepsInv(env, s, e);
    case DestroySender(_) => AftermathKeepsInv(env, s, e);
    case Create(ok) => CreateKeepsInv(env, s, ok);
    case ReceiverReads => ReceiverReadKeepsInv(env, s);
    case ReceiverReadFails => ReceiverReadFailKeepsInv(env, s);
    case RenameIncoming(ok, done) => RenameIncomingKeepsInv(env, s, ok, done);
    case Unpause(ok, starts) => UnpauseKeepsInv(env, s, ok, starts);
    case ReceiverWrites(ok, delivered) => ReceiverWriteKeepsInv(env, s, ok, delivered);
    case DestroyReceiver(ok, gone) => DestroyKeepsInv(env, s, ok, gone);
  }

  lemma {:induction false} RunKeepsInv(env: Env, s: State, events: seq<Event>)
    requires Inv(env, s) && Run(env, s, events).Some?
    ensures Inv(env, Run(env, s, events).value)
    decreases |events|
  {
    if events != [] {
      StepKeepsInv(env, s, events[0]);
      RunKeepsInv(env, Step(env, s, events[0]).value, events[1..]);
    }
  }

  // ----- the theorems -----

  /** Some run leads to `t`. */
  ghost predicate Reachable(env: Env, t: State) {
    exists events :: Run(env, Init(env), events) == Some(t)
  }

  lemma ReachableInv(env: Env, t: State)
    requires Reachable(env, t)
    ensures Inv(env, t)
  {
    var events :| Run(env, Init(env), events) == Some(t);
    InitInv(env);
    RunKeepsInv(env, Init(env), events);
  }

  lemma {:induction false} RunAppends(env: Env, s: State, events: seq<Event>, e: Event)
    requires Run(env, s, events).Some?
    ensures Run(env, s, events + [e]) == Step(env, Run(env, s, events).value, e)
    decreases |events|
  {
    if events != [] {
      RunAppends(env, Step(env, s, events[0]).value, events[1..], e);
      assert (events + [e])[1..] == events[1..] + [e];
    } else {
      assert ([e])[1..] == [];
    }
  }

  /** One event further. */
  lemma Reach(env: Env, s: State, e: Event) returns (t: State)
    requires Reachable(env, s) && Step(env, s, e).Some?
    ensures Step(env, s, e) == Some(t) && Reachable(env, t)
  {
    var events :| Run(env, Init(env), events) == Some(s);
    RunAppends(env, Init(env), events, e);
    t := Step(env, s, e).value;
  }

  /** The guest is being transferred. */
  lemma ReachTransfer(env: Env) returns (s: State)
    ensures Reachable(env, s)
    ensures s == State(AwaitReady, Stopped, env.held, Creating, Absent, None, [Image], [], false, false, false, false, false)
  {
    hide Run, Reachable;
    ReachInit(env);
    s := Reach(env, Init(env), ReceiverWrites(true, true));
    s := Reach(env, s, SenderReads);
    s := Reach(env, s, Suspend(SuspendOk));
  }

  lemma ReachInit(env: Env)
    ensures Reachable(env, Init(env))
  {
    assert Run(env, Init(env), []) == Some(Init(env));
  }

  /** The name under which the guest is received. */
  function TempName(env: Env): Option<string> {
    if env.target.None? then None else Some(Incoming(env.target.value))
  }

  /** The name that the guest has at the sender when the receiver may go. */
  function GivenName(env: Env): Option<string> {
    if env.known.None? then env.held else Some(Away(env.known.value))
  }

  /** The sender knows the name of its domain, or does not look at it. */
  predicate Renames(env: Env) {
    env.known.None? || env.known == env.held
  }

  /** The guest has been transferred and the receiver has said so. */
  lemma ReachTransferred(env: Env) returns (s: State)
    ensures Reachable(env, s)
    ensures s == State(RenamingAway, Stopped, env.held, AwaitGo, Stopped, TempName(env), [], [], false, false, false, false, false)
  {
    hide Run, Reachable;
    s := ReachTransfer(env);
    s := Reach(env, s, Create(true));
    s := Reach(env, s, ReceiverWrites(true, true));
    s := Reach(env, s, SenderReads);
  }

  /** Both sides are through the handshake and the receiver has been allowed to go. */
  lemma ReachGo(env: Env) returns (s: State)
    requires Renames(env)
    ensures Reachable(env, s)
    ensures s == State(AwaitReport, Stopped, GivenName(env), if env.target.Some? then Renaming else Unpausing, Stopped, TempName(env),
                       [], [], false, false, true, false, false)
  {
    hide Run, Reachable;
    s := ReachTransferred(env);
    s := Reach(env, s, RenameAway(true, true));
    s := Reach(env, s, WriteGo(true, true));
    s := Reach(env, s, ReceiverReads);
  }

  /** The receiver may start the guest, and holds its name. */
  lemma ReachUnpausing(env: Env) returns (s: State)
    requires Renames(env)
    ensures Reachable(env, s)
    ensures s == State(AwaitReport, Stopped, GivenName(env), Unpausing, Stopped, env.target,
                       [], [], false, false, true, false, false)
  {
    hide Run, Reachable;
    s := ReachGo(env);
    if env.target.Some? {
      s := Reach(env, s, RenameIncoming(true, true));
    }
  }

  /** Starting it has failed. */
  lemma ReachFailed(env: Env, starts: bool) returns (s: State)
    requires Renames(env) && (starts ==> !env.failedUnpauseInert)
    ensures Reachable(env, s)
    ensures s == State(AwaitReport, Stopped, GivenName(env), WritingReport(true), if starts then Running else Stopped,
                       env.target, [], [], false, false, true, false, false)
  {
    hide Run, Reachable;
    s := ReachUnpausing(env);
    s := Reach(env, s, Unpause(false, starts));
  }

  /** The receiver has said so. */
  lemma ReachReported(env: Env, starts: bool) returns (s: State)
    requires Renames(env) && (starts ==> !env.failedUnpauseInert)
    ensures Reachable(env, s)
    ensures s == State(AwaitReport, Stopped, GivenName(env), DestroyingOurs, if starts then Running else Stopped,
                       env.target, [], [Report, Status(true)], false, false, true, false, false)
  {
    hide Run, Reachable;
    s := ReachFailed(env, starts);
    s := Reach(env, s, ReceiverWrites(true, true));
    s := Reach(env, s, ReceiverWrites(true, true));
  }

  /** The sender knows. */
  lemma ReachFailure(env: Env, starts: bool) returns (s: State)
    requires Renames(env) && (starts ==> !env.failedUnpauseInert)
    ensures Reachable(env, s)
    ensures s == State(AwaitPermission, Stopped, GivenName(env), DestroyingOurs, if starts then Running else Stopped,
                       env.target, [], [], false, false, true, false, false)
  {
    hide Run, Reachable;
    s := ReachReported(env, starts);
    s := Reach(env, s, SenderReads);
    s := Reach(env, s, SenderReads);
  }

  /** A receiver whose destroy returned 0 without effect grants the guest back. */
  lemma ReachGrant(env: Env, starts: bool) returns (s: State)
    requires Renames(env) && !env.destroyWorks && (starts ==> !env.failedUnpauseInert)
    ensures Reachable(env, s)
    ensures s == State(AwaitPermission, Stopped, GivenName(env), ReceiverExited, if starts then Running else Stopped,
                       env.target, [], [Permission], false, true, true, false, true)
  {
    hide Run, Reachable;
    s := ReachFailure(env, starts);
    s := Reach(env, s, DestroyReceiver(true, false));
    s := Reach(env, s, ReceiverWrites(true, true));
    assert s.up == [Permission];
  }

  lemma ReachHandBack(env: Env, starts: bool) returns (s: State)
    requires Renames(env) && !env.destroyWorks && (starts ==> !env.failedUnpauseInert)
    ensures Reachable(env, s) && s.sender == ResumingBack && s.sName == env.held && s.rName == env.target
    ensures starts ==> s.rCopy == Running
  {
    hide Run, Reachable;
    s := ReachGrant(env, starts);
    s := Reach(env, s, SenderReads);
    s := Reach(env, s, RenameBack(true));
  }

  /** Migration safety: at most one copy of the guest runs in every reachable state, whatever breaks, exactly
      if a destroy that returns 0 has worked, or an unpause that fails leaves the guest stopped, or the sender takes
      its domain to have a name that it does not have, and never gets to say "go". */
  lemma AtMostOneRunning(env: Env)
    ensures (forall s :: Reachable(env, s) ==> OneRunning(s)) <==> env.destroyWorks || env.failedUnpauseInert || !Renames(env)
  {
    if env.destroyWorks || env.failedUnpauseInert || !Renames(env) {
      forall s | Reachable(env, s) ensures OneRunning(s) {
        ReachableInv(env, s);
      }
    } else {
      var s := ReachHandBack(env, true);
      s := Reach(env, s, Resume(true));
      assert !OneRunning(s);
    }
  }

  /** No name is ever held on both hosts. */
  predicate NamesApart(env: Env)
    requires env.held.Some? && env.target.Some?
  {
    && env.held.value != Incoming(env.target.value)
    && match env.known
       case None => env.held != env.target
       case Some(known) =>
         env.known == env.held ==> env.target.value != Away(known) && (env.destroyWorks || env.target != env.held)
  }

  /** No name is held on both hosts in any reachable state, exactly if one of them has none, or if the sender's domain
      is not called what the receiver calls it at first, and: the sender does not know its name, and the receiver is to
      call it otherwise; or it has a wrong name, and never gets to say "go"; or it has the right one, the receiver is not
      to call it by the name for domains given away, and either a destroy that returned 0 has worked, or the receiver
      is to call it otherwise. */
  lemma AtMostOneName(env: Env)
    ensures (forall s :: Reachable(env, s) ==> OneName(s)) <==> env.held.None? || env.target.None? || NamesApart(env)
  {
    if env.held.None? || env.target.None? || NamesApart(env) {
      forall s | Reachable(env, s) ensures OneName(s) {
        ReachableInv(env, s);
        if env.held.Some? && env.target.Some? { NamesDiffer(env.held.value, env.target.value); }
      }
    } else if env.held.value == Incoming(env.target.value) {
      var s := ReachTransferred(env);
      assert !OneName(s);
    } else if env.known.Some? && env.target.value != Away(env.known.value) {
      var s := ReachHandBack(env, false);
      assert !OneName(s);
    } else {
      var s := ReachUnpausing(env);
      assert !OneName(s);
    }
  }

  /** Once it has tried to say "go", the sender resumes the guest only after the receiver's destroy has returned
      0 and the permission was written; then the receiver's copy is gone, if such a destroy works. */
  lemma ResumesOnlyWithPermission(env: Env, s: State)
    requires Reachable(env, s) && s.goTried && (MayResume(s.sender) || s.sCopy == Running)
    ensures s.cleaned && !s.unpaused && (s.receiver == Granting || s.receiver == ReceiverExited)
    ensures env.destroyWorks ==> s.rCopy == Absent && s.rName.None?
  {
    ReachableInv(env, s);
  }

  /** When the sender has exited, and not through failed_badly, exactly one copy runs, unless its own call to
      resume had no effect; then none does. */
  lemma Outcome(env: Env, s: State)
    requires Reachable(env, s) && Ended(s.sender) && (env.destroyWorks || env.failedUnpauseInert || !Renames(env))
    ensures (s.sCopy == Running) != (s.rCopy == Running) <==>
      (s.sender == Resumed || s.sender == HandedBack ==> s.sCopy == Running)
    ensures s.sender == Succeeded <==> s.rCopy == Running
  {
    ReachableInv(env, s);
  }
}
