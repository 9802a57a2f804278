/** What a run of the driver does to a flat disk, to the history, and to the read window. */
module Commands {
  import opened Bytes
  import opened Flat
  import opened Versions
  import opened Requests
  import opened Trim
  import opened Log
  import opened Windows
  import opened Traces
  import opened Store

  datatype Command =
    | DoWrite(ts: Time, sec: nat, data: seq<byte>)
    | DoRead(sec: nat, secs: nat)
    | Reopen  // pd_finalize, then pd_initialize on the same file

  predicate Permitted(g: Geometry, c: Command) {
    match c
    case DoWrite(ts, sec, data) => g.Valid() && Stamp(ts) && Fits(g, Write(ts, sec, data))
    case DoRead(sec, secs) => Servable(g, sec, secs)
    case Reopen => true
  }

  predicate AllPermitted(g: Geometry, cmds: seq<Command>) {
    forall i :: 0 <= i < |cmds| ==> Permitted(g, cmds[i])
  }

  /** One more command. */
  lemma PermittedStep(g: Geometry, cmds: seq<Command>, i: nat)
    requires AllPermitted(g, cmds) && i < |cmds|
    ensures AllPermitted(g, cmds[..i]) && AllPermitted(g, cmds[..i + 1]) && Permitted(g, cmds[i])
    ensures cmds[..i + 1][..i] == cmds[..i] && cmds[..i + 1][i] == cmds[i]
  {
  }

  /** How much one command may make the log grow. */
  function Cost(c: Command): nat {
    match c case DoWrite(_, _, data) => (|data| / SECTOR + 1) * 8192 case _ => 0
  }

  function Growth(cmds: seq<Command>): nat {
    if cmds == [] then 0 else Growth(cmds[..|cmds| - 1]) + Cost(cmds[|cmds| - 1])
  }

  lemma {:induction false} GrowthMonotone(cmds: seq<Command>, i: nat)
    requires i <= |cmds|
    ensures Growth(cmds[..i]) <= Growth(cmds)
  {
    if i < |cmds| {
      GrowthMonotone(cmds[..|cmds| - 1], i);
      assert cmds[..|cmds| - 1][..i] == cmds[..i];
    } else {
      assert cmds[..i] == cmds;
    }
  }

  // ----- the flat disk -----

  /** What a command leaves of a flat disk. */
  function FlatCommand(g: Geometry, flat: seq<byte>, c: Command): (r: seq<byte>)
    requires |flat| == g.DiskSize() && Permitted(g, c)
    ensures |r| == |flat|
  {
    match c case DoWrite(ts, sec, data) => Apply(g, flat, Write(ts, sec, data)) case _ => flat
  }

  function FlatAfter(g: Geometry, flat: seq<byte>, cmds: seq<Command>): (r: seq<byte>)
    requires |flat| == g.DiskSize() && AllPermitted(g, cmds)
    ensures |r| == |flat|
  {
    if cmds == [] then flat else FlatCommand(g, FlatAfter(g, flat, cmds[..|cmds| - 1]), cmds[|cmds| - 1])
  }

  /** What a read command returns on a flat disk. */
  function FlatAnswer(g: Geometry, flat: seq<byte>, c: Command): seq<seq<byte>>
    requires |flat| == g.DiskSize() && Permitted(g, c)
  {
    match c case DoRead(sec, secs) => [flat[sec * SECTOR..(sec + secs) * SECTOR]] case _ => []
  }

  /** What the reads among the commands return. */
  function FlatOutputs(g: Geometry, flat: seq<byte>, cmds: seq<Command>): seq<seq<byte>>
    requires |flat| == g.DiskSize() && AllPermitted(g, cmds)
  {
    if cmds == [] then []
    else
      var front, last := cmds[..|cmds| - 1], cmds[|cmds| - 1];
      FlatOutputs(g, flat, front) + FlatAnswer(g, FlatAfter(g, flat, front), last)
  }

  /** The disk at the start and after each reopen. */
  function Disks(g: Geometry, flat: seq<byte>, cmds: seq<Command>): (r: seq<seq<byte>>)
    requires |flat| == g.DiskSize() && AllPermitted(g, cmds)
    ensures r != [] && r[0] == flat
    ensures forall a :: 0 <= a < |r| ==> |r[a]| == g.DiskSize()
  {
    if cmds == [] then [flat]
    else Disks(g, flat, cmds[..|cmds| - 1]) + if cmds[|cmds| - 1].Reopen? then [FlatAfter(g, flat, cmds)] else []
  }

  /** The disk as it was last finalized. */
  function LastDisk(g: Geometry, flat: seq<byte>, cmds: seq<Command>): (r: seq<byte>)
    requires |flat| == g.DiskSize() && AllPermitted(g, cmds)
    ensures |r| == |flat|
  {
    var disks := Disks(g, flat, cmds);
    disks[|disks| - 1]
  }

  /** One more command, on the flat side. */
  lemma FlatStep(g: Geometry, flat: seq<byte>, cmds: seq<Command>, i: nat)
    requires |flat| == g.DiskSize() && AllPermitted(g, cmds) && i < |cmds|
    ensures AllPermitted(g, cmds[..i]) && AllPermitted(g, cmds[..i + 1]) && Permitted(g, cmds[i])
    ensures FlatAfter(g, flat, cmds[..i + 1]) == FlatCommand(g, FlatAfter(g, flat, cmds[..i]), cmds[i])
    ensures FlatOutputs(g, flat, cmds[..i + 1])
         == FlatOutputs(g, flat, cmds[..i]) + FlatAnswer(g, FlatAfter(g, flat, cmds[..i]), cmds[i])
    ensures Disks(g, flat, cmds[..i + 1])
         == Disks(g, flat, cmds[..i]) + if cmds[i].Reopen? then [FlatAfter(g, flat, cmds[..i])] else []
    ensures Growth(cmds[..i + 1]) == Growth(cmds[..i]) + Cost(cmds[i])
  {
    hide FlatAnswer, Cost, Permitted;
    PermittedStep(g, cmds, i);
  }

  // ----- the history -----

  function HistCommand(g: Geometry, hist: seq<Version>, c: Command): (r: seq<Version>)
    requires g.Valid() && WellFormed(g, hist) && Permitted(g, c)
    ensures WellFormed(g, r)
  {
    match c case DoWrite(ts, sec, data) => Commit(g, hist, Write(ts, sec, data)) case _ => hist
  }

  function HistAfter(g: Geometry, hist: seq<Version>, cmds: seq<Command>): (r: seq<Version>)
    requires g.Valid() && WellFormed(g, hist) && AllPermitted(g, cmds)
    ensures WellFormed(g, r)
  {
    if cmds == [] then hist else HistCommand(g, HistAfter(g, hist, cmds[..|cmds| - 1]), cmds[|cmds| - 1])
  }

  lemma HistStep(g: Geometry, hist: seq<Version>, cmds: seq<Command>, i: nat)
    requires g.Valid() && WellFormed(g, hist) && AllPermitted(g, cmds) && i < |cmds|
    ensures AllPermitted(g, cmds[..i]) && AllPermitted(g, cmds[..i + 1]) && Permitted(g, cmds[i])
    ensures HistAfter(g, hist, cmds[..i + 1]) == HistCommand(g, HistAfter(g, hist, cmds[..i]), cmds[i])
  {
    hide HistCommand, Permitted;
    PermittedStep(g, cmds, i);
  }

  lemma CommandAgrees(g: Geometry, hist: seq<Version>, flat: seq<byte>, c: Command)
    requires g.Valid() && WellFormed(g, hist) && Agrees(g, hist, flat) && Permitted(g, c)
    ensures Agrees(g, HistCommand(g, hist, c), FlatCommand(g, flat, c))
  {
    hide Agrees, Commit, Apply;
    if c.DoWrite? { CommitIsFlatWrite(g, hist, flat, Write(c.ts, c.sec, c.data)); }
  }

  /** The newest versions are the flat disk, whatever disk both started from. */
  lemma {:induction false} RunAgrees(g: Geometry, hist: seq<Version>, flat: seq<byte>, cmds: seq<Command>)
    requires g.Valid() && WellFormed(g, hist) && |flat| == g.DiskSize() && Agrees(g, hist, flat) && AllPermitted(g, cmds)
    ensures Agrees(g, HistAfter(g, hist, cmds), FlatAfter(g, flat, cmds))
  {
    hide Agrees, HistCommand, FlatCommand, Permitted;
    if cmds != [] {
      var front, last := cmds[..|cmds| - 1], cmds[|cmds| - 1];
      RunAgrees(g, hist, flat, front);
      CommandAgrees(g, HistAfter(g, hist, front), FlatAfter(g, flat, front), last);
    }
  }

  /** A run never stores zeros for a block that has no record yet. */
  lemma {:induction false} RunStarts(g: Geometry, hist: seq<Version>, cmds: seq<Command>)
    requires g.Valid() && WellFormed(g, hist) && AllPermitted(g, cmds) && StartsWritten(hist)
    ensures StartsWritten(HistAfter(g, hist, cmds))
  {
    hide StartsWritten, Permitted, Commit;
    if cmds != [] {
      var front, last := cmds[..|cmds| - 1], cmds[|cmds| - 1];
      assert Permitted(g, last);
      RunStarts(g, hist, front);
      if last.DoWrite? { WriteStarts(g, HistAfter(g, hist, front), last); }
    }
  }

  lemma WriteStarts(g: Geometry, hist: seq<Version>, c: Command)
    requires g.Valid() && WellFormed(g, hist) && Permitted(g, c) && c.DoWrite? && StartsWritten(hist)
    ensures StartsWritten(HistCommand(g, hist, c))
  {
    hide StartsWritten, Commit;
    CommitStarts(g, hist, Write(c.ts, c.sec, c.data));
  }

  /** The write requests among the commands. */
  function WritesOf(cmds: seq<Command>): seq<Write> {
    if cmds == [] then []
    else WritesOf(cmds[..|cmds| - 1]) + match cmds[|cmds| - 1] case DoWrite(ts, sec, data) => [Write(ts, sec, data)] case _ => []
  }

  /** From an empty disk on, the history is that of the write requests. */
  lemma {:induction false} HistoryOfWrites(g: Geometry, cmds: seq<Command>)
    requires g.Valid() && AllPermitted(g, cmds)
    ensures AllFit(g, WritesOf(cmds)) && HistAfter(g, [], cmds) == History(g, WritesOf(cmds))
  {
    hide Commit;
    if cmds != [] {
      var front, last := cmds[..|cmds| - 1], cmds[|cmds| - 1];
      HistoryOfWrites(g, front);
      assert Permitted(g, last);
      if last.DoWrite? {
        HistoryStep(g, WritesOf(front), Write(last.ts, last.sec, last.data));
      } else {
        assert WritesOf(cmds) == WritesOf(front);
      }
    }
  }

  lemma HistoryStep(g: Geometry, ws: seq<Write>, w: Write)
    requires g.Valid() && AllFit(g, ws) && Fits(g, w)
    ensures AllFit(g, ws + [w]) && History(g, ws + [w]) == Commit(g, History(g, ws), w)
  {
    var all := ws + [w];
    assert all[..|all| - 1] == ws && all[|all| - 1] == w;
  }

  // ----- stale reads -----

  /** How one command moves the trace of a writable session. */
  function TraceOf(g: Geometry, t: Trace, c: Command, clears: bool): (r: Trace)
    requires g.Valid() && Sound(g, t) && Permitted(g, c)
    ensures Sound(g, r)
  {
    match c
    case DoWrite(ts, sec, data) => Committed(g, t, Write(ts, sec, data), clears)
    case DoRead(sec, secs) => Fetched(g, t, sec, secs)
    case Reopen => Renewed(g, t)
  }

  function TraceAll(g: Geometry, t0: Trace, cmds: seq<Command>, clears: bool): (r: Trace)
    requires g.Valid() && Sound(g, t0) && AllPermitted(g, cmds)
    ensures Sound(g, r)
  {
    if cmds == [] then t0 else TraceOf(g, TraceAll(g, t0, cmds[..|cmds| - 1], clears), cmds[|cmds| - 1], clears)
  }

  /** The trace of an image that has just been opened. */
  function Start(s: Snapshot): Trace {
    Trace(s.hist, s.offs, Opened(s.next, |s.data|))
  }

  /** Some read of the run is served by a stale window. This depends on the commands and the lengths of image
      and log alone. */
  predicate RunStale(g: Geometry, t0: Trace, cmds: seq<Command>, clears: bool)
    requires g.Valid() && Sound(g, t0) && AllPermitted(g, cmds)
  {
    TraceAll(g, t0, cmds, clears).Lost?
  }

  lemma StartSound(s: OpenStore)
    ensures s.g.Valid() && Sound(s.g, Start(s))
  {
    RecordUnder(s, 0, Now);
  }

  lemma StartLaid(s: OpenStore)
    requires AtRest(s)
    ensures Laid(s.g, Start(s))
  {
    hide TrimSize;
    StartSound(s);
    forall i | 0 <= i < |s.hist| ensures LaidAt(Start(s).window, s.offs[i], TrimSize(s.hist[i].data)) {
      assert RecordAt(s.g, s.log, s.hist, s.offs, i);
    }
  }

  /** How much the commands since the last reopen may have put into the write buffer. */
  function Buffered(g: Geometry, cmds: seq<Command>): nat
    requires AllPermitted(g, cmds)
  {
    if cmds == [] then 0
    else
      match cmds[|cmds| - 1]
      case DoWrite(ts, sec, data) => Buffered(g, cmds[..|cmds| - 1]) + FillOf(g, Write(ts, sec, data))
      case DoRead(_, _) => Buffered(g, cmds[..|cmds| - 1])
      case Reopen => 0
  }

  /** No session writes more than the buffer holds, so that only pd_finalize flushes. */
  predicate FitsBuffer(g: Geometry, cmds: seq<Command>)
    requires AllPermitted(g, cmds)
  {
    forall i :: 0 <= i <= |cmds| ==> Buffered(g, cmds[..i]) <= BUFFER_SIZE
  }

  lemma {:induction false} TraceLaid(g: Geometry, t0: Trace, cmds: seq<Command>, clears: bool)
    requires g.Valid() && Laid(g, t0) && t0.window.buffered == 0 && AllPermitted(g, cmds) && (clears || FitsBuffer(g, cmds))
    ensures Sound(g, t0)
    ensures var t := TraceAll(g, t0, cmds, clears); Laid(g, t) && t.window.buffered <= Buffered(g, cmds)
  {
    hide Laid, Committed, Fetched, Renewed, FillOf, BlocksRead;
    LaidParts(g, t0);
    if cmds != [] {
      var front, last := cmds[..|cmds| - 1], cmds[|cmds| - 1];
      assert cmds[..|cmds|] == cmds && Permitted(g, last);
      if !clears { FrontFits(g, cmds); }
      TraceLaid(g, t0, front, clears);
      var t := TraceAll(g, t0, front, clears);
      match last
      case DoWrite(ts, sec, data) => CommittedLaid(g, t, Write(ts, sec, data), clears);
      case DoRead(sec, secs) => FetchedLaid(g, t, sec, secs);
      case Reopen => RenewedLaid(g, t);
    }
  }

  lemma FrontFits(g: Geometry, cmds: seq<Command>)
    requires cmds != [] && AllPermitted(g, cmds) && FitsBuffer(g, cmds)
    ensures FitsBuffer(g, cmds[..|cmds| - 1]) && Buffered(g, cmds) <= BUFFER_SIZE
  {
    var front := cmds[..|cmds| - 1];
    assert cmds[..|cmds|] == cmds;
    forall i | 0 <= i <= |front| ensures Buffered(g, front[..i]) <= BUFFER_SIZE {
      assert front[..i] == cmds[..i];
    }
  }

  /** Reads never go stale if no session writes more than the buffer holds, or if flushing clears the window. */
  lemma NeverStale(s: OpenStore, cmds: seq<Command>, clears: bool)
    requires AtRest(s) && AllPermitted(s.g, cmds) && (clears || FitsBuffer(s.g, cmds))
    ensures s.g.Valid() && Sound(s.g, Start(s)) && !RunStale(s.g, Start(s), cmds, clears)
  {
    StartSound(s);
    StartLaid(s);
    TraceLaid(s.g, Start(s), cmds, clears);
  }

  lemma {:induction false} TraceHistory(g: Geometry, t0: Trace, cmds: seq<Command>, clears: bool)
    requires g.Valid() && Sound(g, t0) && AllPermitted(g, cmds) && t0.Trace?
    ensures var t := TraceAll(g, t0, cmds, clears); t.Trace? ==> t.hist == HistAfter(g, t0.hist, cmds)
  {
    hide TraceOf, HistCommand;
    if cmds != [] {
      var front, last := cmds[..|cmds| - 1], cmds[|cmds| - 1];
      assert Permitted(g, last);
      TraceHistory(g, t0, front, clears);
      CommandHistory(g, TraceAll(g, t0, front, clears), last, clears);
    }
  }

  lemma CommandHistory(g: Geometry, t: Trace, c: Command, clears: bool)
    requires g.Valid() && Sound(g, t) && Permitted(g, c)
    ensures var u := TraceOf(g, t, c, clears); u.Trace? ==> t.Trace? && u.hist == HistCommand(g, t.hist, c)
  {
    hide Committed, StretchWindow, BlocksRead, AfterFlush;
    if c.DoWrite? { CommittedHistory(g, t, Write(c.ts, c.sec, c.data), clears); }
  }

  lemma TraceStep(g: Geometry, t0: Trace, cmds: seq<Command>, i: nat, clears: bool)
    requires g.Valid() && Sound(g, t0) && AllPermitted(g, cmds) && i < |cmds|
    ensures AllPermitted(g, cmds[..i]) && AllPermitted(g, cmds[..i + 1]) && Permitted(g, cmds[i])
    ensures TraceAll(g, t0, cmds[..i + 1], clears) == TraceOf(g, TraceAll(g, t0, cmds[..i], clears), cmds[i], clears)
  {
    hide TraceOf, Permitted;
    PermittedStep(g, cmds, i);
  }

  /** Once a read has been stale, the trace stays lost. */
  lemma LostStays(g: Geometry, c: Command, clears: bool)
    requires g.Valid() && Permitted(g, c)
    ensures TraceOf(g, Lost, c, clears) == Lost
  {
    if c.DoWrite? { CommittedLost(g, Write(c.ts, c.sec, c.data), clears); }
  }
}
