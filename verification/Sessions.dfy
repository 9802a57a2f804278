/** Whole runs: any sequence of writes, reads and reopens of one image, against the flat disk; and
    read-only sessions at a restore point. */
module Sessions {
  import opened Bytes
  import opened Flat
  import opened Versions
  import opened TimeTravel
  import opened Clock
  import opened Requests
  import opened Log
  import opened Store
  import opened Disk
  import opened Widths
  import opened Files
  import opened Traces
  import opened Crash
  import opened Image
  import opened Commands

  /** The disk that an image at rest shows. */
  ghost function DiskOf(s: OpenStore): (r: seq<byte>)
    ensures s.g.Valid() && WellFormed(s.g, s.hist) && |r| == s.g.DiskSize() && Agrees(s.g, s.hist, r)
  {
    RecordUnder(s, 0, Now);
    AgreesIsShow(s.g, s.hist, Show(s.g, s.hist, Now));
    Show(s.g, s.hist, Now)
  }

  /** A reader at restore point `t` sees the disk after the requests stamped before `t`. */
  lemma TimeTravelShows(g: Geometry, ws: seq<Write>, t: Time)
    requires g.Valid() && AllFit(g, ws) && AllInOrder(g, ws, t)
    ensures AllFit(g, StampedBefore(ws, t))
    ensures Show(g, History(g, ws), AsOf(t)) == Replay(g, StampedBefore(ws, t))
  {
    var past := StampedBefore(ws, t);
    forall i | 0 <= i < |past| ensures Fits(g, past[i]) {
      assert past[i] in past;
    }
    var seen, flat := Show(g, History(g, ws), AsOf(t)), Replay(g, past);
    forall b | 0 <= b < g.blocks ensures Block(g, seen, b) == Block(g, flat, b) {
      ShowIs(g, History(g, ws), AsOf(t), b);
      TravelsBack(g, ws, b, t);
    }
    BlocksDetermine(g, seen, flat, g.blocks);
    assert seen[..g.DiskSize()] == seen && flat[..g.DiskSize()] == flat;
  }

  // ----- crashes -----

  /** Every block is as on the one flat disk or as on the other. */
  ghost predicate EitherFlat(g: Geometry, h: seq<Version>, f0: seq<byte>, f1: seq<byte>)
    requires |f0| == |f1| == g.DiskSize()
  {
    WellFormed(g, h) && forall b :: 0 <= b < g.blocks ==> BlockOf(g, h, b, Now) == Block(g, f0, b) || BlockOf(g, h, b, Now) == Block(g, f1, b)
  }

  /** The image can be opened again, with a log that reaches no further than `end`. */
  ghost predicate Opens(g: Geometry, img: seq<byte>, end: nat) {
    exists h, o, next: nat :: Holds(g, img, h, o, next) && next <= end
  }

  /** And shows every block as on the one flat disk or as on the other. */
  ghost predicate Shows(g: Geometry, img: seq<byte>, f0: seq<byte>, f1: seq<byte>, end: nat)
    requires |f0| == |f1| == g.DiskSize()
  {
    exists h, o, next: nat :: Holds(g, img, h, o, next) && next <= end && EitherFlat(g, h, f0, f1)
  }

  /** So does whatever a crash during the write leaves. */
  ghost predicate StepOpens(g: Geometry, s: FileStep, end: nat) {
    forall img :: Torn(s, img) ==> Opens(g, img, end)
  }

  ghost predicate StepShows(g: Geometry, s: FileStep, f0: seq<byte>, f1: seq<byte>, end: nat)
    requires |f0| == |f1| == g.DiskSize()
  {
    forall img :: Torn(s, img) ==> Shows(g, img, f0, f1, end)
  }

  lemma HoldsShows(g: Geometry, img: seq<byte>, h: seq<Version>, o: seq<nat>, next: nat, flat: seq<byte>, end: nat)
    requires Holds(g, img, h, o, next) && next <= end && WellFormed(g, h) && |flat| == g.DiskSize() && Agrees(g, h, flat)
    ensures Shows(g, img, flat, flat, end)
  {
    hide Holds;
    assert EitherFlat(g, h, flat, flat);
  }

  lemma RecoversOpens(g: Geometry, s: FileStep, hist: seq<Version>, saved: nat, next: nat, end: nat)
    requires StepRecovers(g, s, hist, saved, next) && next <= end
    ensures StepOpens(g, s, end)
  {
    hide Holds, OldOrNew;
    forall img | Torn(s, img) ensures Opens(g, img, end) {
      assert Recovers(g, img, hist, saved, next);
    }
  }

  /** A crash that leaves every block at its saved or its newest version leaves it as on the disk that the saved
      versions show or as on the one that all of them show. */
  lemma RecoversShows(g: Geometry, s: FileStep, hist: seq<Version>, saved: nat, next: nat, f0: seq<byte>, f1: seq<byte>, end: nat)
    requires StepRecovers(g, s, hist, saved, next) && next <= end && saved <= |hist|
    requires |f0| == |f1| == g.DiskSize() && WellFormed(g, hist) && WellFormed(g, hist[..saved])
    requires Agrees(g, hist[..saved], f0) && Agrees(g, hist, f1)
    ensures StepShows(g, s, f0, f1, end)
  {
    hide Holds;
    forall img | Torn(s, img) ensures Shows(g, img, f0, f1, end) {
      assert Recovers(g, img, hist, saved, next);
      var h, o, n: nat :| Holds(g, img, h, o, n) && n <= next && OldOrNew(g, h, hist, saved);
      assert EitherFlat(g, h, f0, f1);
    }
  }

  lemma KeepsShows(g: Geometry, s: FileStep, hist: seq<Version>, offs: seq<nat>, next: nat, flat: seq<byte>, end: nat)
    requires StepKeeps(g, s, hist, offs, next) && next <= end && WellFormed(g, hist) && |flat| == g.DiskSize() && Agrees(g, hist, flat)
    ensures StepShows(g, s, flat, flat, end)
  {
    hide Holds, Shows, Agrees;
    forall img | Torn(s, img) ensures Shows(g, img, flat, flat, end) {
      HoldsShows(g, img, hist, offs, next, flat, end);
    }
  }

  /** The sessions of a run lead from each of `disks` to the next, session `a` with the writes of the file from
      `marks[a]` to before `marks[a + 1]`. Between two sessions the file shows just the disk in between; a crash during
      a write of a session leaves every block as before or as after this very session. */
  ghost predicate Safe(g: Geometry, disks: seq<seq<byte>>, marks: seq<nat>, first: seq<byte>, steps: seq<FileStep>, end: nat) {
    && |marks| == |disks| && disks != [] && marks[|marks| - 1] == |steps|
    && (forall a :: 0 <= a < |disks| ==> |disks[a]| == g.DiskSize() && marks[a] <= |steps|)
    && (forall a, b :: 0 <= a < b < |marks| ==> marks[a] <= marks[b])
    && (forall a :: 0 <= a < |disks| ==> Shows(g, ContentsAt(first, steps, marks[a]), disks[a], disks[a], end))
    && (forall a, k :: 0 <= a < |disks| - 1 && marks[a] <= k < marks[a + 1] ==> StepShows(g, steps[k], disks[a], disks[a + 1], end))
  }

  lemma SafeStarts(g: Geometry, flat: seq<byte>, first: seq<byte>, steps: seq<FileStep>, end: nat)
    requires |flat| == g.DiskSize() && Shows(g, ContentsAt(first, steps, |steps|), flat, flat, end)
    ensures Safe(g, [flat], [|steps|], first, steps, end)
  {
  }

  /** One more session. */
  lemma SafeGrows(g: Geometry, disks: seq<seq<byte>>, marks: seq<nat>, first: seq<byte>, steps: seq<FileStep>, end: nat,
                  steps': seq<FileStep>, flat: seq<byte>)
    requires Safe(g, disks, marks, first, steps, end) && steps <= steps' && |flat| == g.DiskSize()
    requires forall k :: |steps| <= k < |steps'| ==> StepShows(g, steps'[k], disks[|disks| - 1], flat, end)
    requires Shows(g, ContentsAt(first, steps', |steps'|), flat, flat, end)
    ensures Safe(g, disks + [flat], marks + [|steps'|], first, steps', end)
  {
    hide Shows, StepShows;
    var all, places := disks + [flat], marks + [|steps'|];
    forall a | 0 <= a < |all| ensures Shows(g, ContentsAt(first, steps', places[a]), all[a], all[a], end) {
      if a < |disks| { assert ContentsAt(first, steps', marks[a]) == ContentsAt(first, steps, marks[a]); }
    }
    forall a, k | 0 <= a < |all| - 1 && places[a] <= k < places[a + 1] ensures StepShows(g, steps'[k], all[a], all[a + 1], end) {
      if a < |disks| - 1 {
        assert marks[a + 1] <= |steps| && steps'[k] == steps[k];
      }
    }
  }

  // ----- one command -----

  /** A write request on an open disk. */
  method ExecuteWrite(disk: PreservationDisk, ts: Time, sec: nat, data: seq<byte>, pad: seq<byte>)
    requires disk.Valid() && !disk.readOnly && Stamp(ts) && Fits(disk.g, Write(ts, sec, data)) && |pad| == 6
    requires disk.Reach() + (|data| / SECTOR + 1) * 8192 < LIMIT
    modifies disk`store, disk.bio, disk.bio.readBuffer, disk.bio.buffer, disk.file, disk.index
    ensures disk.Valid() && disk.Reach() <= old(disk.Reach()) + (|data| / SECTOR + 1) * 8192
    ensures old(disk.bio.stale) ==> disk.bio.stale
    ensures disk.store.saved == old(disk.store.saved) && old(disk.store.hist) <= disk.store.hist
    ensures disk.g.Valid() && WellFormed(disk.g, old(disk.store.hist))
    ensures !disk.bio.stale ==> disk.store.hist == Commit(disk.g, old(disk.store.hist), Write(ts, sec, data))
    ensures Sound(disk.g, old(disk.Traced()))
    ensures disk.Traced() == Committed(disk.g, old(disk.Traced()), Write(ts, sec, data), disk.bio.clearsWindow)
  {
    hide Committed, Commit;
    RecordUnder(disk.store, 0, Now);
    var ok := disk.PdWrite(ts, pad, sec, |data| / SECTOR, data);
  }

  method ExecuteRead(disk: PreservationDisk, sec: nat, secs: nat) returns (output: seq<seq<byte>>)
    requires disk.Valid() && !disk.readOnly && Servable(disk.g, sec, secs)
    modifies disk.bio`readBufferPos, disk.bio`readBufferEnable, disk.bio`validEnd, disk.bio`stale, disk.bio`touched, disk.bio.readBuffer
    modifies disk.index, disk.cacheEnable, disk.cachedSize
    ensures disk.Valid()
    ensures old(disk.bio.stale) ==> disk.bio.stale
    ensures !disk.bio.stale ==> output == FlatAnswer(disk.g, DiskOf(disk.store), DoRead(sec, secs))
    ensures Sound(disk.g, old(disk.Traced())) && disk.Traced() == Fetched(disk.g, old(disk.Traced()), sec, secs)
  {
    hide Fetched;
    var out := new byte[secs * SECTOR];
    var ok := disk.PdRead(sec, secs, out);
    output := [out[..]];
  }

  /** pd_finalize, then pd_initialize on the same file. */
  method ExecuteReopen(disk: PreservationDisk) returns (d: PreservationDisk)
    requires disk.Valid() && !disk.readOnly && disk.Reach() < LIMIT
    modifies disk`store, disk.bio, disk.file, disk.header
    ensures Private(d) && d.Valid() && d.file == disk.file && !d.readOnly && d.g == disk.g && !d.bio.stale
    ensures Closed(d, disk.before, old(disk.store.saved), old(disk.store.hist), old(disk.Reach()))
    ensures d.bio.clearsWindow == disk.bio.clearsWindow
    ensures Sound(d.g, old(disk.Traced())) && (!old(disk.bio.stale) ==> d.Traced() == Renewed(d.g, old(disk.Traced())))
  {
    hide StepRecovers, Renewed, Holds, Chained;
    disk.PdFinalize();
    d := new PreservationDisk(disk.file, false, Time(0, 0), disk.bio.clearsWindow, disk.store);
  }

  /** Every object behind the disk is new. */
  twostate predicate Private(new disk: PreservationDisk)
  {
    && fresh(disk) && fresh(disk.bio) && fresh(disk.bio.readBuffer) && fresh(disk.bio.buffer)
    && fresh(disk.header) && fresh(disk.index) && fresh(disk.cacheEnable) && fresh(disk.cachedSize)
  }

  /** `d` has been opened after a session on the image with the writes `before`, whose log ended at `reach`. */
  ghost predicate Closed(d: PreservationDisk, before: seq<FileStep>, saved: nat, hist: seq<Version>, reach: nat)
    reads d`store, d.bio, d.file
  {
    && d.store.hist == hist && d.store.saved == |hist| && d.store.next == d.Reach() == reach
    && d.before == d.file.steps && before <= d.before && AtRest(d.store)
    && forall k :: |before| <= k < |d.before| ==> StepRecovers(d.g, d.before[k], hist, saved, reach)
  }

  /** What is known of the trace when `bad` says that a read has been stale. */
  function Told(bad: bool, t: Trace): Trace { if bad then Lost else t }

  /** One command. `bad` says whether a stale window has served a read before, `bad'` whether it has by now. */
  method Execute(disk: PreservationDisk, c: Command, pad: seq<byte>, ghost bad: bool)
    returns (d: PreservationDisk, output: seq<seq<byte>>, ghost bad': bool)
    requires disk.Valid() && !disk.readOnly && Permitted(disk.g, c) && |pad| == 6
    requires (disk.bio.stale ==> bad) && disk.Reach() + Cost(c) < LIMIT
    modifies disk`store, disk.bio, disk.bio.readBuffer, disk.bio.buffer, disk.file, disk.header
    modifies disk.index, disk.cacheEnable, disk.cachedSize
    ensures (d == disk || Private(d)) && d.Valid() && d.file == disk.file && !d.readOnly && d.g == disk.g
    ensures d.Reach() <= old(disk.Reach()) + Cost(c)
    ensures (bad ==> bad') && (d.bio.stale ==> bad')
    ensures d.bio.clearsWindow == disk.bio.clearsWindow
    ensures disk.g.Valid() && WellFormed(disk.g, old(disk.store.hist))
    ensures !bad' ==> d.store.hist == HistCommand(disk.g, old(disk.store.hist), c)
    ensures !bad' ==> output == FlatAnswer(disk.g, DiskOf(old(disk.store)), c)
    ensures Sound(disk.g, Told(bad, old(disk.Traced())))
    ensures Told(bad', d.Traced()) == TraceOf(disk.g, Told(bad, old(disk.Traced())), c, disk.bio.clearsWindow)
    ensures if c.Reopen? then Closed(d, disk.before, old(disk.store.saved), old(disk.store.hist), old(disk.Reach()))
            else d == disk && d.store.saved == old(disk.store.saved) && old(disk.store.hist) <= d.store.hist
  {
    hide Committed, Fetched, Renewed, Commit, DiskOf, StepRecovers;
    RecordUnder(disk.store, 0, Now);
    d, output := disk, [];
    LostStays(disk.g, c, disk.bio.clearsWindow);
    match c
    case DoWrite(ts, sec, data) =>
      ExecuteWrite(disk, ts, sec, data, pad);
      bad' := bad || disk.bio.stale;
    case DoRead(sec, secs) =>
      output := ExecuteRead(disk, sec, secs);
      bad' := bad || disk.bio.stale;
    case Reopen =>
      d := ExecuteReopen(disk);
      bad' := bad;
  }

  // ----- where a run stands -----

  /** A history and the disk that it shows. */
  ghost predicate Base(g: Geometry, hist: seq<Version>, flat: seq<byte>) {
    g.Valid() && WellFormed(g, hist) && |flat| == g.DiskSize() && Agrees(g, hist, flat)
  }

  /** Where a run stands after `i` commands. */
  ghost predicate Progress(g: Geometry, start: nat, h0: seq<Version>, f0: seq<byte>, cmds: seq<Command>, i: nat,
                           hist: seq<Version>, outputs: seq<seq<byte>>, reach: nat, bad: bool)
  {
    && i <= |cmds| && Base(g, h0, f0) && AllPermitted(g, cmds) && AllPermitted(g, cmds[..i])
    && reach <= start + Growth(cmds[..i])
    && (bad || (hist == HistAfter(g, h0, cmds[..i]) && outputs == FlatOutputs(g, f0, cmds[..i])))
  }

  lemma ProgressStarts(g: Geometry, start: nat, h0: seq<Version>, f0: seq<byte>, cmds: seq<Command>)
    requires Base(g, h0, f0) && AllPermitted(g, cmds)
    ensures Progress(g, start, h0, f0, cmds, 0, h0, [], start, false)
  {
  }

  lemma ProgressNext(g: Geometry, start: nat, h0: seq<Version>, f0: seq<byte>, cmds: seq<Command>, i: nat,
                     hist: seq<Version>, outputs: seq<seq<byte>>, reach: nat, bad: bool)
    requires Progress(g, start, h0, f0, cmds, i, hist, outputs, reach, bad) && i < |cmds|
    ensures Permitted(g, cmds[i]) && reach + Cost(cmds[i]) <= start + Growth(cmds)
    ensures g.Valid() && AllPermitted(g, cmds) && |f0| == g.DiskSize()
    ensures AllPermitted(g, cmds[..i]) && (bad || (WellFormed(g, hist) && Agrees(g, hist, FlatAfter(g, f0, cmds[..i]))))
  {
    hide HistAfter, FlatAfter, FlatOutputs, Agrees, Permitted, WellFormed;
    FlatStep(g, f0, cmds, i);
    GrowthMonotone(cmds, i + 1);
    RunAgrees(g, h0, f0, cmds[..i]);
  }

  lemma ProgressStep(g: Geometry, start: nat, h0: seq<Version>, f0: seq<byte>, cmds: seq<Command>, i: nat,
                     hist: seq<Version>, outputs: seq<seq<byte>>, reach: nat, bad: bool,
                     hist': seq<Version>, output: seq<seq<byte>>, reach': nat, bad': bool)
    requires Progress(g, start, h0, f0, cmds, i, hist, outputs, reach, bad) && i < |cmds| && Permitted(g, cmds[i])
    requires (bad ==> bad') && reach' <= reach + Cost(cmds[i]) && WellFormed(g, hist)
    requires AllPermitted(g, cmds[..i])
    requires bad' || (hist' == HistCommand(g, hist, cmds[i]) && output == FlatAnswer(g, FlatAfter(g, f0, cmds[..i]), cmds[i]))
    ensures Progress(g, start, h0, f0, cmds, i + 1, hist', outputs + output, reach', bad')
  {
    hide HistCommand, FlatCommand, FlatAnswer, FlatAfter, HistAfter, FlatOutputs, Agrees, Permitted, Cost;
    FlatStep(g, f0, cmds, i);
    HistStep(g, h0, cmds, i);
  }

  lemma ProgressEnds(g: Geometry, start: nat, h0: seq<Version>, f0: seq<byte>, cmds: seq<Command>,
                     hist: seq<Version>, outputs: seq<seq<byte>>, reach: nat, bad: bool)
    requires Progress(g, start, h0, f0, cmds, |cmds|, hist, outputs, reach, bad)
    ensures Base(g, h0, f0) && AllPermitted(g, cmds) && reach <= start + Growth(cmds)
    ensures !bad ==> hist == HistAfter(g, h0, cmds) && outputs == FlatOutputs(g, f0, cmds)
    ensures !bad ==> WellFormed(g, hist) && Agrees(g, hist, FlatAfter(g, f0, cmds))
  {
    hide HistAfter, FlatAfter, FlatOutputs, Agrees;
    assert cmds[..|cmds|] == cmds;
    RunAgrees(g, h0, f0, cmds);
  }

  /** The writes of the whole sessions so far are safe; the present one started, after the writes `before`, on an image
      that held the first `saved` versions. */
  ghost predicate Guarded(g: Geometry, f0: seq<byte>, cmds: seq<Command>, i: nat, steps0: nat, marks: seq<nat>, first: seq<byte>,
                          before: seq<FileStep>, hist: seq<Version>, saved: nat, end: nat, bad: bool)
  {
    && i <= |cmds| && |f0| == g.DiskSize() && AllPermitted(g, cmds[..i]) && saved <= |hist|
    && marks != [] && marks[0] == steps0 <= |before| && marks[|marks| - 1] == |before|
    && (forall k :: steps0 <= k < |before| ==> StepOpens(g, before[k], end))
    && (bad || (Safe(g, Disks(g, f0, cmds[..i]), marks, first, before, end)
                && WellFormed(g, hist[..saved]) && Agrees(g, hist[..saved], LastDisk(g, f0, cmds[..i]))))
  }

  lemma GuardedStarts(s: OpenStore, cmds: seq<Command>, first: seq<byte>, steps: seq<FileStep>, end: nat)
    requires AtRest(s) && Chained(first, steps, s.data) && s.next <= end
    ensures Guarded(s.g, DiskOf(s), cmds, 0, |steps|, [|steps|], first, steps, s.hist, s.saved, end, false)
  {
    hide DiskOf, Holds, Agrees, Shows;
    var flat := DiskOf(s);
    AtRestIsImage(s);
    LastContents(first, steps, s.data);
    HoldsShows(s.g, s.data, s.hist, s.offs, s.next, flat, end);
    SafeStarts(s.g, flat, first, steps, end);
    assert s.hist[..s.saved] == s.hist;
  }

  /** A session that goes on. */
  lemma GuardedGoesOn(g: Geometry, f0: seq<byte>, cmds: seq<Command>, i: nat, steps0: nat, marks: seq<nat>, first: seq<byte>,
                      before: seq<FileStep>, hist: seq<Version>, saved: nat, end: nat, bad: bool, hist': seq<Version>, bad': bool)
    requires AllPermitted(g, cmds) && i < |cmds| && !cmds[i].Reopen? && hist <= hist' && (bad ==> bad')
    requires Guarded(g, f0, cmds, i, steps0, marks, first, before, hist, saved, end, bad)
    ensures Guarded(g, f0, cmds, i + 1, steps0, marks, first, before, hist', saved, end, bad')
  {
    hide Safe, StepOpens, Agrees, FlatAfter, Disks;
    FlatStep(g, f0, cmds, i);
    assert hist'[..saved] == hist[..saved];
    assert Disks(g, f0, cmds[..i + 1]) == Disks(g, f0, cmds[..i]);
  }

  /** A session that ends, with a reopen or with the run: it has led to `flat`. */
  lemma SessionEnds(g: Geometry, f0: seq<byte>, cmds: seq<Command>, i: nat, steps0: nat, marks: seq<nat>, first: seq<byte>,
                    before: seq<FileStep>, s: OpenStore, saved: nat, end: nat, bad: bool, steps: seq<FileStep>, flat: seq<byte>)
    requires Guarded(g, f0, cmds, i, steps0, marks, first, before, s.hist, saved, end, bad) && s.g == g && AtRest(s)
    requires before <= steps && Chained(first, steps, s.data) && s.next <= end
    requires forall k :: |before| <= k < |steps| ==> StepRecovers(g, steps[k], s.hist, saved, s.next)
    requires bad || (|flat| == g.DiskSize() && WellFormed(g, s.hist) && Agrees(g, s.hist, flat))
    ensures marks != [] && marks[0] == steps0 <= marks[|marks| - 1] <= |steps|
    ensures forall k :: steps0 <= k < |steps| ==> StepOpens(g, steps[k], end)
    ensures bad || Safe(g, Disks(g, f0, cmds[..i]) + [flat], marks + [|steps|], first, steps, end)
  {
    hide StepRecovers, StepShows, StepOpens, Agrees, Shows, Safe, Disks, Holds;
    forall k | steps0 <= k < |steps| ensures StepOpens(g, steps[k], end) {
      if k < |before| {
        assert steps[k] == before[k];
      } else {
        RecoversOpens(g, steps[k], s.hist, saved, s.next, end);
      }
    }
    if !bad {
      var disks := Disks(g, f0, cmds[..i]);
      AtRestIsImage(s);
      LastContents(first, steps, s.data);
      HoldsShows(g, s.data, s.hist, s.offs, s.next, flat, end);
      forall k | |before| <= k < |steps| ensures StepShows(g, steps[k], disks[|disks| - 1], flat, end) {
        RecoversShows(g, steps[k], s.hist, saved, s.next, disks[|disks| - 1], flat, end);
      }
      SafeGrows(g, disks, marks, first, before, end, steps, flat);
    }
  }

  lemma GuardedAgain(g: Geometry, f0: seq<byte>, cmds: seq<Command>, i: nat, steps0: nat, marks: seq<nat>, first: seq<byte>,
                     before: seq<FileStep>, s: OpenStore, saved: nat, end: nat, bad: bool, steps: seq<FileStep>, bad': bool)
    requires AllPermitted(g, cmds) && i < |cmds| && (bad ==> bad') && cmds[i].Reopen? && AllPermitted(g, cmds[..i]) && |f0| == g.DiskSize()
    requires Guarded(g, f0, cmds, i, steps0, marks, first, before, s.hist, saved, end, bad) && s.g == g && AtRest(s)
    requires before <= steps && Chained(first, steps, s.data) && s.next <= end
    requires forall k :: |before| <= k < |steps| ==> StepRecovers(g, steps[k], s.hist, saved, s.next)
    requires bad || (WellFormed(g, s.hist) && Agrees(g, s.hist, FlatAfter(g, f0, cmds[..i])))
    ensures Guarded(g, f0, cmds, i + 1, steps0, marks + [|steps|], first, steps, s.hist, s.saved, end, bad')
  {
    hide StepRecovers, StepOpens, Agrees, Safe, Disks, FlatAfter;
    SessionEnds(g, f0, cmds, i, steps0, marks, first, before, s, saved, end, bad, steps, FlatAfter(g, f0, cmds[..i]));
    FlatStep(g, f0, cmds, i);
    assert s.hist[..s.saved] == s.hist;
  }

  // ----- running the commands -----

  /** The padding bytes of the headers that each command writes. */
  predicate PaddingFor(pads: seq<seq<byte>>, cmds: seq<Command>) {
    |pads| == |cmds| && forall i :: 0 <= i < |pads| ==> |pads[i]| == 6
  }

  /** One round of a run. */
  method Advance(disk: PreservationDisk, cmds: seq<Command>, i: nat, pads: seq<seq<byte>>, outputs: seq<seq<byte>>, marks: seq<nat>,
                 ghost start: nat, ghost h0: seq<Version>, ghost f0: seq<byte>, ghost t0: Trace, ghost steps0: nat, ghost bad: bool)
    returns (d: PreservationDisk, outputs': seq<seq<byte>>, marks': seq<nat>, ghost bad': bool)
    requires disk.Valid() && !disk.readOnly && PaddingFor(pads, cmds) && start + Growth(cmds) < LIMIT
    requires Progress(disk.g, start, h0, f0, cmds, i, disk.store.hist, outputs, disk.Reach(), bad) && i < |cmds|
    requires (disk.bio.stale ==> bad) && Sound(disk.g, t0)
    requires Told(bad, disk.Traced()) == TraceAll(disk.g, t0, cmds[..i], disk.bio.clearsWindow)
    requires Guarded(disk.g, f0, cmds, i, steps0, marks, disk.file.origin, disk.before, disk.store.hist, disk.store.saved,
                     start + Growth(cmds), bad)
    modifies disk`store, disk.bio, disk.bio.readBuffer, disk.bio.buffer, disk.file, disk.header
    modifies disk.index, disk.cacheEnable, disk.cachedSize
    ensures (d == disk || Private(d)) && d.Valid() && d.file == disk.file && !d.readOnly && d.g == disk.g
    ensures Progress(d.g, start, h0, f0, cmds, i + 1, d.store.hist, outputs', d.Reach(), bad')
    ensures d.bio.clearsWindow == disk.bio.clearsWindow && (d.bio.stale ==> bad') && outputs <= outputs'
    ensures Told(bad', d.Traced()) == TraceAll(d.g, t0, cmds[..i + 1], disk.bio.clearsWindow)
    ensures Guarded(d.g, f0, cmds, i + 1, steps0, marks', d.file.origin, d.before, d.store.hist, d.store.saved,
                    start + Growth(cmds), bad')
  {
    hide FlatOutputs, FlatAfter, HistAfter, HistCommand, FlatAnswer, DiskOf, TraceOf, TraceAll, StepRecovers, StepOpens, Guarded, Progress, Agrees, Permitted, AllPermitted, Chained, Cost, Growth, PreservationDisk.Valid, PreservationDisk.Traced, PreservationDisk.Reach, AtRest, WellFormed, Sound;
    ghost var g, s, hist, reach, saved, before := disk.g, disk.store, disk.store.hist, disk.Reach(), disk.store.saved, disk.before;
    OpenParts(disk);
    ProgressNext(g, start, h0, f0, cmds, i, hist, outputs, reach, bad);
    TraceStep(g, t0, cmds, i, disk.bio.clearsWindow);
    var output;
    d, output, bad' := Execute(disk, cmds[i], pads[i], bad);
    if !bad' { SameDisk(s, FlatAfter(g, f0, cmds[..i])); }
    ProgressStep(g, start, h0, f0, cmds, i, hist, outputs, reach, bad, d.store.hist, output, d.Reach(), bad');
    outputs' := outputs + output;
    if cmds[i].Reopen? {
      OpenParts(d);
      GuardedAgain(g, f0, cmds, i, steps0, marks, d.file.origin, before, d.store, saved, start + Growth(cmds), bad, d.before, bad');
      marks' := marks + [|d.file.steps|];
    } else {
      GuardedGoesOn(g, f0, cmds, i, steps0, marks, d.file.origin, before, hist, saved, start + Growth(cmds), bad, d.store.hist, bad');
      marks' := marks;
    }
  }

  lemma OpenParts(disk: PreservationDisk)
    requires disk.Valid()
    ensures disk.store.g == disk.g && disk.store.data == disk.file.data && disk.file.Valid() && disk.before <= disk.file.steps
  {
  }

  lemma SameDisk(s: OpenStore, flat: seq<byte>)
    requires |flat| == s.g.DiskSize() && WellFormed(s.g, s.hist) && Agrees(s.g, s.hist, flat)
    ensures DiskOf(s) == flat
  {
    AgreesIsShow(s.g, s.hist, flat);
  }

  /** Until a read goes stale, every read has returned what the flat disk returns. */
  ghost predicate Answered(g: Geometry, flat: seq<byte>, cmds: seq<Command>, n: nat, t0: Trace, clears: bool, outputs: seq<seq<byte>>)
    requires g.Valid() && |flat| == g.DiskSize() && AllPermitted(g, cmds) && Sound(g, t0) && n <= |cmds|
  {
    forall k :: 0 <= k <= n ==>
      AllPermitted(g, cmds[..k]) && (RunStale(g, t0, cmds[..k], clears) || FlatOutputs(g, flat, cmds[..k]) <= outputs)
  }

  lemma AnsweredStarts(g: Geometry, flat: seq<byte>, cmds: seq<Command>, t0: Trace, clears: bool)
    requires g.Valid() && |flat| == g.DiskSize() && AllPermitted(g, cmds) && Sound(g, t0)
    ensures Answered(g, flat, cmds, 0, t0, clears, [])
  {
  }

  lemma AnsweredStep(g: Geometry, start: nat, h0: seq<Version>, f0: seq<byte>, cmds: seq<Command>, i: nat, t0: Trace, clears: bool,
                     outputs: seq<seq<byte>>, hist: seq<Version>, outputs': seq<seq<byte>>, reach: nat, bad: bool, t: Trace)
    requires g.Valid() && |f0| == g.DiskSize() && AllPermitted(g, cmds) && Sound(g, t0) && i < |cmds|
    requires Answered(g, f0, cmds, i, t0, clears, outputs) && outputs <= outputs'
    requires Progress(g, start, h0, f0, cmds, i + 1, hist, outputs', reach, bad)
    requires Told(bad, t) == TraceAll(g, t0, cmds[..i + 1], clears)
    ensures Answered(g, f0, cmds, i + 1, t0, clears, outputs')
  {
    hide FlatOutputs, HistAfter, TraceAll, Base;
  }

  /** All rounds of a run on an image that has just been opened. */
  method AdvanceAll(disk0: PreservationDisk, cmds: seq<Command>, pads: seq<seq<byte>>)
    returns (disk: PreservationDisk, outputs: seq<seq<byte>>, marks: seq<nat>, ghost stale: bool)
    requires disk0.Valid() && !disk0.readOnly && !disk0.bio.stale && disk0.before == disk0.file.steps && AtRest(disk0.store)
    requires disk0.Traced() == Start(disk0.store) && disk0.Reach() == disk0.store.next
    requires AllPermitted(disk0.g, cmds) && PaddingFor(pads, cmds) && disk0.store.next + Growth(cmds) < LIMIT
    modifies disk0`store, disk0.bio, disk0.bio.readBuffer, disk0.bio.buffer, disk0.file, disk0.header
    modifies disk0.index, disk0.cacheEnable, disk0.cachedSize
    ensures (disk == disk0 || Private(disk)) && disk.Valid() && disk.file == disk0.file && !disk.readOnly && disk.g == disk0.g
    ensures (disk.bio.stale ==> stale) && disk.bio.clearsWindow == disk0.bio.clearsWindow
    ensures var s0 := old(disk0.store);
      && s0.g == disk.g && Sound(disk.g, Start(s0))
      && Progress(disk.g, s0.next, s0.hist, DiskOf(s0), cmds, |cmds|, disk.store.hist, outputs, disk.Reach(), stale)
      && Told(stale, disk.Traced()) == TraceAll(disk.g, Start(s0), cmds, disk0.bio.clearsWindow)
      && Answered(disk.g, DiskOf(s0), cmds, |cmds|, Start(s0), disk0.bio.clearsWindow, outputs)
      && Guarded(disk.g, DiskOf(s0), cmds, |cmds|, |old(disk0.file.steps)|, marks, disk.file.origin, disk.before,
                 disk.store.hist, disk.store.saved, s0.next + Growth(cmds), stale)
  {
    hide FlatOutputs, HistAfter, FlatAfter, Progress, AllPermitted, TraceAll, Guarded, Answered, PreservationDisk.Valid, PreservationDisk.Reach,
      PreservationDisk.Traced, Permitted, Sound, Growth, DiskOf, Start, Chained, AtRest, Agrees, PaddingFor;
    ghost var s0, g, clears, steps0 := disk0.store, disk0.g, disk0.bio.clearsWindow, |disk0.file.steps|;
    ghost var f0, t0 := DiskOf(s0), Start(s0);
    Begins(disk0, cmds);
    disk, outputs, marks, stale := disk0, [], [|disk0.file.steps|], false;
    var i: nat := 0;
    while i < |cmds|
      invariant i <= |cmds| && Progress(g, s0.next, s0.hist, f0, cmds, i, disk.store.hist, outputs, disk.Reach(), stale)
      invariant (disk == disk0 || Private(disk)) && disk.Valid() && disk.file == disk0.file && !disk.readOnly && disk.g == g
      invariant disk.bio.clearsWindow == clears && (disk.bio.stale ==> stale)
      invariant AllPermitted(g, cmds[..i]) && Told(stale, disk.Traced()) == TraceAll(g, t0, cmds[..i], clears)
      invariant Guarded(g, f0, cmds, i, steps0, marks, disk.file.origin, disk.before, disk.store.hist, disk.store.saved,
                        s0.next + Growth(cmds), stale)
      invariant Answered(g, f0, cmds, i, t0, clears, outputs)
    {
      ghost var sofar := outputs;
      TraceStep(g, t0, cmds, i, clears);
      disk, outputs, marks, stale := Advance(disk, cmds, i, pads, outputs, marks, s0.next, s0.hist, f0, t0, steps0, stale);
      AnsweredStep(g, s0.next, s0.hist, f0, cmds, i, t0, clears, sofar, disk.store.hist, outputs, disk.Reach(), stale, disk.Traced());
      i := i + 1;
    }
    assert cmds[..i] == cmds;
  }

  lemma Begins(disk: PreservationDisk, cmds: seq<Command>)
    requires disk.Valid() && !disk.bio.stale && disk.before == disk.file.steps && AtRest(disk.store)
    requires disk.Traced() == Start(disk.store) && disk.Reach() == disk.store.next && AllPermitted(disk.g, cmds)
    ensures var s := disk.store;
      && s.g == disk.g && disk.g.Valid() && Sound(disk.g, Start(s)) && AllPermitted(disk.g, cmds[..0])
      && Progress(disk.g, s.next, s.hist, DiskOf(s), cmds, 0, s.hist, [], disk.Reach(), false)
      && Told(false, disk.Traced()) == TraceAll(disk.g, Start(s), cmds[..0], disk.bio.clearsWindow)
      && Answered(disk.g, DiskOf(s), cmds, 0, Start(s), disk.bio.clearsWindow, [])
      && Guarded(disk.g, DiskOf(s), cmds, 0, |disk.file.steps|, [|disk.file.steps|], disk.file.origin, disk.before,
                 s.hist, s.saved, s.next + Growth(cmds), false)
  {
    hide Progress, Guarded, Answered, DiskOf, Chained, Agrees;
    var s := disk.store;
    StartSound(s);
    ProgressStarts(disk.g, s.next, s.hist, DiskOf(s), cmds);
    AnsweredStarts(disk.g, DiskOf(s), cmds, Start(s), disk.bio.clearsWindow);
    GuardedStarts(s, cmds, disk.file.origin, disk.file.steps, s.next + Growth(cmds));
  }

  /** The refinement theorem: a run of writes, reads and reopens on any image reads what a flat disk reads that
      starts as the image shows it, up to the first read that is served by a stale window, and if there is none,
      leaves an image with the history of all writes. Whether and when there is one is determined by the commands, as
      RunStale says. `marks` cuts the writes of the file into those of the sessions, and each session is safe. */
  method Run(file: ImageFile, cmds: seq<Command>, pads: seq<seq<byte>>, clears: bool, ghost s0: OpenStore)
    returns (outputs: seq<seq<byte>>, marks: seq<nat>, ghost stale: bool, ghost s: OpenStore)
    requires AtRest(s0) && s0.data == file.data && file.Valid()
    requires AllPermitted(s0.g, cmds) && PaddingFor(pads, cmds) && s0.next + Growth(cmds) < LIMIT
    modifies file
    ensures AtRest(s) && s.g == s0.g && s.data == file.data && s.next <= s0.next + Growth(cmds)
    ensures s0.g.Valid() && Sound(s0.g, Start(s0)) && stale == RunStale(s0.g, Start(s0), cmds, clears)
    ensures WellFormed(s0.g, s0.hist) && (!stale ==> s.hist == HistAfter(s0.g, s0.hist, cmds))
    ensures !stale ==> outputs == FlatOutputs(s0.g, DiskOf(s0), cmds)
    ensures Answered(s0.g, DiskOf(s0), cmds, |cmds|, Start(s0), clears, outputs)
    ensures file.Valid() && |marks| >= 2 && marks[0] == |old(file.steps)| && marks[|marks| - 1] == |file.steps|
    ensures |old(file.steps)| <= marks[|marks| - 2] <= |file.steps|
    ensures forall k :: |old(file.steps)| <= k < |file.steps| ==> StepOpens(s0.g, file.steps[k], s0.next + Growth(cmds))
    ensures !stale ==>
      Safe(s0.g, Disks(s0.g, DiskOf(s0), cmds) + [FlatAfter(s0.g, DiskOf(s0), cmds)], marks, file.origin, file.steps, s0.next + Growth(cmds))
  {
    hide FlatOutputs, HistAfter, FlatAfter, Disks, Progress, Guarded, AllPermitted, TraceAll, Answered, PreservationDisk.Traced, PreservationDisk.Valid, Permitted, Sound, Growth, DiskOf, Chained, AtRest, Agrees, PaddingFor, Safe, StepOpens, StepRecovers, Holds;
    RestSaved(s0);
    var disk := new PreservationDisk(file, false, Time(0, 0), clears, s0);
    TraceOpened(disk, s0);
    disk, outputs, marks, stale := AdvanceAll(disk, cmds, pads);
    ProgressEnds(s0.g, s0.next, s0.hist, DiskOf(s0), cmds, disk.store.hist, outputs, disk.Reach(), stale);
    ghost var saved := disk.store.saved;
    disk.PdFinalize();
    s := disk.store;
    SessionEnds(s0.g, DiskOf(s0), cmds, |cmds|, |old(file.steps)|, marks, file.origin, disk.before, s, saved,
      s0.next + Growth(cmds), stale, file.steps, FlatAfter(s0.g, DiskOf(s0), cmds));
    assert cmds[..|cmds|] == cmds;
    marks := marks + [|file.steps|];
  }

  lemma TraceOpened(disk: PreservationDisk, s: OpenStore)
    requires disk.Valid() && disk.store == s && !disk.bio.stale && disk.bio.State() == Start(s).window && disk.bio.bufferPos == 0
    ensures disk.Traced() == Start(s) && disk.Reach() == s.next
  {
  }

  lemma RestSaved(s: OpenStore)
    requires AtRest(s)
    ensures s.saved == |s.hist| && s.savedNext == s.next
  {
  }

  // ----- runs that are cut off -----

  /** What an open disk leaves if the session never ends. */
  lemma OpenShows(disk: PreservationDisk, flat: seq<byte>, end: nat)
    requires disk.Valid() && |flat| == disk.g.DiskSize() && disk.store.saved <= |disk.store.hist| && disk.Reach() <= end
    requires WellFormed(disk.g, disk.store.hist[..disk.store.saved]) && Agrees(disk.g, disk.store.hist[..disk.store.saved], flat)
    ensures Shows(disk.g, disk.file.data, flat, flat, end)
    ensures forall k :: |disk.before| <= k < |disk.file.steps| ==> StepShows(disk.g, disk.file.steps[k], flat, flat, end)
  {
    hide Agrees, Holds, Shows, StepKeeps, StepShows, Chained;
    var s := disk.store;
    HoldsShows(disk.g, s.data, s.hist[..s.saved], s.offs[..s.saved], s.savedNext, flat, end);
    forall k | |disk.before| <= k < |disk.file.steps| ensures StepShows(disk.g, disk.file.steps[k], flat, flat, end) {
      KeepsShows(disk.g, disk.file.steps[k], s.hist[..s.saved], s.offs[..s.saved], s.savedNext, flat, end);
    }
  }

  /** A run that is cut off: the image shows exactly the disk of the last reopen, and so it does after a crash during
      any write of the last session, the writes from the last mark on. */
  method Interrupted(file: ImageFile, cmds: seq<Command>, pads: seq<seq<byte>>, clears: bool, ghost s0: OpenStore)
    returns (outputs: seq<seq<byte>>, marks: seq<nat>)
    requires AtRest(s0) && s0.data == file.data && file.Valid()
    requires AllPermitted(s0.g, cmds) && PaddingFor(pads, cmds) && s0.next + Growth(cmds) < LIMIT
    modifies file
    ensures s0.g.Valid() && Sound(s0.g, Start(s0)) && Answered(s0.g, DiskOf(s0), cmds, |cmds|, Start(s0), clears, outputs)
    ensures file.Valid() && marks != [] && marks[0] == |old(file.steps)| && marks[|marks| - 1] <= |file.steps|
    ensures var end, last := s0.next + Growth(cmds), LastDisk(s0.g, DiskOf(s0), cmds);
      !RunStale(s0.g, Start(s0), cmds, clears) ==>
        && Safe(s0.g, Disks(s0.g, DiskOf(s0), cmds), marks, file.origin, file.steps[..marks[|marks| - 1]], end)
        && Shows(s0.g, file.data, last, last, end)
        && forall k :: marks[|marks| - 1] <= k < |file.steps| ==> StepShows(s0.g, file.steps[k], last, last, end)
  {
    hide FlatOutputs, HistAfter, FlatAfter, Progress, AllPermitted, TraceAll, Answered, PreservationDisk.Traced, PreservationDisk.Valid,
      Permitted, Sound, Growth, DiskOf, Chained, AtRest, Agrees, PaddingFor, Safe, StepOpens, StepShows, Shows, Disks;
    RestSaved(s0);
    var disk := new PreservationDisk(file, false, Time(0, 0), clears, s0);
    TraceOpened(disk, s0);
    ghost var stale;
    disk, outputs, marks, stale := AdvanceAll(disk, cmds, pads);
    ProgressEnds(s0.g, s0.next, s0.hist, DiskOf(s0), cmds, disk.store.hist, outputs, disk.Reach(), stale);
    OpenParts(disk);
    assert cmds[..|cmds|] == cmds && file.steps[..|disk.before|] == disk.before;
    if !stale {
      OpenShows(disk, LastDisk(s0.g, DiskOf(s0), cmds), s0.next + Growth(cmds));
    }
  }

  // ----- restore points -----

  datatype Request = Request(sec: nat, secs: nat)

  /** A read-only session at restore point `t`: whatever the order of the reads and however often a block
      has been read before, each returns the disk as a reader at `t` sees it, and the image stays as it is. */
  method TravelRun(file: ImageFile, t: Time, requests: seq<Request>, ghost s0: OpenStore) returns (outputs: seq<seq<byte>>)
    requires AtRest(s0) && s0.data == file.data && s0.next < LIMIT && file.Valid()
    requires forall r :: r in requests ==> Servable(s0.g, r.sec, r.secs)
    modifies file
    ensures file.data == old(file.data) && file.steps == old(file.steps)
    ensures WellFormed(s0.g, s0.hist) && |outputs| == |requests|
    ensures forall i :: 0 <= i < |requests| ==> ServedAt(s0.g, s0.hist, t, requests[i], outputs[i])
    ensures RegularStamps(s0.hist) && Regular(t) ==>
      forall i :: 0 <= i < |requests| ==> ServedBefore(s0.g, s0.hist, Nanos(t), requests[i], outputs[i])
  {
    hide AtRest, Servable, ServedAt, ServedBefore, RegularStamps, WellFormed, PreservationDisk.Valid;
    var disk := new PreservationDisk(file, true, t, false, s0);
    RecordUnder(s0, 0, Now);
    outputs := [];
    var i: nat := 0;
    while i < |requests|
      invariant i <= |requests| && disk.Valid() && Private(disk) && disk.file == file && disk.readOnly && disk.restore == t
      invariant disk.store == s0 && disk.g == s0.g && |outputs| == i
      invariant file.data == old(file.data) && file.steps == old(file.steps)
      invariant forall k :: 0 <= k < i ==> ServedAt(s0.g, s0.hist, t, requests[k], outputs[k])
    {
      assert requests[i] in requests;
      var out := TravelRead(disk, requests[i]);
      outputs := outputs + [out];
      i := i + 1;
    }
    NothingBuffered(disk);
    disk.PdFinalize();
    if RegularStamps(s0.hist) && Regular(t) {
      forall k | 0 <= k < |requests| ensures ServedBefore(s0.g, s0.hist, Nanos(t), requests[k], outputs[k]) {
        ServedInTime(s0.g, s0.hist, t, requests[k], outputs[k]);
      }
    }
  }

  /** Every byte is the one that the versions stamped in less than `limit` nanoseconds have left at its place. */
  ghost predicate ServedBefore(g: Geometry, hist: seq<Version>, limit: int, r: Request, out: seq<byte>) {
    && |out| == r.secs * SECTOR
    && forall k :: 0 <= k < |out| ==> ByteBefore(g, hist, r.sec * SECTOR + k, limit, out[k])
  }

  lemma ServedInTime(g: Geometry, hist: seq<Version>, t: Time, r: Request, out: seq<byte>)
    requires ServedAt(g, hist, t, r, out) && RegularStamps(hist) && Regular(t)
    ensures ServedBefore(g, hist, Nanos(t), r, out)
  {
    hide Show, ByteBefore, RegularStamps, Geometry.FirstSector;
    forall k | 0 <= k < |out| ensures ByteBefore(g, hist, r.sec * SECTOR + k, Nanos(t), out[k]) {
      ShowsByteBefore(g, hist, t, r.sec * SECTOR + k);
    }
  }

  lemma NothingBuffered(disk: PreservationDisk)
    requires disk.Valid() && disk.readOnly
    ensures disk.Reach() == disk.store.next
  {
  }

  ghost predicate ServedAt(g: Geometry, hist: seq<Version>, t: Time, r: Request, out: seq<byte>) {
    && Servable(g, r.sec, r.secs) && WellFormed(g, hist)
    && out == Show(g, hist, AsOf(t))[r.sec * SECTOR..(r.sec + r.secs) * SECTOR]
  }

  method TravelRead(disk: PreservationDisk, r: Request) returns (got: seq<byte>)
    requires disk.Valid() && disk.readOnly && Servable(disk.g, r.sec, r.secs)
    modifies disk.bio`readBufferPos, disk.bio`readBufferEnable, disk.bio`validEnd, disk.bio`stale, disk.bio`touched, disk.bio.readBuffer
    modifies disk.index, disk.cacheEnable, disk.cachedSize
    ensures disk.Valid()
    ensures ServedAt(disk.g, disk.store.hist, disk.restore, r, got)
  {
    var out := new byte[r.secs * SECTOR];
    var ok := disk.PdRead(r.sec, r.secs, out);
    got := out[..];
  }
}
