/** An image from mkimage.rb on: runs of the driver, crashes in between, and a session at a restore point. */
module Lifetime {
  import opened Bytes
  import opened Flat
  import opened Versions
  import opened TimeTravel
  import opened Requests
  import opened Log
  import opened Image
  import opened Store
  import opened Commands
  import opened Sessions
  import opened Widths
  import opened Files
  import opened Traces
  import opened Windows

  // ----- crashes -----

  /** Every block of `flat` is that of the one disk or that of the other. */
  ghost predicate Mixed(g: Geometry, f0: seq<byte>, f1: seq<byte>, flat: seq<byte>) {
    && |f0| == |f1| == |flat| == g.DiskSize()
    && forall b :: 0 <= b < g.blocks ==> Block(g, flat, b) == Block(g, f0, b) || Block(g, flat, b) == Block(g, f1, b)
  }

  lemma MixedIs(g: Geometry, h: seq<Version>, f0: seq<byte>, f1: seq<byte>, flat: seq<byte>)
    requires |f0| == |f1| == g.DiskSize() && EitherFlat(g, h, f0, f1) && flat == Show(g, h, Now)
    ensures Mixed(g, f0, f1, flat)
  {
    hide Show, BlockOf;
    forall b | 0 <= b < g.blocks ensures Block(g, flat, b) == Block(g, f0, b) || Block(g, flat, b) == Block(g, f1, b) {
      ShowIs(g, h, Now, b);
    }
  }

  lemma NotMixed(g: Geometry, flat: seq<byte>, f0: seq<byte>)
    requires |f0| == |flat| == g.DiskSize()
    ensures Mixed(g, f0, flat, flat)
  {
  }

  /** An image that has just been opened. */
  ghost function OpenedStore(g: Geometry, img: seq<byte>, h: seq<Version>, o: seq<nat>, next: nat): (s: OpenStore)
    requires Holds(g, img, h, o, next)
    ensures AtRest(s) && s.g == g && s.data == img && s.next == next && s.hist == h
  {
    StoreOpened(g, img, h, o, next);
    Snapshot(g, img, next, Padded(img, next), h, o, |h|, next)
  }

  /** What a crash leaves can be opened. */
  lemma CrashOpens(g: Geometry, img: seq<byte>, end: nat) returns (s: OpenStore)
    requires Opens(g, img, end)
    ensures AtRest(s) && s.g == g && s.data == img && s.next <= end
  {
    var h, o, next: nat :| Holds(g, img, h, o, next) && next <= end;
    s := OpenedStore(g, img, h, o, next);
  }

  lemma CrashShows(g: Geometry, img: seq<byte>, f0: seq<byte>, f1: seq<byte>, end: nat) returns (s: OpenStore)
    requires |f0| == |f1| == g.DiskSize() && Shows(g, img, f0, f1, end)
    ensures AtRest(s) && s.g == g && s.data == img && s.next <= end && Mixed(g, f0, f1, DiskOf(s))
  {
    hide Holds, Show;
    var h, o, next: nat :| Holds(g, img, h, o, next) && next <= end && EitherFlat(g, h, f0, f1);
    s := OpenedStore(g, img, h, o, next);
    MixedIs(g, h, f0, f1, DiskOf(s));
  }

  /** A run and how it ends: with the crash during write number `at` of its last session, or of pd_finalize behind it,
      that leaves `left(step)` of a write `step`; or with no crash, if there are not that many writes. A crash in an
      earlier session is the end of a shorter run. */
  datatype Life = Life(cmds: seq<Command>, pads: seq<seq<byte>>, at: nat, left: FileStep -> seq<byte>)

  ghost predicate Proper(g: Geometry, life: Life) {
    && AllPermitted(g, life.cmds) && PaddingFor(life.pads, life.cmds)
    && forall s: FileStep :: |s.before| <= |s.after| ==> Torn(s, life.left(s))
  }

  /** What a life makes of the disk, if no read of it is stale: every block is as at the last reopen, or as after
      the last command. */
  ghost predicate Leads(g: Geometry, flat: seq<byte>, life: Life, flat': seq<byte>)
    requires |flat| == g.DiskSize() && AllPermitted(g, life.cmds)
  {
    Mixed(g, LastDisk(g, flat, life.cmds), FlatAfter(g, flat, life.cmds), flat')
  }

  /** Some read of the life is stale. */
  ghost predicate Stale(s: OpenStore, life: Life, clears: bool)
    requires AllPermitted(s.g, life.cmds)
  {
    StartSound(s);
    RunStale(s.g, Start(s), life.cmds, clears)
  }

  /** Until a read goes stale, the life has read what the flat disk returns. */
  ghost predicate Lived(s: OpenStore, life: Life, clears: bool, outputs: seq<seq<byte>>)
    requires AllPermitted(s.g, life.cmds)
  {
    StartSound(s);
    Answered(s.g, DiskOf(s), life.cmds, |life.cmds|, Start(s), clears, outputs)
  }

  /** The crash of a life, on the file of its run. */
  method Crash(file: ImageFile, life: Life, marks: seq<nat>, ghost s: OpenStore, ghost end: nat, ghost steps0: nat, ghost stale: bool,
               ghost flat: seq<byte>)
    returns (file': ImageFile, ghost s': OpenStore)
    requires file.Valid() && AtRest(s) && s.data == file.data && s.next <= end && Proper(s.g, life) && |flat| == s.g.DiskSize()
    requires |marks| >= 2 && steps0 <= marks[|marks| - 2] <= marks[|marks| - 1] == |file.steps|
    requires forall k :: steps0 <= k < |file.steps| ==> StepOpens(s.g, file.steps[k], end)
    requires !stale ==> Base(s.g, s.hist, FlatAfter(s.g, flat, life.cmds))
    requires !stale ==> Safe(s.g, Disks(s.g, flat, life.cmds) + [FlatAfter(s.g, flat, life.cmds)], marks, file.origin, file.steps, end)
    ensures fresh(file') && file'.Valid() && AtRest(s') && s'.data == file'.data && s'.g == s.g && s'.next <= end
    ensures !stale ==> Leads(s.g, flat, life, DiskOf(s'))
  {
    hide Chained, FlatAfter, Disks, AtRest, Agrees, DiskOf, AllPermitted, PaddingFor, Mixed, Shows, Opens;
    var k := marks[|marks| - 2] + life.at;
    if k >= |file.steps| {
      file' := new ImageFile(file.data);
      s' := s;
      if !stale {
        SameDisk(s, FlatAfter(s.g, flat, life.cmds));
        NotMixed(s.g, FlatAfter(s.g, flat, life.cmds), LastDisk(s.g, flat, life.cmds));
      }
      return;
    }
    ChainedAt(file.origin, file.steps, file.data, k);
    var img := life.left(file.steps[k]);
    file' := new ImageFile(img);
    if stale {
      s' := CrashOpens(s.g, img, end);
    } else {
      s' := CrashShows(s.g, img, LastDisk(s.g, flat, life.cmds), FlatAfter(s.g, flat, life.cmds), end);
    }
  }

  /** One life of an image. */
  method Live(file: ImageFile, life: Life, clears: bool, ghost s: OpenStore)
    returns (file': ImageFile, outputs: seq<seq<byte>>, ghost s': OpenStore)
    requires file.Valid() && AtRest(s) && s.data == file.data && Proper(s.g, life) && s.next + Growth(life.cmds) < LIMIT
    modifies file
    ensures fresh(file') && file'.Valid() && AtRest(s') && s'.data == file'.data && s'.g == s.g && s'.next <= s.next + Growth(life.cmds)
    ensures Lived(s, life, clears, outputs)
    ensures !Stale(s, life, clears) ==> Leads(s.g, DiskOf(s), life, DiskOf(s'))
  {
    hide Chained, FlatAfter, HistAfter, FlatOutputs, Disks, AtRest, Agrees, DiskOf, AllPermitted, PaddingFor, Safe, StepOpens, Answered,
      TraceAll, Growth, Leads;
    var marks;
    ghost var stale, s1, flat, steps0 := false, s, DiskOf(s), |file.steps|;
    outputs, marks, stale, s1 := Run(file, life.cmds, life.pads, clears, s);
    if !stale { RunAgrees(s.g, s.hist, flat, life.cmds); }
    file', s' := Crash(file, life, marks, s1, s.next + Growth(life.cmds), steps0, stale, flat);
  }

  function TotalGrowth(lives: seq<Life>): nat {
    if lives == [] then 0 else TotalGrowth(lives[..|lives| - 1]) + Growth(lives[|lives| - 1].cmds)
  }

  lemma {:induction false} TotalMonotone(lives: seq<Life>, i: nat)
    requires i <= |lives|
    ensures TotalGrowth(lives[..i]) <= TotalGrowth(lives)
  {
    hide Growth;
    if i < |lives| {
      TotalMonotone(lives[..|lives| - 1], i);
      assert lives[..|lives| - 1][..i] == lives[..i];
    } else {
      assert lives[..i] == lives;
    }
  }

  lemma TotalStep(lives: seq<Life>, i: nat)
    requires i < |lives|
    ensures TotalGrowth(lives[..i + 1]) == TotalGrowth(lives[..i]) + Growth(lives[i].cmds) <= TotalGrowth(lives)
  {
    hide Growth;
    TotalMonotone(lives, i + 1);
    assert lives[..i + 1][..i] == lives[..i] && lives[..i + 1][i] == lives[i];
  }

  /** Life `n` started on the image `stores[n]`: up to its first stale read it has read what a flat disk reads that started
      as this image shows it, and if it had none, it has led to the disk that the next image shows. */
  ghost predicate Chronicle(g: Geometry, lives: seq<Life>, clears: bool, stores: seq<OpenStore>, outputs: seq<seq<seq<byte>>>) {
    && |stores| == |outputs| + 1 && |outputs| <= |lives|
    && (forall n :: 0 <= n < |stores| ==> stores[n].g == g && AtRest(stores[n]))
    && forall n :: 0 <= n < |outputs| ==>
         && AllPermitted(g, lives[n].cmds) && Lived(stores[n], lives[n], clears, outputs[n])
         && (!Stale(stores[n], lives[n], clears) ==> Leads(g, DiskOf(stores[n]), lives[n], DiskOf(stores[n + 1])))
  }

  lemma ChronicleStarts(s: OpenStore, lives: seq<Life>, clears: bool)
    requires AtRest(s)
    ensures Chronicle(s.g, lives, clears, [s], []) && TotalGrowth(lives[..0]) == 0
  {
  }

  lemma ChronicleGrows(g: Geometry, lives: seq<Life>, clears: bool, stores: seq<OpenStore>, outputs: seq<seq<seq<byte>>>,
                       output: seq<seq<byte>>, s: OpenStore)
    requires Chronicle(g, lives, clears, stores, outputs) && |outputs| < |lives| && s.g == g && AtRest(s)
    requires var n := |outputs|;
      && AllPermitted(g, lives[n].cmds) && Lived(stores[n], lives[n], clears, output)
      && (!Stale(stores[n], lives[n], clears) ==> Leads(g, DiskOf(stores[n]), lives[n], DiskOf(s)))
    ensures Chronicle(g, lives, clears, stores + [s], outputs + [output])
  {
    hide AtRest, Leads, Lived, Stale, DiskOf, AllPermitted;
    var all, outs := stores + [s], outputs + [output];
    assert forall n :: 0 <= n < |stores| ==> all[n] == stores[n];
  }

  /** Any number of lives of an image, each ended by a crash at any moment of its last session or by none. */
  method Lives(file: ImageFile, lives: seq<Life>, clears: bool, ghost s: OpenStore)
    returns (file': ImageFile, outputs: seq<seq<seq<byte>>>, ghost stores: seq<OpenStore>)
    requires file.Valid() && AtRest(s) && s.data == file.data && s.next + TotalGrowth(lives) < LIMIT
    requires forall n :: 0 <= n < |lives| ==> Proper(s.g, lives[n])
    modifies file
    ensures |outputs| == |lives| && |stores| == |lives| + 1 && Chronicle(s.g, lives, clears, stores, outputs) && stores[0] == s
    ensures file'.Valid() && stores[|lives|].data == file'.data
  {
    hide Chained, AtRest, Leads, Proper, Lived, Stale, TotalGrowth, Growth, Chronicle, DiskOf, AllPermitted;
    ChronicleStarts(s, lives, clears);
    file', outputs, stores := file, [], [s];
    var i: nat := 0;
    while i < |lives|
      invariant i <= |lives| && |outputs| == i && |stores| == i + 1 && (file' == file || fresh(file')) && file'.Valid()
      invariant Chronicle(s.g, lives, clears, stores, outputs) && stores[0] == s
      invariant stores[i].g == s.g && AtRest(stores[i]) && stores[i].data == file'.data && stores[i].next <= s.next + TotalGrowth(lives[..i])
    {
      TotalStep(lives, i);
      var output;
      ghost var s';
      ProperParts(s.g, lives[i]);
      file', output, s' := Live(file', lives[i], clears, stores[i]);
      ChronicleGrows(s.g, lives, clears, stores, outputs, output, s');
      outputs, stores := outputs + [output], stores + [s'];
      i := i + 1;
    }
  }

  lemma ProperParts(g: Geometry, life: Life)
    requires Proper(g, life)
    ensures AllPermitted(g, life.cmds)
  {
  }

  // ----- a new image -----

  lemma FreshStart(g: Geometry)
    requires g.Valid()
    ensures FreshStore(g).Ok() && AtRest(FreshStore(g)) && DiskOf(FreshStore(g)) == Zeros(g.DiskSize())
    ensures FreshStore(g).hist == [] && Start(FreshStore(g)) == NewTrace(g)
    ensures FreshStore(g).g == g && FreshStore(g).data == MakeImage(g) && FreshStore(g).next == DataStart(g)
  {
    FreshStoreOk(g);
    EmptyAgrees(g);
    SameDisk(FreshStore(g), Zeros(g.DiskSize()));
  }

  /** The trace of a new image. */
  function NewTrace(g: Geometry): Trace { Trace([], [], Opened(DataStart(g), 24)) }

  /** The disk as it was before `t`, where a request was served. */
  ghost predicate PastAt(g: Geometry, ws: seq<Write>, t: Time, r: Request, out: seq<byte>) {
    && Servable(g, r.sec, r.secs) && AllFit(g, StampedBefore(ws, t))
    && out == Replay(g, StampedBefore(ws, t))[r.sec * SECTOR..(r.sec + r.secs) * SECTOR]
  }

  lemma ServedFromPast(g: Geometry, ws: seq<Write>, t: Time, r: Request, out: seq<byte>)
    requires g.Valid() && AllFit(g, ws) && AllInOrder(g, ws, t) && ServedAt(g, History(g, ws), t, r, out)
    ensures PastAt(g, ws, t, r, out)
  {
    hide Replay, History, Show, StampedBefore, AllInOrder;
    TimeTravelShows(g, ws, t);
  }

  /** Whatever is written to a new image, and however often it is reopened, up to the first read that RunStale
      says is served by a stale window the reads are those of a flat disk of zeros. If there is none, a later session
      at restore point `t` reads the flat disk with just the writes before `t`, if their stamps are in order, and
      every session was safe from crashes. */
  method FromMkimage(file: ImageFile, g: Geometry, cmds: seq<Command>, pads: seq<seq<byte>>, clears: bool, t: Time, requests: seq<Request>)
    returns (outputs: seq<seq<byte>>, past: seq<seq<byte>>, marks: seq<nat>)
    requires g.Valid() && file.data == MakeImage(g) && file.Valid() && AllPermitted(g, cmds) && PaddingFor(pads, cmds)
    requires DataStart(g) + Growth(cmds) < LIMIT
    requires forall r :: r in requests ==> Servable(g, r.sec, r.secs)
    modifies file
    ensures |past| == |requests| && Answered(g, Zeros(g.DiskSize()), cmds, |cmds|, NewTrace(g), clears, outputs)
    ensures !RunStale(g, NewTrace(g), cmds, clears) ==> outputs == FlatOutputs(g, Zeros(g.DiskSize()), cmds)
    ensures !RunStale(g, NewTrace(g), cmds, clears) && AllInOrder(g, WritesOf(cmds), t) ==>
      forall i :: 0 <= i < |requests| ==> PastAt(g, WritesOf(cmds), t, requests[i], past[i])
    ensures file.Valid() && marks != [] && marks[0] == |old(file.steps)|
    ensures !RunStale(g, NewTrace(g), cmds, clears) ==>
      Safe(g, Disks(g, Zeros(g.DiskSize()), cmds) + [FlatAfter(g, Zeros(g.DiskSize()), cmds)], marks, file.origin, file.steps,
           DataStart(g) + Growth(cmds))
  {
    hide AllPermitted, PaddingFor, FlatOutputs, FlatAfter, Disks, HistAfter, History, AllInOrder, ServedAt, PastAt, WritesOf, AtRest, FreshStore,
      TraceAll, Safe, StepOpens, Answered, DiskOf, Chained, Growth, NewTrace;
    FreshStart(g);
    ghost var stale, s;
    outputs, marks, stale, s := Run(file, cmds, pads, clears, FreshStore(g));
    RestingBound(s);
    past := TravelRun(file, t, requests, s);
    HistoryOfWrites(g, cmds);
    if !stale && AllInOrder(g, WritesOf(cmds), t) {
      forall i | 0 <= i < |requests| ensures PastAt(g, WritesOf(cmds), t, requests[i], past[i]) {
        ServedFromPast(g, WritesOf(cmds), t, requests[i], past[i]);
      }
    }
  }

  /** No read of a run on a new image is stale if no session writes more than the write buffer holds, or if flushing
      clears the window. */
  lemma NewNeverStale(g: Geometry, cmds: seq<Command>, clears: bool)
    requires g.Valid() && AllPermitted(g, cmds) && (clears || FitsBuffer(g, cmds))
    ensures !RunStale(g, NewTrace(g), cmds, clears)
  {
    hide DiskOf, FreshStore;
    FreshStart(g);
    NeverStale(FreshStore(g), cmds, clears);
  }

  lemma RestingBound(s: OpenStore)
    requires AtRest(s)
    ensures s.next < LIMIT
  {
    AtRestTables(s, []);
  }
}
