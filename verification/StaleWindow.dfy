/** The one way in which a read can go wrong: bio_flush keeps the read window, so that a record flushed behind
    the end of a window that is still in use is not seen. What the run then reads, and a run on a new disk. */
module StaleWindow {
  import opened Bytes
  import opened Flat
  import opened Rounding
  import opened Trim
  import opened Versions
  import opened Requests
  import opened Log
  import opened Windows
  import opened Traces
  import opened Image
  import opened Store
  import opened Files
  import opened Disk
  import opened Commands
  import opened Sessions
  import opened Lifetime
  import opened Widths

  // ----- what a stale read of a block returns -----

  /** A read of block `b` finds its header in the window, behind everything that the window has ever been filled with. */
  predicate Untouched(t: Trace, b: nat) {
    t.Trace? && t.window.Window? && |t.offs| == |t.hist|
    && var i := Newest(t.hist, |t.hist|, b, Now);
       i >= 0 && var off, w := t.offs[i], t.window;
         off < w.next && Hits(w, off, HEADER) && off + HEADER > w.end && off - w.at >= w.touched
  }

  /** Such a read is stale. */
  lemma UntouchedIsStale(g: Geometry, t: Trace, b: nat)
    requires g.Valid() && Sound(g, t) && Untouched(t, b) && b < g.blocks
    ensures Fetched(g, t, g.FirstSector(b), g.spb) == Lost
  {
    hide Geometry.FirstSector, Geometry.BlockNo, TrimSize;
    BlockRequest(g, b);
    StretchNext(t.hist, t.offs, t.window, b, 0);
  }

  /** A request for just block `b`. */
  lemma BlockRequest(g: Geometry, b: nat)
    requires g.Valid() && b < g.blocks
    ensures var s := g.FirstSector(b);
      && Servable(g, s, g.spb) && BlocksRead(g, s, g.spb) == 1 && g.BlockNo(s) == b && g.BlockNo(g.spb) == 1
      && g.InBlock(s) == g.InBlock(g.spb) == 0
      && s * SECTOR == g.Start(b) && (s + g.spb) * SECTOR == g.Start(b) + g.BlockSize() <= g.DiskSize()
  {
    hide Geometry.FirstSector, Geometry.BlockNo;
    BlockBounds(g, b);
    FirstBlocks(g, 1);
    BlockNoOfFirst(g, g.FirstSector(b), b);
    BlockNoOfFirst(g, g.spb, 1);
  }

  lemma BlankAt(disk: PreservationDisk, b: nat)
    requires disk.Valid() && !disk.readOnly && Untouched(disk.Traced(), b) && b < disk.g.blocks && IsZero(disk.bio.memory)
    ensures disk.Blank(b)
  {
    hide PreservationDisk.Kept, Newest;
    var i := Newest(disk.store.hist, |disk.store.hist|, b, Now);
    assert disk.index[b] == disk.index[..][b] == HeadOff(disk.store.hist, disk.store.offs, |disk.store.hist|, b, Now) == disk.store.offs[i];
    RecordParts(disk.store, i);
  }

  /** pd_read of a whole block. */
  method ReadOne(disk: PreservationDisk, b: nat) returns (got: seq<byte>)
    requires disk.Valid() && !disk.readOnly && b < disk.g.blocks
    modifies disk.bio`readBufferPos, disk.bio`readBufferEnable, disk.bio`validEnd, disk.bio`stale, disk.bio`touched, disk.bio.readBuffer
    modifies disk.index, disk.cacheEnable, disk.cachedSize
    ensures old(disk.Blank(b)) ==> got == Zeros(disk.g.BlockSize())
  {
    hide Fetched, Show, AtRest, WellFormed, Geometry.FirstSector, Geometry.InBlock, Geometry.BlockNo, PreservationDisk.Traced, PreservationDisk.Blank,
      PreservationDisk.Kept, PreservationDisk.TableOk;
    RecordUnder(disk.store, 0, Now);
    BlockRequest(disk.g, b);
    var out := new byte[disk.g.BlockSize()];
    var sec := disk.g.FirstSector(b);
    var ok := disk.PdRead(sec, disk.g.spb, out);
    got := out[..];
  }

  lemma MemoryThere(disk: PreservationDisk)
    requires disk.Valid()
    ensures |disk.bio.memory| == READ_BUFFER_SIZE
  {
  }

  /** The first stale read of a run, where it is that of a whole block whose header lies behind what the window has been
      filled with: if the memory that posix_memalign has handed out for the window is zero, it returns zeros. So it is
      right exactly if the block is all zeros. */
  method MisreadRun(file: ImageFile, cmds: seq<Command>, pads: seq<seq<byte>>, b: nat, ghost s0: OpenStore)
    returns (outputs: seq<seq<byte>>, got: seq<byte>, ghost memory: seq<byte>)
    requires AtRest(s0) && s0.data == file.data && file.Valid() && b < s0.g.blocks
    requires AllPermitted(s0.g, cmds) && PaddingFor(pads, cmds) && s0.next + Growth(cmds) < LIMIT
    requires s0.g.Valid() && Sound(s0.g, Start(s0)) && Untouched(TraceAll(s0.g, Start(s0), cmds, false), b)
    modifies file
    ensures AllPermitted(s0.g, cmds + [DoRead(s0.g.FirstSector(b), s0.g.spb)])
    ensures !RunStale(s0.g, Start(s0), cmds, false)
    ensures RunStale(s0.g, Start(s0), cmds + [DoRead(s0.g.FirstSector(b), s0.g.spb)], false)
    ensures outputs == FlatOutputs(s0.g, DiskOf(s0), cmds)
    ensures |memory| == READ_BUFFER_SIZE
    ensures IsZero(memory) ==>
      && got == Zeros(s0.g.BlockSize())
      && var block := Block(s0.g, FlatAfter(s0.g, DiskOf(s0), cmds), b); got == block <==> IsZero(block)
  {
    hide FlatOutputs, HistAfter, FlatAfter, Progress, TraceAll, Answered, Guarded, PreservationDisk.Traced, PreservationDisk.Valid, Permitted, Growth,
      DiskOf, Chained, AtRest, Agrees, PaddingFor, Untouched, PreservationDisk.Blank, Geometry.FirstSector;
    OneMoreRead(s0, cmds, b);
    var disk := new PreservationDisk(file, false, Time(0, 0), false, s0);
    TraceOpened(disk, s0);
    var marks;
    ghost var stale;
    disk, outputs, marks, stale := AdvanceAll(disk, cmds, pads);
    ProgressEnds(s0.g, s0.next, s0.hist, DiskOf(s0), cmds, disk.store.hist, outputs, disk.Reach(), stale);
    MemoryThere(disk);
    memory := disk.bio.memory;
    if IsZero(memory) { BlankAt(disk, b); }
    got := ReadOne(disk, b);
    ZeroBlock(Block(s0.g, FlatAfter(s0.g, DiskOf(s0), cmds), b));
  }

  lemma ZeroBlock(s: seq<byte>)
    ensures s == Zeros(|s|) <==> IsZero(s)
  {
    if s != Zeros(|s|) {
      var k :| 0 <= k < |s| && s[k] != 0;
    }
  }

  lemma OneMoreRead(s: OpenStore, cmds: seq<Command>, b: nat)
    requires AllPermitted(s.g, cmds) && b < s.g.blocks && s.g.Valid() && Sound(s.g, Start(s))
    requires Untouched(TraceAll(s.g, Start(s), cmds, false), b)
    ensures AllPermitted(s.g, cmds + [DoRead(s.g.FirstSector(b), s.g.spb)])
    ensures !RunStale(s.g, Start(s), cmds, false)
    ensures RunStale(s.g, Start(s), cmds + [DoRead(s.g.FirstSector(b), s.g.spb)], false)
  {
    hide Start, Sound, Geometry.FirstSector, Geometry.InBlock, Geometry.BlockNo, Fetched, TraceAll, Servable, BlocksRead, Newest;
    BlockRequest(s.g, b);
    UntouchedIsStale(s.g, TraceAll(s.g, Start(s), cmds, false), b);
    var all := cmds + [DoRead(s.g.FirstSector(b), s.g.spb)];
    assert all[..|cmds|] == cmds && all[..|all|] == all && all[|cmds|] == DoRead(s.g.FirstSector(b), s.g.spb);
    TraceStep(s.g, Start(s), all, |cmds|, false);
  }

  // ----- a run on a new disk -----

  const G := Geometry(300, 8)
  const STAMP := Time(1, 0)

  /** A block whose last byte only is not zero: it is stored in full. */
  function Full(): (r: seq<byte>)
    ensures |r| == 4096
  {
    Zeros(4095) + [1]
  }

  lemma FullIsFull()
    ensures TrimSize(Full()) == 4096 && !IsZero(Full())
  {
    assert Full()[4095] == 1;
    Up16Is(4096);
  }

  /** 129 blocks are written, one more than the write buffer holds; block 127, the last one flushed, is read; 128
      more blocks are written. */
  function CommandAt(i: nat): Command {
    if i < 129 then DoWrite(STAMP, 8 * i, Full())
    else if i == 129 then DoRead(8 * 127, 8)
    else DoWrite(STAMP, 8 * (i - 1), Full())
  }

  function Script(n: nat): (r: seq<Command>)
    ensures |r| == n
  {
    seq(n, i requires 0 <= i < n => CommandAt(i))
  }

  // ----- where the driver stands after each command -----

  function Hist(m: nat): (r: seq<Version>)
    ensures |r| == m
  {
    seq(m, i requires 0 <= i < m => Version(i, STAMP, Full()))
  }

  function Offs(m: nat): (r: seq<nat>)
    ensures |r| == m
  {
    seq(m, i requires 0 <= i < m => 3072 + 4128 * i)
  }

  /** `m` blocks have been written; `filled` if the first of the two reads has taken place. */
  function WindowAt(m: nat, filled: bool): (r: Window)
    requires m <= 257
    ensures r.Window?
  {
    var flushed := if m <= 128 then 0 else if m <= 256 then 128 else 256;
    var next := 3072 + 4128 * flushed;
    var len := if flushed == 0 then 24 else next;
    Window(next, 4128 * (m - flushed), len, filled, if filled then 526848 else 0, if filled then 531456 else 0, if filled then 4608 else 0)
  }

  function TraceAt(m: nat, filled: bool): Trace
    requires m <= 257
  {
    Trace(Hist(m), Offs(m), WindowAt(m, filled))
  }

  lemma HistSound(m: nat)
    requires m <= 257
    ensures WellFormed(G, Hist(m)) && Newest(Hist(m), m, m, Now) == -1
    ensures forall b :: 0 <= b < m ==> Newest(Hist(m), m, b, Now) == b
  {
    forall i | 0 <= i < m ensures Hist(m)[i].block < G.blocks && |Hist(m)[i].data| == G.BlockSize() {
      assert Hist(m)[i] == Version(i, STAMP, Full());
    }
    forall b | 0 <= b < m ensures Newest(Hist(m), m, b, Now) == b {
      assert Chosen(Hist(m), b, b, Now);
      NewestIs(Hist(m), m, b, Now, b);
    }
    NewestIs(Hist(m), m, m, Now, -1);
  }

  lemma Place(m: nat)
    requires m < 300
    ensures G.BlockNo(8 * m) == m && G.InBlock(8 * m) == 0 && 8 * m * SECTOR + 4096 <= G.DiskSize()
    ensures G.BlockNo(8) == 1 && G.InBlock(8) == 0
  {
    FirstSectorIsProduct(G, m);
    FirstSectorIsProduct(G, 300);
    BlockNoOfFirst(G, 8 * m, m);
    FirstSectorIsProduct(G, 1);
    BlockNoOfFirst(G, 8, 1);
  }

  lemma WindowWrites(m: nat, filled: bool)
    requires m < 257 && (filled ==> m >= 129)
    ensures AfterWrite(WindowAt(m, filled), 4128, false) == WindowAt(m + 1, filled)
    ensures var w := WindowAt(m + 1, filled); w.next + w.buffered - 4128 == 3072 + 4128 * m
  {
  }

  /** One block written. */
  lemma WriteStep(m: nat, filled: bool)
    requires m < 257 && (filled ==> m >= 129)
    ensures Sound(G, TraceAt(m, filled)) && Fits(G, Write(STAMP, 8 * m, Full()))
    ensures Committed(G, TraceAt(m, filled), Write(STAMP, 8 * m, Full()), false) == TraceAt(m + 1, filled)
  {
    hide AfterWrite, WindowAt, TrimSize, IsZero, Full, Patched;
    HistSound(m);
    Place(m);
    var w := Write(STAMP, 8 * m, Full());
    assert w.data[..4096] == Full() && w.data[4096..] == [];
    assert Rest(G, w).data == [];
    BlockWritten(m, filled);
  }

  lemma BlockWritten(m: nat, filled: bool)
    requires m < 257 && (filled ==> m >= 129)
    ensures Sound(G, TraceAt(m, filled))
    ensures Patched(G, TraceAt(m, filled), STAMP, m, 0, Full(), false) == TraceAt(m + 1, filled)
  {
    hide AfterWrite, WindowAt, TrimSize, IsZero, Full;
    HistSound(m);
    FullIsFull();
    WindowWrites(m, filled);
    assert Splice(Zeros(4096), 0, Full()) == Full();
    assert Hist(m) + [Version(m, STAMP, Full())] == Hist(m + 1);
    assert Offs(m) + [3072 + 4128 * m] == Offs(m + 1);
  }

  /** Reading block 127 fills the window up to the end of the first flush. */
  lemma FirstRead()
    ensures Sound(G, TraceAt(129, false)) && Fetched(G, TraceAt(129, false), 8 * 127, 8) == TraceAt(129, true)
  {
    hide TrimSize, IsZero, Full;
    HistSound(129);
    FullIsFull();
    OneBlock(127);
    assert Offs(129)[127] == 527328;
    assert Down512(527328) == 526848;
  }

  lemma OneBlock(b: nat)
    requires b < 300
    ensures G.BlockNo(8 * b) == b && BlocksRead(G, 8 * b, 8) == 1 && Servable(G, 8 * b, 8)
  {
    Place(b);
  }

  lemma AllPermittedAt(i: nat)
    requires i < 258
    ensures Permitted(G, CommandAt(i))
  {
    hide Full;
    if i < 129 { Place(i); } else if i == 129 { OneBlock(127); } else { Place(i - 1); }
  }

  lemma ScriptPermitted(n: nat)
    requires n <= 258
    ensures AllPermitted(G, Script(n))
  {
    forall i | 0 <= i < n ensures Permitted(G, Script(n)[i]) {
      AllPermittedAt(i);
    }
  }

  /** The trace after `n` commands, before the last read. */
  function Expected(n: nat): Trace
    requires n <= 258
  {
    if n <= 129 then TraceAt(n, false) else TraceAt(n - 1, true)
  }

  lemma ExpectedStep(n: nat)
    requires n < 258
    ensures Sound(G, Expected(n)) && Permitted(G, CommandAt(n))
    ensures TraceOf(G, Expected(n), CommandAt(n), false) == Expected(n + 1)
  {
    hide TraceAt, Committed, Fetched;
    AllPermittedAt(n);
    if n < 129 { WriteStep(n, false); } else if n == 129 { FirstRead(); } else { WriteStep(n - 1, true); }
  }

  lemma TraceBegins()
    ensures Sound(G, NewTrace(G)) && Expected(0) == NewTrace(G)
  {
    assert DataStart(G) == 3072;
    assert Hist(0) == [] && Offs(0) == [];
  }

  lemma {:induction false} TraceIs(n: nat)
    requires n <= 258
    ensures AllPermitted(G, Script(n)) && Sound(G, NewTrace(G))
    ensures TraceAll(G, NewTrace(G), Script(n), false) == Expected(n)
  {
    hide TraceOf, Expected, AllPermitted, CommandAt;
    ScriptPermitted(n);
    if n == 0 {
      TraceBegins();
      assert Script(n) == [];
    } else {
      TraceIs(n - 1);
      ExpectedStep(n - 1);
      assert Script(n)[..n - 1] == Script(n - 1);
    }
  }

  lemma LastTrace()
    ensures Expected(258) == TraceAt(257, true) && Untouched(Expected(258), 128)
  {
    hide Hist, Offs, Newest;
    HistSound(257);
    assert WindowAt(257, true) == Window(1059840, 4128, 1059840, true, 526848, 531456, 4608);
    assert Offs(257)[128] == 531456 by { OffAt(257, 128); }
  }

  lemma OffAt(m: nat, i: nat)
    requires i < m
    ensures Offs(m)[i] == 3072 + 4128 * i
  {
  }

  lemma {:induction false} ScriptGrows(n: nat)
    requires n <= 258
    ensures Growth(Script(n)) <= 73728 * n
  {
    if n > 0 {
      ScriptGrows(n - 1);
      assert Script(n)[..n - 1] == Script(n - 1) && Script(n)[n - 1] == CommandAt(n - 1);
    }
  }

  /** The written block. */
  lemma FlatBlock()
    ensures AllPermitted(G, Script(258)) && Block(G, FlatAfter(G, Zeros(G.DiskSize()), Script(258)), 128) == Full()
  {
    hide FlatAfter, HistAfter, TraceAll, TraceAt, Expected, Agrees, Geometry.FirstSector;
    ScriptPermitted(258);
    TraceIs(258);
    LastTrace();
    TraceHistory(G, NewTrace(G), Script(258), false);
    EmptyAgrees(G);
    RunAgrees(G, [], Zeros(G.DiskSize()), Script(258));
    LastBlock(FlatAfter(G, Zeros(G.DiskSize()), Script(258)));
  }

  lemma LastBlock(flat: seq<byte>)
    requires TraceAt(257, true).Trace? && WellFormed(G, TraceAt(257, true).hist) && |flat| == G.DiskSize()
    requires Agrees(G, TraceAt(257, true).hist, flat)
    ensures Block(G, flat, 128) == Full()
  {
    hide Full, Geometry.FirstSector;
    HistSound(257);
    assert BlockOf(G, Hist(257), 128, Now) == Full();
  }

  /** The run on a new disk: its last read, of block 128, is stale, and no read before; if the memory of the window is zero,
      it returns zeros, and not the block that was written. */
  method Misread(file: ImageFile) returns (outputs: seq<seq<byte>>, got: seq<byte>, ghost memory: seq<byte>)
    requires file.data == MakeImage(G) && file.Valid()
    modifies file
    ensures AllPermitted(G, Script(258)) && AllPermitted(G, Script(258) + [DoRead(1024, 8)])
    ensures !RunStale(G, NewTrace(G), Script(258), false) && RunStale(G, NewTrace(G), Script(258) + [DoRead(1024, 8)], false)
    ensures Block(G, FlatAfter(G, Zeros(G.DiskSize()), Script(258)), 128) == Full() && |memory| == READ_BUFFER_SIZE
    ensures IsZero(memory) ==> got == Zeros(4096) != Full()
  {
    hide FlatAfter, FlatOutputs, TraceAll, TraceAt, Expected, Untouched, FreshStore, DiskOf, Start, NewTrace, AtRest, Script, Growth, Agrees,
      Geometry.FirstSector, Chained, Full;
    FreshStart(G);
    FlatBlock();
    ScriptGrows(258);
    TraceIs(258);
    LastTrace();
    PlaceOf128();
    var pads := seq(258, _ => Zeros(6));
    outputs, got, memory := MisreadRun(file, Script(258), pads, 128, FreshStore(G));
    FullIsFull();
    ZeroBlock(Full());
  }

  lemma PlaceOf128()
    ensures G.FirstSector(128) == 1024 && DataStart(G) == 3072
  {
    FirstSectorIsProduct(G, 128);
  }
}
