/** What the Java reader makes of a disk of 2^28 blocks or more. */
module LostTable {
  import opened Bytes
  import opened Flat
  import opened Versions
  import opened Requests
  import opened Log
  import opened Windows
  import opened Traces
  import opened Image
  import opened Store
  import opened Files
  import opened Widths
  import opened Commands
  import opened Sessions
  import opened Lifetime
  import opened Database

  /** The request that writes just block `b`. */
  function OneBlock(g: Geometry, ts: Time, b: nat, data: seq<byte>): (r: seq<Command>)
    ensures |r| == 1
  {
    [DoWrite(ts, g.FirstSector(b), data)]
  }

  lemma OneBlockFits(g: Geometry, ts: Time, b: nat, data: seq<byte>)
    requires g.Valid() && b < g.blocks && |data| == g.BlockSize() && Stamp(ts)
    ensures AllPermitted(g, OneBlock(g, ts, b, data)) && FitsBuffer(g, OneBlock(g, ts, b, data))
    ensures Growth(OneBlock(g, ts, b, data)) <= 73728
  {
    hide Geometry.FirstSector, Geometry.BlockNo;
    var cmds, w := OneBlock(g, ts, b, data), Write(ts, g.FirstSector(b), data);
    BlockBounds(g, b);
    BlockNoOfFirst(g, w.sector, b);
    BlockSizeAligned(g);
    assert Permitted(g, cmds[0]);
    assert Rest(g, w).data == [];
    assert cmds[..0] == [] && cmds[..1] == cmds;
    assert FillOf(g, w) == HEADER + g.BlockSize() + FillOf(g, Rest(g, w));
    assert Buffered(g, cmds) == Buffered(g, cmds[..0]) + FillOf(g, w);
    forall i | 0 <= i <= |cmds| ensures Buffered(g, cmds[..i]) <= BUFFER_SIZE {
      if i == 1 { assert cmds[..i] == cmds; }
    }
  }

  lemma OneBlockThere(g: Geometry, ts: Time, b: nat, data: seq<byte>)
    requires g.Valid() && b < g.blocks && |data| == g.BlockSize() && Stamp(ts) && !IsZero(data)
    ensures AllPermitted(g, OneBlock(g, ts, b, data))
    ensures Block(g, FlatAfter(g, Zeros(g.DiskSize()), OneBlock(g, ts, b, data)), b) == data
    ensures EverWritten(HistAfter(g, [], OneBlock(g, ts, b, data)), b)
  {
    hide Geometry.FirstSector, HistCommand;
    OneBlockFits(g, ts, b, data);
    var cmds, flat := OneBlock(g, ts, b, data), Zeros(g.DiskSize());
    BlockBounds(g, b);
    assert cmds[..0] == [];
    assert Block(g, Apply(g, flat, Write(ts, g.FirstSector(b), data)), b) == data;
    EmptyAgrees(g);
    RunAgrees(g, [], flat, cmds);
    ZerosAreZero(|data|);
  }

  /** On a new disk of 2^28 blocks or more, block `b` behind the entries that the reader gets is written and the disk
      finalized. The driver's disk has the block; the reader says that it has no record. */
  method Overlooked(file: ImageFile, g: Geometry, ts: Time, pad: seq<byte>, b: nat, data: seq<byte>)
    returns (pd: PreservationDatabase, count: nat, ghost s: OpenStore)
    requires g.Valid() && 0x1000_0000 <= g.blocks && EntriesRead(g.blocks) <= b < g.blocks
    requires |data| == g.BlockSize() && Stamp(ts) && !IsZero(data) && |pad| == 6
    requires file.data == MakeImage(g) && file.Valid()
    modifies file
    ensures AtRest(s) && s.data == file.data && s.g == g && Block(g, DiskOf(s), b) == data
    ensures pd.OpenedTo(s, EntriesRead(g.blocks)) && !pd.Opened(s) && count == 0
  {
    hide Geometry.FirstSector, FlatAfter, HistAfter, DiskOf, FreshStore, OneBlock, Agrees, Safe, Disks, TraceAll, Chained, Start;
    var cmds := OneBlock(g, ts, b, data);
    FreshStart(g);
    OneBlockFits(g, ts, b, data);
    OneBlockThere(g, ts, b, data);
    NewNeverStale(g, cmds, false);
    SmallImage(g);
    var outputs, marks;
    ghost var stale;
    outputs, marks, stale, s := Run(file, cmds, [pad], false, FreshStore(g));
    RunAgrees(g, [], Zeros(g.DiskSize()), cmds);
    SameDisk(s, FlatAfter(g, Zeros(g.DiskSize()), cmds));
    pd := new PreservationDatabase(file, s);
    OpenedExactly(pd, s, EntriesRead(g.blocks));
    count := pd.GetNumOfRecord(b, s, EntriesRead(g.blocks));
  }

  lemma SmallImage(g: Geometry)
    requires g.Valid()
    ensures DataStart(g) + 73728 < LIMIT
  {
  }

  /** There is such a block on every such disk. */
  lemma LastEntry(g: Geometry)
    requires g.Valid() && 0x1000_0000 <= g.blocks
    ensures EntriesRead(g.blocks) <= g.blocks - 1
  {
  }
}
