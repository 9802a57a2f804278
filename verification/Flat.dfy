/** The simple picture of a virtual disk: an array of bytes, written and read in whole sectors.
    Everything the versioned store does is measured against it. */
module Flat {
  import opened Bytes
  import opened Rounding

  /** A stamp of `clock_gettime`, or a restore point. */
  datatype Time = Time(sec: int, nsec: int)

  /** The order of preservation.c's walk: seconds first, then nanoseconds. */
  predicate Earlier(a: Time, b: Time) {
    a.sec < b.sec || (a.sec == b.sec && a.nsec < b.nsec)
  }

  /** A disk of `blocks` blocks of `spb` sectors each. The stack buffers of pd_read and pd_write hold
      blocks of at most 4096 bytes, and the block number passes through an `int`. Products with `spb` are
      written as repeated sums; ProductForms says what they are. */
  datatype Geometry = Geometry(blocks: nat, spb: nat) {
    predicate Valid() {
      1 <= spb <= 8 && blocks < 0x8000_0000
    }

    function BlockSize(): nat { spb * SECTOR }

    function FirstSector(b: nat): nat {
      if b == 0 then 0 else FirstSector(b - 1) + spb
    }

    function Start(b: nat): nat { FirstSector(b) * SECTOR }

    function DiskSize(): nat { Start(blocks) }

    /** The block of a sector, and the sector's place in it. */
    function BlockNo(sector: nat): (r: nat)
      requires Valid()
      ensures FirstSector(r) <= sector < FirstSector(r) + spb
    {
      if sector < spb then 0 else BlockNo(sector - spb) + 1
    }

    function InBlock(sector: nat): (r: nat)
      requires Valid()
      ensures r < spb
    {
      sector - FirstSector(BlockNo(sector))
    }
  }

  lemma BlockSizeAligned(g: Geometry)
    requires g.Valid()
    ensures g.BlockSize() % 16 == 0 && 512 <= g.BlockSize() <= 4096
  {
    assert g.BlockSize() == 16 * (32 * g.spb);
  }

  lemma {:induction false} FirstSectorIsProduct(g: Geometry, b: nat)
    ensures g.FirstSector(b) == b * g.spb
  {
    if b > 0 {
      FirstSectorIsProduct(g, b - 1);
      assert b * g.spb == (b - 1) * g.spb + g.spb;
    }
  }

  /** The sums are the products, and block and place are quotient and remainder. */
  lemma ProductForms(g: Geometry, b: nat, sector: nat)
    requires g.Valid()
    ensures g.FirstSector(b) == b * g.spb && g.Start(b) == b * g.BlockSize()
    ensures g.BlockNo(sector) == sector / g.spb && g.InBlock(sector) == sector % g.spb
  {
    FirstSectorIsProduct(g, b);
    FirstSectorIsProduct(g, g.BlockNo(sector));
    StartForm(b, g.spb);
    DivModUnique(sector, g.spb, g.BlockNo(sector), g.InBlock(sector));
  }

  lemma StartForm(b: nat, spb: nat)
    ensures b * spb * SECTOR == b * (spb * SECTOR)
  {
  }

  lemma {:induction false} SectorsApart(g: Geometry, a: nat, b: nat)
    requires a < b
    ensures g.FirstSector(a) + g.spb == g.FirstSector(a + 1) <= g.FirstSector(b)
  {
    if a + 1 < b {
      SectorsApart(g, a, b - 1);
    }
  }

  lemma BlocksApart(g: Geometry, a: nat, b: nat)
    requires a < b
    ensures g.Start(a) + g.BlockSize() <= g.Start(b)
  {
    SectorsApart(g, a, b);
  }

  lemma BlockBounds(g: Geometry, b: nat)
    requires b < g.blocks
    ensures g.Start(b) + g.BlockSize() == g.Start(b + 1) <= g.DiskSize()
  {
    SectorsApart(g, b, g.blocks);
  }

  function Block(g: Geometry, flat: seq<byte>, b: nat): (r: seq<byte>)
    requires |flat| == g.DiskSize() && b < g.blocks
    ensures |r| == g.BlockSize()
  {
    BlockBounds(g, b);
    flat[g.Start(b)..g.Start(b) + g.BlockSize()]
  }

  /** A write request: stamp, first sector, data. */
  datatype Write = Write(ts: Time, sector: nat, data: seq<byte>)

  predicate Fits(g: Geometry, w: Write) {
    |w.data| % SECTOR == 0 && w.sector * SECTOR + |w.data| <= g.DiskSize()
  }

  function Apply(g: Geometry, flat: seq<byte>, w: Write): (r: seq<byte>)
    requires |flat| == g.DiskSize() && Fits(g, w)
    ensures |r| == |flat|
  {
    Splice(flat, w.sector * SECTOR, w.data)
  }

  predicate AllFit(g: Geometry, writes: seq<Write>) {
    forall i :: 0 <= i < |writes| ==> Fits(g, writes[i])
  }

  /** The disk after all of `writes`, oldest first, starting from zeros. */
  function Replay(g: Geometry, writes: seq<Write>): (r: seq<byte>)
    requires AllFit(g, writes)
    ensures |r| == g.DiskSize()
  {
    if writes == [] then Zeros(g.DiskSize())
    else Apply(g, Replay(g, writes[..|writes| - 1]), writes[|writes| - 1])
  }

  /** The writes stamped before `t`, in order. */
  function StampedBefore(writes: seq<Write>, t: Time): (r: seq<Write>)
    ensures forall w :: w in r ==> w in writes && Earlier(w.ts, t)
  {
    if writes == [] then []
    else
      var rest := StampedBefore(writes[..|writes| - 1], t);
      if Earlier(writes[|writes| - 1].ts, t) then rest + [writes[|writes| - 1]] else rest
  }

  /** The clock never ran backwards between two requests. */
  predicate ClockOrdered(writes: seq<Write>) {
    forall i, j :: 0 <= i < j < |writes| ==> !Earlier(writes[j].ts, writes[i].ts)
  }
}
