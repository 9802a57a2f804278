/** The history of a disk as a list of block versions, and what it has to do with the flat disk.
    A version holds a whole block; the log stores versions in the order in which they were written. */
module Versions {
  import opened Bytes
  import opened Flat

  datatype Version = Version(block: nat, ts: Time, data: seq<byte>)

  /** Which versions a reader accepts: all of them, or those stamped before a restore point. */
  datatype When = Now | AsOf(t: Time)

  predicate Admits(when: When, ts: Time) {
    when.Now? || Earlier(ts, when.t)
  }

  predicate WellFormed(g: Geometry, hist: seq<Version>) {
    forall i :: 0 <= i < |hist| ==> hist[i].block < g.blocks && |hist[i].data| == g.BlockSize()
  }

  predicate Chosen(hist: seq<Version>, i: nat, b: nat, when: When)
    requires i < |hist|
  {
    hist[i].block == b && Admits(when, hist[i].ts)
  }

  /** The place in `hist[..n]` of the newest accepted version of block `b`, or -1. */
  function Newest(hist: seq<Version>, n: nat, b: nat, when: When): (r: int)
    requires n <= |hist|
    ensures -1 <= r < n
    ensures r >= 0 ==> Chosen(hist, r, b, when)
    ensures forall i :: r < i < n ==> !Chosen(hist, i, b, when)
  {
    if n == 0 then -1
    else if Chosen(hist, n - 1, b, when) then n - 1
    else Newest(hist, n - 1, b, when)
  }

  /** Newest is determined by its contract. */
  lemma NewestIs(hist: seq<Version>, n: nat, b: nat, when: When, r: int)
    requires n <= |hist| && -1 <= r < n
    requires r >= 0 ==> Chosen(hist, r, b, when)
    requires forall i :: r < i < n ==> !Chosen(hist, i, b, when)
    ensures Newest(hist, n, b, when) == r
  {
  }

  function BlockOf(g: Geometry, hist: seq<Version>, b: nat, when: When): (r: seq<byte>)
    requires WellFormed(g, hist)
    ensures |r| == g.BlockSize()
  {
    var i := Newest(hist, |hist|, b, when);
    if i < 0 then Zeros(g.BlockSize()) else hist[i].data
  }

  predicate EverWritten(hist: seq<Version>, b: nat) {
    Newest(hist, |hist|, b, Now) >= 0
  }

  /** Adding a version changes what is read of its own block, if accepted, and nothing else. */
  lemma Appended(g: Geometry, hist: seq<Version>, v: Version, b: nat, when: When)
    requires WellFormed(g, hist) && v.block < g.blocks && |v.data| == g.BlockSize()
    ensures WellFormed(g, hist + [v])
    ensures BlockOf(g, hist + [v], b, when)
         == if v.block == b && Admits(when, v.ts) then v.data else BlockOf(g, hist, b, when)
  {
    var all := hist + [v];
    var i := Newest(hist, |hist|, b, when);
    if v.block == b && Admits(when, v.ts) {
      assert Chosen(all, |hist|, b, when);
      NewestIs(all, |all|, b, when, |hist|);
    } else {
      forall k | i < k < |all| ensures !Chosen(all, k, b, when) {
        if k < |hist| { assert !Chosen(hist, k, b, when); }
      }
      if i >= 0 { assert Chosen(hist, i, b, when); assert Chosen(all, i, b, when); }
      NewestIs(all, |all|, b, when, i);
    }
  }

  /** pd_write appends a version unless it is all zeros and the block has never been written. */
  function Recorded(hist: seq<Version>, v: Version): (r: seq<Version>)
    ensures hist <= r
  {
    if IsZero(v.data) && !EverWritten(hist, v.block) then hist else hist + [v]
  }

  /** Exactly the zeros of a block that no version has are left out. */
  lemma LeftOutIff(hist: seq<Version>, v: Version)
    ensures Recorded(hist, v) ==
      if (forall k :: 0 <= k < |v.data| ==> v.data[k] == 0) && (forall i :: 0 <= i < |hist| ==> hist[i].block != v.block)
      then hist else hist + [v]
  {
    var i := Newest(hist, |hist|, v.block, Now);
    if i >= 0 {
      assert Chosen(hist, i, v.block, Now);
    } else {
      forall k | 0 <= k < |hist| ensures hist[k].block != v.block { assert !Chosen(hist, k, v.block, Now); }
    }
  }

  /** No block starts with a version of zeros. */
  ghost predicate StartsWritten(hist: seq<Version>) {
    forall i :: 0 <= i < |hist| && IsZero(hist[i].data) ==> exists j :: 0 <= j < i && hist[j].block == hist[i].block
  }

  lemma RecordedStarts(hist: seq<Version>, v: Version)
    requires StartsWritten(hist)
    ensures StartsWritten(Recorded(hist, v))
  {
    LeftOutIff(hist, v);
    var all := Recorded(hist, v);
    forall i | 0 <= i < |all| && IsZero(all[i].data) ensures exists j :: 0 <= j < i && all[j].block == all[i].block {
      if i < |hist| {
        var j :| 0 <= j < i && hist[j].block == hist[i].block;
        assert all[j].block == all[i].block;
      } else {
        var j :| 0 <= j < |hist| && hist[j].block == v.block;
        assert all[j].block == all[i].block;
      }
    }
  }

  /** One step of pd_write: block `b` is read, patched from sector `o` on and recorded. */
  function Patch(g: Geometry, hist: seq<Version>, ts: Time, b: nat, o: nat, data: seq<byte>): (r: seq<Version>)
    requires WellFormed(g, hist) && b < g.blocks && o * SECTOR + |data| <= g.BlockSize()
    ensures WellFormed(g, r)
  {
    Recorded(hist, Version(b, ts, Splice(BlockOf(g, hist, b, Now), o * SECTOR, data)))
  }

  /** Eliding an all-zero first write changes no read: the step always shows as a patch of block `b`. */
  lemma PatchReads(g: Geometry, hist: seq<Version>, ts: Time, b: nat, o: nat, data: seq<byte>, c: nat)
    requires WellFormed(g, hist) && b < g.blocks && o * SECTOR + |data| <= g.BlockSize()
    ensures BlockOf(g, Patch(g, hist, ts, b, o, data), c, Now)
         == if c == b then Splice(BlockOf(g, hist, b, Now), o * SECTOR, data) else BlockOf(g, hist, c, Now)
  {
    var blk := Splice(BlockOf(g, hist, b, Now), o * SECTOR, data);
    Appended(g, hist, Version(b, ts, blk), c, Now);
    if IsZero(blk) && !EverWritten(hist, b) {
      assert blk == Zeros(g.BlockSize());
    }
  }

  lemma PatchTooLate(g: Geometry, hist: seq<Version>, ts: Time, b: nat, o: nat, data: seq<byte>, c: nat, t: Time)
    requires WellFormed(g, hist) && b < g.blocks && o * SECTOR + |data| <= g.BlockSize()
    requires !Earlier(ts, t)
    ensures BlockOf(g, Patch(g, hist, ts, b, o, data), c, AsOf(t)) == BlockOf(g, hist, c, AsOf(t))
  {
    Appended(g, hist, Version(b, ts, Splice(BlockOf(g, hist, b, Now), o * SECTOR, data)), c, AsOf(t));
  }

  lemma SectorBlock(g: Geometry, sector: nat, len: nat)
    requires g.Valid() && 0 < len && sector * SECTOR + len <= g.DiskSize()
    ensures g.BlockNo(sector) < g.blocks
    ensures sector * SECTOR == g.Start(g.BlockNo(sector)) + g.InBlock(sector) * SECTOR
  {
    NoBlockBefore(g, g.blocks, g.BlockNo(sector));
  }

  lemma NoBlockBefore(g: Geometry, a: nat, b: nat)
    ensures a <= b ==> g.FirstSector(a) <= g.FirstSector(b)
  {
    if a < b {
      SectorsApart(g, a, b);
    }
  }

  /** How many bytes of a request starting at sector `sector` fall into its first block. */
  function FirstPiece(g: Geometry, sector: nat, len: nat): (r: nat)
    requires g.Valid() && len > 0 && len % SECTOR == 0
    ensures 0 < r <= len && r % SECTOR == 0
    ensures g.InBlock(sector) * SECTOR + r <= g.BlockSize()
  {
    var room := (g.spb - g.InBlock(sector)) * SECTOR;
    if room < len then room else len
  }

  /** A request with at least one byte. */
  predicate Pending(g: Geometry, w: Write) {
    Fits(g, w) && w.data != []
  }

  /** What is left of a request when its first piece is done. */
  function Rest(g: Geometry, w: Write): (r: Write)
    requires g.Valid() && Pending(g, w)
    ensures Fits(g, r) && |r.data| < |w.data| && r.ts == w.ts
  {
    var n := FirstPiece(g, w.sector, |w.data|);
    Write(w.ts, w.sector + n / SECTOR, w.data[n..])
  }

  lemma RestStart(g: Geometry, w: Write)
    requires g.Valid() && Pending(g, w)
    ensures Rest(g, w).sector * SECTOR == w.sector * SECTOR + FirstPiece(g, w.sector, |w.data|)
  {
  }

  /** The first piece of a request, written. */
  function Step(g: Geometry, hist: seq<Version>, w: Write): (r: seq<Version>)
    requires g.Valid() && WellFormed(g, hist) && Pending(g, w)
    ensures WellFormed(g, r)
    ensures hist <= r
    ensures forall i :: |hist| <= i < |r| ==> r[i].ts == w.ts
  {
    SectorBlock(g, w.sector, |w.data|);
    Patch(g, hist, w.ts, g.BlockNo(w.sector), g.InBlock(w.sector), w.data[..FirstPiece(g, w.sector, |w.data|)])
  }

  /** How many sectors of a request of `secs` sectors fall into its first block. */
  function FirstSectors(g: Geometry, sector: nat, secs: nat): nat
    requires g.Valid()
  {
    if g.spb - g.InBlock(sector) < secs then g.spb - g.InBlock(sector) else secs
  }

  /** pd_write's sector arithmetic for one round is that of Step and Rest. */
  lemma RoundIsStep(g: Geometry, w: Write, secs: nat)
    requires g.Valid() && Pending(g, w) && |w.data| == secs * SECTOR
    ensures var b, o, n := g.BlockNo(w.sector), g.InBlock(w.sector), FirstSectors(g, w.sector, secs);
      && 0 < n <= secs && b < g.blocks && o * SECTOR + n * SECTOR <= g.BlockSize()
      && Rest(g, w) == Write(w.ts, w.sector + n, w.data[n * SECTOR..])
      && (if n < secs then g.FirstSector(b + 1) == w.sector + n else g.FirstSector(b + 1) >= w.sector + n)
  {
    SectorBlock(g, w.sector, |w.data|);
  }

  lemma StepIsPatch(g: Geometry, hist: seq<Version>, w: Write, secs: nat)
    requires g.Valid() && WellFormed(g, hist) && Pending(g, w) && |w.data| == secs * SECTOR
    ensures var b, o, n := g.BlockNo(w.sector), g.InBlock(w.sector), FirstSectors(g, w.sector, secs);
      && b < g.blocks && n * SECTOR <= |w.data| && o * SECTOR + n * SECTOR <= g.BlockSize()
      && Step(g, hist, w) == Patch(g, hist, w.ts, b, o, w.data[..n * SECTOR])
  {
    SectorBlock(g, w.sector, |w.data|);
  }

  /** All versions that one write request adds, block by block in ascending order. */
  function Commit(g: Geometry, hist: seq<Version>, w: Write): (r: seq<Version>)
    requires g.Valid() && WellFormed(g, hist) && Fits(g, w)
    ensures WellFormed(g, r)
    decreases |w.data|
  {
    if w.data == [] then hist else Commit(g, Step(g, hist, w), Rest(g, w))
  }

  /** With `h` written, the rest `w` of request `w0` leads to where `w0` leads from `h0`. */
  ghost predicate Underway(g: Geometry, h0: seq<Version>, w0: Write, h: seq<Version>, w: Write) {
    && g.Valid() && WellFormed(g, h0) && WellFormed(g, h) && Fits(g, w0) && Fits(g, w)
    && Commit(g, h, w) == Commit(g, h0, w0)
  }

  lemma UnderwayStep(g: Geometry, h0: seq<Version>, w0: Write, h: seq<Version>, w: Write)
    requires Underway(g, h0, w0, h, w) && w.data != []
    ensures Underway(g, h0, w0, Step(g, h, w), Rest(g, w))
  {
  }

  /** The first `n` blocks of the disk as a reader sees them. */
  function ShowBlocks(g: Geometry, hist: seq<Version>, n: nat, when: When): (r: seq<byte>)
    requires WellFormed(g, hist)
    ensures |r| == g.Start(n)
  {
    if n == 0 then [] else ShowBlocks(g, hist, n - 1, when) + BlockOf(g, hist, n - 1, when)
  }

  /** The whole disk as a reader sees it. */
  function Show(g: Geometry, hist: seq<Version>, when: When): (r: seq<byte>)
    requires WellFormed(g, hist)
    ensures |r| == g.DiskSize()
  {
    ShowBlocks(g, hist, g.blocks, when)
  }

  lemma SliceOfFront<T>(front: seq<T>, back: seq<T>, i: nat, j: nat)
    requires i <= j <= |front|
    ensures (front + back)[i..j] == front[i..j]
  {
  }

  lemma {:induction false} ShowsBlock(g: Geometry, hist: seq<Version>, n: nat, b: nat, when: When)
    requires WellFormed(g, hist) && b < n
    ensures g.Start(b) + g.BlockSize() <= g.Start(n)
    ensures ShowBlocks(g, hist, n, when)[g.Start(b)..g.Start(b) + g.BlockSize()] == BlockOf(g, hist, b, when)
  {
    hide BlockOf, WellFormed, Geometry.FirstSector;
    BlocksApart(g, b, n);
    var front, last := ShowBlocks(g, hist, n - 1, when), BlockOf(g, hist, n - 1, when);
    if b < n - 1 {
      BlocksApart(g, b, n - 1);
      ShowsBlock(g, hist, n - 1, b, when);
      SliceOfFront(front, last, g.Start(b), g.Start(b) + g.BlockSize());
    } else {
      SliceOfBack(front, last);
    }
  }

  lemma SliceOfBack<T>(front: seq<T>, back: seq<T>)
    ensures (front + back)[|front|..|front| + |back|] == back
  {
  }

  lemma ShowIs(g: Geometry, hist: seq<Version>, when: When, b: nat)
    requires WellFormed(g, hist) && b < g.blocks
    ensures Block(g, Show(g, hist, when), b) == BlockOf(g, hist, b, when)
  {
    ShowsBlock(g, hist, g.blocks, b, when);
  }

  /** A disk is determined by its blocks. */
  lemma {:induction false} BlocksDetermine(g: Geometry, s: seq<byte>, t: seq<byte>, n: nat)
    requires |s| == |t| == g.DiskSize() && n <= g.blocks
    requires forall b :: 0 <= b < g.blocks ==> Block(g, s, b) == Block(g, t, b)
    ensures g.Start(n) <= g.DiskSize() && s[..g.Start(n)] == t[..g.Start(n)]
  {
    if n > 0 {
      BlockBounds(g, n - 1);
      BlocksDetermine(g, s, t, n - 1);
      assert Block(g, s, n - 1) == Block(g, t, n - 1);
      assert s[..g.Start(n)] == s[..g.Start(n - 1)] + Block(g, s, n - 1);
      assert t[..g.Start(n)] == t[..g.Start(n - 1)] + Block(g, t, n - 1);
    }
  }

  lemma {:induction false} FirstSectorAdds(g: Geometry, a: nat, b: nat)
    ensures g.FirstSector(a + b) == g.FirstSector(a) + g.FirstSector(b)
  {
    if b > 0 {
      FirstSectorAdds(g, a, b - 1);
    }
  }

  /** Reading `n` consecutive blocks one after the other reads one stretch of the disk. */
  ghost predicate Stretch(g: Geometry, hist: seq<Version>, when: When, first: nat, n: nat, got: seq<byte>) {
    && WellFormed(g, hist) && first + n <= g.blocks && |got| == g.Start(n)
    && g.Start(first) + g.Start(n) <= g.DiskSize()
    && got == Show(g, hist, when)[g.Start(first)..g.Start(first) + g.Start(n)]
  }

  lemma StretchGrows(g: Geometry, hist: seq<Version>, when: When, first: nat, n: nat, got: seq<byte>)
    requires Stretch(g, hist, when, first, n, got) && first + n < g.blocks
    ensures Stretch(g, hist, when, first, n + 1, got + BlockOf(g, hist, first + n, when))
  {
    hide Show, BlockOf, WellFormed;
    FirstSectorAdds(g, first, n);
    BlockBounds(g, first + n);
    ShowIs(g, hist, when, first + n);
    var flat, a, b := Show(g, hist, when), g.Start(first), g.Start(first + n);
    assert BlockOf(g, hist, first + n, when) == flat[b..b + g.BlockSize()];
    assert got == flat[a..b];
    SlicesJoin(flat, a, b, b + g.BlockSize());
  }

  lemma SlicesJoin<T>(s: seq<T>, a: nat, b: nat, c: nat)
    requires a <= b <= c <= |s|
    ensures s[a..b] + s[b..c] == s[a..c]
  {
  }

  lemma StretchStarts(g: Geometry, hist: seq<Version>, when: When, first: nat)
    requires WellFormed(g, hist) && first <= g.blocks
    ensures Stretch(g, hist, when, first, 0, [])
  {
    NoBlockBefore(g, first, g.blocks);
  }

  ghost predicate Agrees(g: Geometry, hist: seq<Version>, flat: seq<byte>)
    requires WellFormed(g, hist)
  {
    |flat| == g.DiskSize() &&
    forall b :: 0 <= b < g.blocks ==> BlockOf(g, hist, b, Now) == Block(g, flat, b)
  }

  /** A disk that agrees with a history is what a reader of the newest versions sees. */
  lemma AgreesIsShow(g: Geometry, hist: seq<Version>, flat: seq<byte>)
    requires WellFormed(g, hist)
    ensures Agrees(g, hist, flat) <==> flat == Show(g, hist, Now)
  {
    forall b | 0 <= b < g.blocks { ShowIs(g, hist, Now, b); }
    if Agrees(g, hist, flat) {
      BlocksDetermine(g, flat, Show(g, hist, Now), g.blocks);
      assert flat[..g.DiskSize()] == flat;
      assert Show(g, hist, Now)[..g.DiskSize()] == Show(g, hist, Now);
    }
  }

  lemma PatchIsFlat(g: Geometry, hist: seq<Version>, flat: seq<byte>, ts: Time, b: nat, o: nat, data: seq<byte>)
    requires WellFormed(g, hist) && Agrees(g, hist, flat)
    requires b < g.blocks && o * SECTOR + |data| <= g.BlockSize()
    ensures g.Start(b) + o * SECTOR + |data| <= |flat|
    ensures Agrees(g, Patch(g, hist, ts, b, o, data), Splice(flat, g.Start(b) + o * SECTOR, data))
  {
    hide Patch, BlockOf, Block, Splice;
    BlockBounds(g, b);
    forall c | 0 <= c < g.blocks
      ensures BlockOf(g, Patch(g, hist, ts, b, o, data), c, Now) == Block(g, Splice(flat, g.Start(b) + o * SECTOR, data), c)
    {
      PatchReads(g, hist, ts, b, o, data, c);
      SpliceShows(g, flat, b, o * SECTOR, data, c);
    }
  }

  /** A splice inside block `b` is a splice of that block, and leaves the others alone. */
  lemma SpliceShows(g: Geometry, flat: seq<byte>, b: nat, at: nat, data: seq<byte>, c: nat)
    requires |flat| == g.DiskSize() && b < g.blocks && c < g.blocks && at + |data| <= g.BlockSize()
    ensures g.Start(b) + at + |data| <= |flat|
    ensures Block(g, Splice(flat, g.Start(b) + at, data), c)
         == if c == b then Splice(Block(g, flat, b), at, data) else Block(g, flat, c)
  {
    hide Geometry.FirstSector;
    BlockBounds(g, b);
    BlockBounds(g, c);
    if c < b { BlocksApart(g, c, b); } else if b < c { BlocksApart(g, b, c); }
  }

  lemma SpliceTwice(s: seq<byte>, at: nat, data: seq<byte>, n: nat)
    requires at + |data| <= |s| && n <= |data|
    ensures Splice(Splice(s, at, data[..n]), at + n, data[n..]) == Splice(s, at, data)
  {
  }

  lemma StepIsFlat(g: Geometry, hist: seq<Version>, flat: seq<byte>, w: Write)
    requires g.Valid() && WellFormed(g, hist) && Agrees(g, hist, flat) && Pending(g, w)
    ensures var n := FirstPiece(g, w.sector, |w.data|);
      Agrees(g, Step(g, hist, w), Splice(flat, w.sector * SECTOR, w.data[..n]))
  {
    hide Agrees, Patch, Splice, BlockOf;
    SectorBlock(g, w.sector, |w.data|);
    var n := FirstPiece(g, w.sector, |w.data|);
    PatchIsFlat(g, hist, flat, w.ts, g.BlockNo(w.sector), g.InBlock(w.sector), w.data[..n]);
  }

  /** Request splitting: the pieces of a request together make exactly one flat write. */
  lemma {:induction false} CommitIsFlatWrite(g: Geometry, hist: seq<Version>, flat: seq<byte>, w: Write)
    requires g.Valid() && WellFormed(g, hist) && Agrees(g, hist, flat) && Fits(g, w)
    ensures Agrees(g, Commit(g, hist, w), Apply(g, flat, w))
    decreases |w.data|
  {
    if w.data == [] {
      assert Apply(g, flat, w) == flat;
    } else {
      StepIsFlat(g, hist, flat, w);
      var n := FirstPiece(g, w.sector, |w.data|);
      var flat' := Splice(flat, w.sector * SECTOR, w.data[..n]);
      CommitIsFlatWrite(g, Step(g, hist, w), flat', Rest(g, w));
      assert Apply(g, flat', Rest(g, w)) == Apply(g, flat, w) by {
        RestStart(g, w);
        SpliceTwice(flat, w.sector * SECTOR, w.data, n);
      }
      assert Commit(g, hist, w) == Commit(g, Step(g, hist, w), Rest(g, w));
    }
  }

  lemma {:induction false} CommitTooLate(g: Geometry, hist: seq<Version>, w: Write, c: nat, t: Time)
    requires g.Valid() && WellFormed(g, hist) && Fits(g, w) && !Earlier(w.ts, t)
    ensures BlockOf(g, Commit(g, hist, w), c, AsOf(t)) == BlockOf(g, hist, c, AsOf(t))
    decreases |w.data|
  {
    if w.data != [] {
      SectorBlock(g, w.sector, |w.data|);
      var n := FirstPiece(g, w.sector, |w.data|);
      PatchTooLate(g, hist, w.ts, g.BlockNo(w.sector), g.InBlock(w.sector), w.data[..n], c, t);
      CommitTooLate(g, Step(g, hist, w), Rest(g, w), c, t);
    }
  }

  /** A request only adds versions, all with its own stamp. */
  lemma {:induction false} CommitExtends(g: Geometry, hist: seq<Version>, w: Write)
    requires g.Valid() && WellFormed(g, hist) && Fits(g, w)
    ensures hist <= Commit(g, hist, w)
    ensures forall i :: |hist| <= i < |Commit(g, hist, w)| ==> Commit(g, hist, w)[i].ts == w.ts
    decreases |w.data|
  {
    if w.data != [] {
      CommitExtends(g, Step(g, hist, w), Rest(g, w));
      var mid, all := Step(g, hist, w), Commit(g, hist, w);
      forall i | |hist| <= i < |all| ensures all[i].ts == w.ts {
        if i < |mid| { assert all[i] == mid[i]; }
      }
    }
  }

  lemma {:induction false} CommitStarts(g: Geometry, hist: seq<Version>, w: Write)
    requires g.Valid() && WellFormed(g, hist) && Fits(g, w) && StartsWritten(hist)
    ensures StartsWritten(Commit(g, hist, w))
    decreases |w.data|
  {
    hide StartsWritten, Recorded;
    if w.data != [] {
      SectorBlock(g, w.sector, |w.data|);
      var b, o, data := g.BlockNo(w.sector), g.InBlock(w.sector), w.data[..FirstPiece(g, w.sector, |w.data|)];
      RecordedStarts(hist, Version(b, w.ts, Splice(BlockOf(g, hist, b, Now), o * SECTOR, data)));
      CommitStarts(g, Step(g, hist, w), Rest(g, w));
    }
  }

  /** The versions that a list of requests leaves behind, from an empty disk. */
  function History(g: Geometry, writes: seq<Write>): (r: seq<Version>)
    requires g.Valid() && AllFit(g, writes)
    ensures WellFormed(g, r)
  {
    if writes == [] then []
    else Commit(g, History(g, writes[..|writes| - 1]), writes[|writes| - 1])
  }

  lemma EmptyAgrees(g: Geometry)
    requires g.Valid()
    ensures Agrees(g, [], Zeros(g.DiskSize()))
  {
    forall b | 0 <= b < g.blocks ensures BlockOf(g, [], b, Now) == Block(g, Zeros(g.DiskSize()), b) {
      BlockBounds(g, b);
    }
  }

  /** The newest versions are the flat disk. */
  lemma {:induction false} HistoryIsReplay(g: Geometry, writes: seq<Write>)
    requires g.Valid() && AllFit(g, writes)
    ensures Agrees(g, History(g, writes), Replay(g, writes))
  {
    if writes == [] {
      EmptyAgrees(g);
    } else {
      var front := writes[..|writes| - 1];
      HistoryIsReplay(g, front);
      CommitIsFlatWrite(g, History(g, front), Replay(g, front), writes[|writes| - 1]);
    }
  }
}
