/** The sector arithmetic of pd_read and pd_write: how their loops walk over the blocks of a request. */
module Requests {
  import opened Bytes
  import opened Flat
  import opened Versions

  // ----- pd_write -----

  /** `n` sectors of a request's data, from sector `from` on. */
  function Piece(src: seq<byte>, from: nat, n: nat): (r: seq<byte>)
    requires (from + n) * SECTOR <= |src|
    ensures |r| == n * SECTOR
  {
    src[from * SECTOR..(from + n) * SECTOR]
  }

  /** pd_write's loop variables, `remain` sectors before the end of request `w0`; `w` is what is left of it. */
  ghost predicate LoopAt(g: Geometry, w0: Write, secs: nat, sector: nat, remain: nat, w: Write) {
    && g.Valid() && remain <= secs && |w0.data| == secs * SECTOR
    && w == Write(w0.ts, w0.sector + (secs - remain), w0.data[(secs - remain) * SECTOR..])
    && Fits(g, w)
    && (if remain == 0 then sector >= w0.sector + secs else sector == w.sector)
  }

  lemma LoopStarts(g: Geometry, w0: Write, secs: nat)
    requires g.Valid() && Fits(g, w0) && |w0.data| == secs * SECTOR
    ensures LoopAt(g, w0, secs, w0.sector, secs, w0)
  {
    assert w0.data[0..] == w0.data;
  }

  /** The piece that one round takes. */
  lemma LoopPiece(g: Geometry, w0: Write, secs: nat, sector: nat, remain: nat, w: Write)
    requires LoopAt(g, w0, secs, sector, remain, w) && sector < w0.sector + secs
    ensures var b, o, n := g.BlockNo(sector), g.InBlock(sector), FirstSectors(g, sector, remain);
      && 0 < n <= remain && b < g.blocks && o * SECTOR + n * SECTOR <= g.BlockSize()
      && Pending(g, w) && sector == w.sector && |w.data| == remain * SECTOR && (secs - remain + n) * SECTOR <= |w0.data|
      && Piece(w0.data, secs - remain, n) == w.data[..n * SECTOR]
  {
    assert |w.data| == remain * SECTOR;
    RoundIsStep(g, w, remain);
    var n, from := FirstSectors(g, sector, remain), secs - remain;
    assert (from + n) * SECTOR == from * SECTOR + n * SECTOR;
  }

  /** One round moves the loop by one piece of the request. */
  lemma LoopStep(g: Geometry, w0: Write, secs: nat, sector: nat, remain: nat, w: Write)
    requires LoopAt(g, w0, secs, sector, remain, w) && sector < w0.sector + secs
    ensures var n := FirstSectors(g, sector, remain);
      0 < n <= remain && Pending(g, w) && LoopAt(g, w0, secs, g.FirstSector(g.BlockNo(sector) + 1), remain - n, Rest(g, w))
  {
    LoopPiece(g, w0, secs, sector, remain, w);
    RoundIsStep(g, w, remain);
    var n, from := FirstSectors(g, sector, remain), secs - remain;
    assert (from + n) * SECTOR == from * SECTOR + n * SECTOR;
    assert w0.data[from * SECTOR..][n * SECTOR..] == w0.data[(from + n) * SECTOR..];
  }

  /** The loop ends when nothing is left of the request. */
  lemma LoopEnds(g: Geometry, h0: seq<Version>, w0: Write, secs: nat, sector: nat, remain: nat, h: seq<Version>, w: Write)
    requires LoopAt(g, w0, secs, sector, remain, w) && sector >= w0.sector + secs
    requires Underway(g, h0, w0, h, w)
    ensures h == Commit(g, h0, w0)
  {
  }

  // ----- pd_read -----

  /** A request in whole blocks. */
  lemma AlignedBlocks(g: Geometry, sec: nat, secs: nat)
    requires g.Valid() && g.InBlock(sec) == 0 && g.InBlock(secs) == 0 && (sec + secs) * SECTOR <= g.DiskSize()
    ensures g.BlockNo(sec) + g.BlockNo(secs) <= g.blocks
    ensures g.Start(g.BlockNo(sec)) == sec * SECTOR && g.Start(g.BlockNo(secs)) == secs * SECTOR
  {
    FirstSectorAdds(g, g.BlockNo(sec), g.BlockNo(secs));
    if g.BlockNo(sec) + g.BlockNo(secs) > g.blocks {
      SectorsApart(g, g.blocks, g.BlockNo(sec) + g.BlockNo(secs));
    }
  }

  /** How many blocks a request touches. */
  function Touched(g: Geometry, sec: nat, secs: nat): nat
    requires g.Valid() && secs > 0
  {
    NoBlockBetween(g, sec, sec + secs - 1);
    g.BlockNo(sec + secs - 1) - g.BlockNo(sec) + 1
  }

  lemma NoBlockBetween(g: Geometry, a: nat, b: nat)
    requires g.Valid() && a <= b
    ensures g.BlockNo(a) <= g.BlockNo(b)
  {
    if g.BlockNo(b) < g.BlockNo(a) {
      SectorsApart(g, g.BlockNo(b), g.BlockNo(a));
    }
  }

  /** pd_read's loop variables after `n` blocks. */
  ghost predicate TouchAt(g: Geometry, sec: nat, secs: nat, sector: nat, n: nat)
    requires g.Valid() && secs > 0
  {
    && n <= Touched(g, sec, secs)
    && (if n == 0 then sector == sec else sector == g.FirstSector(g.BlockNo(sec) + n))
    && (sector < sec + secs <==> n < Touched(g, sec, secs))
  }

  lemma TouchStarts(g: Geometry, sec: nat, secs: nat)
    requires g.Valid() && secs > 0 && (sec + secs) * SECTOR <= g.DiskSize()
    ensures TouchAt(g, sec, secs, sec, 0) && g.BlockNo(sec) < g.blocks
  {
    SectorBlock(g, sec, 1);
  }

  lemma BlockNoOfFirst(g: Geometry, sector: nat, b: nat)
    requires g.Valid() && g.FirstSector(b) <= sector < g.FirstSector(b) + g.spb
    ensures g.BlockNo(sector) == b
  {
    var c := g.BlockNo(sector);
    if c < b { SectorsApart(g, c, b); } else if b < c { SectorsApart(g, b, c); }
  }

  /** The loop is at the right block. */
  lemma TouchWhere(g: Geometry, sec: nat, secs: nat, sector: nat, n: nat)
    requires g.Valid() && secs > 0 && TouchAt(g, sec, secs, sector, n) && sector < sec + secs
    ensures g.BlockNo(sector) == g.BlockNo(sec) + n
  {
    if n > 0 { BlockNoOfFirst(g, sector, g.BlockNo(sec) + n); }
  }

  /** Block `b`'s end passes the last sector exactly if `b` is the last block. */
  lemma PastLast(g: Geometry, last: nat, b: nat)
    requires g.Valid() && b <= g.BlockNo(last)
    ensures g.FirstSector(b + 1) <= last <==> b < g.BlockNo(last)
  {
    NoBlockBefore(g, b + 1, g.BlockNo(last));
  }

  lemma TouchStep(g: Geometry, sec: nat, secs: nat, sector: nat, n: nat)
    requires g.Valid() && secs > 0 && (sec + secs) * SECTOR <= g.DiskSize()
    requires TouchAt(g, sec, secs, sector, n) && sector < sec + secs
    ensures g.BlockNo(sector) == g.BlockNo(sec) + n < g.blocks
    ensures g.Start(n + 1) <= g.Start(Touched(g, sec, secs))
    ensures TouchAt(g, sec, secs, g.FirstSector(g.BlockNo(sector) + 1), n + 1)
  {
    hide Geometry.FirstSector, Geometry.BlockNo, Geometry.Start, Touched;
    TouchWhere(g, sec, secs, sector, n);
    SectorBlock(g, sector, 1);
    StartsGrow(g, n + 1, Touched(g, sec, secs));
    TouchNext(g, sec, secs, n);
  }

  lemma StartsGrow(g: Geometry, a: nat, b: nat)
    requires a <= b
    ensures g.Start(a) <= g.Start(b)
  {
    NoBlockBefore(g, a, b);
  }

  /** The next block is past the request exactly if it was the last one. */
  lemma TouchNext(g: Geometry, sec: nat, secs: nat, n: nat)
    requires g.Valid() && secs > 0 && n < Touched(g, sec, secs)
    ensures TouchAt(g, sec, secs, g.FirstSector(g.BlockNo(sec) + n + 1), n + 1)
  {
    hide Geometry.FirstSector, Geometry.BlockNo;
    PastLast(g, sec + secs - 1, g.BlockNo(sec) + n);
    assert g.BlockNo(sec) + n + 1 == g.BlockNo(sec) + (n + 1);
  }

  lemma TouchEnds(g: Geometry, sec: nat, secs: nat, sector: nat, n: nat)
    requires g.Valid() && secs > 0 && TouchAt(g, sec, secs, sector, n) && sector >= sec + secs
    ensures n == Touched(g, sec, secs)
  {
  }

  /** The touched blocks cover the request, which starts InBlock(sec) sectors into the first of them. */
  lemma TouchCovers(g: Geometry, sec: nat, secs: nat)
    requires g.Valid() && secs > 0 && (sec + secs) * SECTOR <= g.DiskSize()
    ensures sec * SECTOR == g.Start(g.BlockNo(sec)) + g.InBlock(sec) * SECTOR
    ensures (g.InBlock(sec) + secs) * SECTOR <= g.Start(Touched(g, sec, secs))
  {
    FirstSectorAdds(g, g.BlockNo(sec), Touched(g, sec, secs));
  }

  /** The requests that pd_read can serve: whole blocks, or few enough blocks for its stack buffer. */
  predicate Servable(g: Geometry, sec: nat, secs: nat) {
    && g.Valid() && (sec + secs) * SECTOR <= g.DiskSize()
    && (WholeBlocks(g, sec, secs) || secs == 0 || g.Start(Touched(g, sec, secs)) <= 8192)
  }

  predicate WholeBlocks(g: Geometry, sec: nat, secs: nat)
    requires g.Valid()
  {
    g.InBlock(sec) == 0 && g.InBlock(secs) == 0
  }

  /** Up to two blocks of any size always fit. */
  lemma TwoBlocksFit(g: Geometry, sec: nat, secs: nat)
    requires g.Valid() && secs > 0 && Touched(g, sec, secs) <= 2
    ensures g.Start(Touched(g, sec, secs)) <= 8192
  {
    hide Geometry.FirstSector;
    var n := Touched(g, sec, secs);
    FirstBlocks(g, 2);
    NoBlockBefore(g, n, 2);
    assert g.FirstSector(n) <= 16;
  }

  /** In the terms of the source: from the block of the first sector to that of the last, 8192 bytes at most. */
  lemma ServableIs(g: Geometry, sec: nat, secs: nat)
    requires g.Valid()
    ensures Servable(g, sec, secs) <==>
      && (sec + secs) * 512 <= g.blocks * (g.spb * 512)
      && (sec % g.spb == 0 == secs % g.spb
          || secs == 0 || ((sec + secs - 1) / g.spb - sec / g.spb + 1) * (g.spb * 512) <= 8192)
  {
    hide Geometry.FirstSector, Geometry.BlockNo, Geometry.InBlock;
    ProductForms(g, g.blocks, sec);
    ProductForms(g, 0, secs);
    if secs > 0 {
      ProductForms(g, 0, sec + secs - 1);
      ProductForms(g, Touched(g, sec, secs), sec);
    }
  }

  lemma FirstBlocks(g: Geometry, b: nat)
    ensures b == 1 ==> g.FirstSector(b) == g.spb
    ensures b == 2 ==> g.FirstSector(b) == g.spb + g.spb
  {
    FirstSectorIsProduct(g, b);
  }

  /** The bytes of a request inside the stretch of its touched blocks. */
  lemma StretchHolds(g: Geometry, hist: seq<Version>, when: When, sec: nat, secs: nat, got: seq<byte>)
    requires g.Valid() && secs > 0 && (sec + secs) * SECTOR <= g.DiskSize()
    requires Stretch(g, hist, when, g.BlockNo(sec), Touched(g, sec, secs), got)
    ensures (g.InBlock(sec) + secs) * SECTOR <= |got|
    ensures got[g.InBlock(sec) * SECTOR..(g.InBlock(sec) + secs) * SECTOR] == Show(g, hist, when)[sec * SECTOR..(sec + secs) * SECTOR]
  {
    TouchCovers(g, sec, secs);
    CutOut(Show(g, hist, when), g.Start(g.BlockNo(sec)), got, g.InBlock(sec) * SECTOR, (g.InBlock(sec) + secs) * SECTOR,
      sec * SECTOR, (sec + secs) * SECTOR);
  }

  lemma CutOut<T>(s: seq<T>, a: nat, got: seq<T>, i: nat, j: nat, from: nat, to: nat)
    requires a + |got| <= |s| && got == s[a..a + |got|]
    requires i <= j <= |got| && from == a + i && to == a + j
    ensures got[i..j] == s[from..to]
  {
    SliceOfSlice(s, a, a + |got|, i, j);
  }

  lemma SliceOfSlice<T>(s: seq<T>, a: nat, b: nat, i: nat, j: nat)
    requires a <= b <= |s| && i <= j <= b - a
    ensures s[a..b][i..j] == s[a + i..a + j]
  {
    forall k | 0 <= k < j - i ensures s[a..b][i..j][k] == s[a + i..a + j][k] {
    }
  }
}
