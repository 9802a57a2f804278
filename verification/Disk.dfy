/** preservation.c: an open disk. Ghost fields keep the version history that the log holds. */
module Disk {
  import opened Bits
  import opened Bytes
  import opened Flat
  import opened Rounding
  import opened Trim
  import opened Versions
  import opened Requests
  import opened Log
  import opened Image
  import opened Store
  import opened BufferedIo
  import opened RecordIo
  import opened Finalize
  import opened Widths
  import opened Files
  import opened Windows
  import opened Traces
  import opened Crash

  /** The `data_header` of an image, read into a sector-sized buffer; `n` bytes were there to read. */
  method ReadDataHeader(fd: ImageFile, ghost g: Geometry, ghost next: nat)
    returns (header: array<byte>, n: nat, blocks: nat, spb: nat, nextOffset: nat)
    requires g.Valid() && next < LIMIT && HasHeader(g, fd.data, next)
    ensures fresh(header) && header.Length == 512
    ensures n == (if |fd.data| < 512 then |fd.data| else 512)
    ensures header[..24] == DataHeader(g, next)
    ensures Geometry(blocks, spb) == g && nextOffset == next
  {
    hide IndexBytes, HeadOff, Newest, StepKeeps, Holds, CacheOk, IndexOk, DataHeader;
    header := new byte[512];
    n := fd.ReadAt(0, header, 512);
    ghost var h := header[..24];
    assert h == fd.data[..24];
    DataHeaderRoundTrip(g, next);
    assert header[0..8] == h[0..8] && header[8..16] == h[8..16] && header[16..24] == h[16..24];
    var diskSize, blockSize := FromLe(header[0..8]), FromLe(header[8..16]);
    blocks, spb := diskSize / blockSize, blockSize / SECTOR;
    nextOffset := FromLe(header[16..24]);
  }

  /** The index table behind the header, read from file position `pos` into zeroed memory. */
  method ReadIndex(fd: ImageFile, pos: nat, blocks: nat) returns (index: array<nat>)
    requires pos == (if |fd.data| < 512 then |fd.data| else 512) && blocks < 0x8000_0000
    ensures fresh(index) && 8 * index.Length == Up512(blocks * 8)
    ensures forall b :: 0 <= b < index.Length ==> index[..][b] == IndexEntry(fd.data, b)
  {
    hide Up512, IndexEntry;
    var size := RoundUp512(blocks * 8);
    WholeWords(size);
    var bytes := ReadZeroFilled(fd, pos, size);
    index := Decoded(bytes, fd.data);
  }

  /** read() into `size` zeroed bytes behind the header. */
  method ReadZeroFilled(fd: ImageFile, pos: nat, size: nat) returns (bytes: seq<byte>)
    requires pos == (if |fd.data| < 512 then |fd.data| else 512)
    ensures |bytes| == size && TableBytes(fd.data, bytes)
  {
    var raw := new byte[size];
    Clear(raw, 0, size);
    assert raw[0..size] == raw[..];
    var n := fd.ReadAt(pos, raw, size);
    bytes := raw[..];
  }

  /** The entries, eight bytes each. */
  method Decoded(bytes: seq<byte>, ghost img: seq<byte>) returns (index: array<nat>)
    requires |bytes| % 8 == 0 && TableBytes(img, bytes)
    ensures fresh(index) && 8 * index.Length == |bytes|
    ensures forall b :: 0 <= b < index.Length ==> index[..][b] == IndexEntry(img, b)
  {
    hide FromLe, IndexEntry;
    index := new nat[|bytes| / 8](b requires 0 <= b < |bytes| / 8 => FromLe(bytes[8 * b..8 * b + 8]));
    forall b | 0 <= b < index.Length ensures index[b] == IndexEntry(img, b) {
      TableEntry(img, bytes, b);
    }
  }

  /** The reading part of open_disk: works on every image that holds some history. */
  method LoadTables(fd: ImageFile, ghost s: OpenStore) returns (header: array<byte>, index: array<nat>, g: Geometry, next: nat)
    requires s.data == fd.data && AtRest(s)
    ensures fresh(header) && header.Length == 512 && forall k :: 0 <= k < 16 ==> header[k] == DataHeader(g, 0)[k]
    ensures fresh(index) && 8 * index.Length == IndexBytes(g)
    ensures g == s.g && next == s.next && g.Valid() && next % 512 == 0 && next < LIMIT
    ensures IndexOk(g, index[..], s.hist, s.offs)
  {
    AtRestTables(s, []);
    var n, blocks, spb;
    header, n, blocks, spb, next := ReadDataHeader(fd, s.g, s.next);
    g := Geometry(blocks, spb);
    index := ReadIndex(fd, n, blocks);
    AtRestTables(s, index[..]);
    HeaderStarts(g, header[..], next);
  }

  /** Disk size and block size do not depend on the end of the log. */
  lemma HeaderStarts(g: Geometry, header: seq<byte>, next: nat)
    requires |header| == 512 && header[..24] == DataHeader(g, next)
    ensures forall k :: 0 <= k < 16 ==> header[k] == DataHeader(g, 0)[k]
  {
    assert DataHeader(g, next)[..16] == DataHeader(g, 0)[..16];
    forall k | 0 <= k < 16 ensures header[k] == DataHeader(g, 0)[k] {
      assert header[k] == header[..24][k] == DataHeader(g, next)[..16][k];
    }
  }

  /** Setting next_offset in a header buffer. */
  lemma HeaderPatched(g: Geometry, header: seq<byte>, next: nat)
    requires |header| == 512 && (forall k :: 0 <= k < 16 ==> header[k] == DataHeader(g, 0)[k]) && header[16..24] == ToLe(next, 8)
    ensures HeaderFor(g, header, next)
  {
    assert DataHeader(g, next)[..16] == DataHeader(g, 0)[..16];
    assert header[..16] == DataHeader(g, 0)[..16];
    assert header[..24] == header[..16] + header[16..24];
    assert DataHeader(g, next) == DataHeader(g, next)[..16] + ToLe(next, 8);
  }

  /** Reading the record under a head is reading the block, as far as the window goes. */
  lemma LatestWindow(s: OpenStore, w: Window, b: nat)
    ensures |s.offs| == |s.hist|
    ensures var o := HeadOff(s.hist, s.offs, |s.hist|, b, Now);
      o != 0 ==> o + HEADER <= |s.log|
    ensures var o := HeadOff(s.hist, s.offs, |s.hist|, b, Now);
      BlockWindow(s.hist, s.offs, w, b) == if o == 0 then w else RecordWindow(w, o, HeaderSize(s.log[o..o + HEADER]))
  {
    hide TrimSize, HeaderSize, HeaderTs, HeaderNext, RecordWindow;
    var i := Newest(s.hist, |s.hist|, b, Now);
    if i >= 0 {
      RecordParts(s, i);
      RecordHeader(s, i);
    }
  }

  class PreservationDisk {
    const file: ImageFile
    const bio: BufferedIo
    const readOnly: bool
    const restore: Time
    const g: Geometry
    const header: array<byte>
    const index: array<nat>
    const cacheEnable: array<bv8>
    const cachedSize: array<nat>
    ghost var store: OpenStore
    /** The writes that the file had seen when it was opened. */
    ghost const before: seq<FileStep>

    ghost predicate Apart(a: array<byte>)
    {
      a as object != index && a as object != cacheEnable && a as object != cachedSize
    }

    ghost predicate Shape()
    {
      && bio.file == file && bio.readOnly == readOnly
      && header.Length == 512 && 8 * index.Length == IndexBytes(g)
      && Apart(bio.readBuffer) && Apart(bio.buffer) && Apart(header)
      && header != bio.readBuffer && header != bio.buffer
      && index != cachedSize && cacheEnable as object != index && cacheEnable as object != cachedSize
    }

    ghost predicate Valid()
      reads this, bio, file, bio.readBuffer, bio.buffer, header, index, cacheEnable, cachedSize
    {
      && Shape() && bio.Valid() && bio.bufferPos % 16 == 0
      && store.g == g && store.data == file.data && store.next == bio.nextOffset && store.log == bio.log
      && (forall k :: 0 <= k < 16 ==> header[k] == DataHeader(g, 0)[k])
      && TableOk() && (readOnly ==> bio.WindowFresh() && !bio.stale && AtRest(store))
      && Kept()
    }

    /** No write of this session so far has endangered what the image holds since it was last finalized. */
    ghost predicate Kept()
      reads this`store, file
    {
      && file.Valid() && before <= file.steps && |store.offs| == |store.hist| && store.saved <= |store.hist|
      && forall k :: |before| <= k < |file.steps| ==>
           StepKeeps(g, file.steps[k], store.hist[..store.saved], store.offs[..store.saved], store.savedNext)
    }

    /** Where a writable session stands. */
    ghost function Traced(): Trace
      reads this`store, bio, bio.file
    {
      Seen(store.hist, store.offs, bio.State())
    }

    /** The index table is current, or for a restore point, as far as the cache says. */
    ghost predicate TableOk()
      reads this, index, cacheEnable, cachedSize
    {
      if readOnly then CacheOk(g, index[..], cacheEnable[..], cachedSize[..], store.hist, store.offs, restore)
      else IndexOk(g, index[..], store.hist, store.offs)
    }

    /** open_disk. */
    constructor (fd: ImageFile, ro: bool, ts: Time, clears: bool, ghost s: OpenStore)
      requires s.data == fd.data && AtRest(s) && fd.Valid()
      ensures Valid() && fresh(bio) && fresh(bio.readBuffer) && fresh(bio.buffer)
      ensures fresh(header) && fresh(index) && fresh(cacheEnable) && fresh(cachedSize)
      ensures file == fd && readOnly == ro && restore == ts && bio.bufferPos == 0 && store == s && g == s.g
      ensures !bio.stale && bio.WindowFresh() && bio.clearsWindow == clears && before == fd.steps
      ensures bio.State() == Opened(s.next, |fd.data|)
    {
      var hd, table, geo, next := LoadTables(fd, s);
      file, readOnly, restore, g := fd, ro, ts, geo;
      header, index := hd, table;
      bio := new BufferedIo(fd, ro, next, clears);
      var bits := new bv8[if ro then (geo.blocks + 7) / 8 * 8 else 0](_ => 0);
      var sizes := new nat[if ro then geo.blocks else 0](_ => 0);
      cacheEnable, cachedSize := bits, sizes;
      store, before := s, fd.steps;
      if ro {
        CacheStarts(geo, table[..], bits[..], sizes[..], s.hist, s.offs, ts);
      }
    }

    /** Which versions this disk shows. */
    function View(): When
    {
      if readOnly then AsOf(restore) else Now
    }

    /** Whether `dst` is memory of the caller. */
    ghost predicate Foreign(dst: array<byte>)
    {
      dst != bio.readBuffer && dst != bio.buffer && dst != header && Apart(dst)
    }


    /** A read of the block finds its header in a part of the window that the log has overtaken, all zeros. */
    ghost predicate Blank(block: nat)
      reads this, bio, bio.readBuffer, index
    {
      && !readOnly && bio.readBuffer.Length == READ_BUFFER_SIZE && block < index.Length
      && index[block] != 0 && bio.BlankHit(index[block], HEADER)
    }

    /** read_latest_block. */
    method ReadLatestBlock(dst: array<byte>, at: nat, block: nat) returns (ok: bool)
      requires Valid() && !readOnly && Foreign(dst) && block < g.blocks && at + g.BlockSize() <= dst.Length
      modifies bio`readBufferPos, bio`readBufferEnable, bio`validEnd, bio`stale, bio`touched, bio.readBuffer, dst
      ensures Valid()
      ensures old(bio.stale) ==> bio.stale
      ensures !bio.stale ==> ok && WellFormed(g, store.hist) && dst[at..at + g.BlockSize()] == BlockOf(g, store.hist, block, Now)
      ensures dst[..at] == old(dst[..at]) && dst[at + g.BlockSize()..] == old(dst[at + g.BlockSize()..])
      ensures old(bio.WindowFresh()) && !old(bio.stale) ==> bio.WindowFresh() && !bio.stale
      ensures |store.offs| == |store.hist| && bio.State() == BlockWindow(store.hist, store.offs, old(bio.State()), block)
      ensures old(Blank(block)) ==> ok && dst[at..at + g.BlockSize()] == Zeros(g.BlockSize())
    {
      hide BlockWindow, RecordWindow, StepKeeps, BlockOf, HeaderSize;
      RecordUnder(store, block, Now);
      LatestWindow(store, bio.State(), block);
      BlockSizeAligned(g);
      ok := ReadBlockAt(bio, store, index[block], dst, at, g.BlockSize());
    }

    /** The first half of read_current_block: the walk's answer is kept in the index table and reused. */
    method FindCurrent(block: nat) returns (offset: nat, dataSize: nat)
      requires Valid() && readOnly && block < g.blocks
      modifies bio`readBufferPos, bio`readBufferEnable, bio`validEnd, bio`stale, bio`touched, bio.readBuffer
      modifies index, cacheEnable, cachedSize
      ensures Valid()
      ensures |store.offs| == |store.hist| && Answer(store.hist, store.offs, block, restore, offset, dataSize)
    {
      offset := index[block];
      ghost var flags := cacheEnable[..];
      assert Bit(flags, block) <==> cacheEnable[block / 8] & Mask(block % 8) != 0;
      if cacheEnable[block / 8] & Mask(block % 8) == 0 {
        offset, dataSize := Walk(bio, store, block, offset, restore);
        KeepAnswer(block, offset, dataSize);
      } else {
        dataSize := cachedSize[block];
      }
    }

    method KeepAnswer(block: nat, offset: nat, dataSize: nat)
      requires readOnly && Shape() && TableOk() && block < g.blocks
      requires Answer(store.hist, store.offs, block, restore, offset, dataSize)
      modifies index, cacheEnable, cachedSize
      ensures TableOk()
    {
      CacheFilled(g, index[..], cacheEnable[..], cachedSize[..], store.hist, store.offs, restore, block, offset, dataSize);
      ghost var i, c, z := index[..], cacheEnable[..], cachedSize[..];
      index[block] := offset;
      cacheEnable[block / 8] := cacheEnable[block / 8] | Mask(block % 8);
      cachedSize[block] := dataSize;
      assert index[..] == i[block := offset];
      assert cacheEnable[..] == WithBit(c, block);
      assert cachedSize[..] == z[block := dataSize];
    }

    /** read_current_block. */
    method ReadCurrentBlock(dst: array<byte>, at: nat, block: nat) returns (ok: bool)
      requires Valid() && readOnly && Foreign(dst) && block < g.blocks && at + g.BlockSize() <= dst.Length
      modifies bio`readBufferPos, bio`readBufferEnable, bio`validEnd, bio`stale, bio`touched, bio.readBuffer, dst
      modifies index, cacheEnable, cachedSize
      ensures Valid()
      ensures ok && WellFormed(g, store.hist) && dst[at..at + g.BlockSize()] == BlockOf(g, store.hist, block, AsOf(restore))
      ensures dst[..at] == old(dst[..at]) && dst[at + g.BlockSize()..] == old(dst[at + g.BlockSize()..])
    {
      var offset, dataSize := FindCurrent(block);
      ReadAnswer(bio, store, block, restore, offset, dataSize, dst, at, g.BlockSize());
      return true;
    }

    /** `read_block` of pd_read. */
    method ReadBlock(dst: array<byte>, at: nat, block: nat) returns (ok: bool)
      requires Valid() && Foreign(dst) && block < g.blocks && at + g.BlockSize() <= dst.Length
      modifies bio`readBufferPos, bio`readBufferEnable, bio`validEnd, bio`stale, bio`touched, bio.readBuffer, dst
      modifies index, cacheEnable, cachedSize
      ensures Valid()
      ensures old(bio.stale) ==> bio.stale
      ensures !bio.stale ==> ok && WellFormed(g, store.hist)
      ensures !bio.stale ==> dst[at..at + g.BlockSize()] == BlockOf(g, store.hist, block, View())
      ensures dst[..at] == old(dst[..at]) && dst[at + g.BlockSize()..] == old(dst[at + g.BlockSize()..])
      ensures old(bio.WindowFresh()) && !old(bio.stale) ==> bio.WindowFresh() && !bio.stale
      ensures |store.offs| == |store.hist|
      ensures !readOnly ==> bio.State() == BlockWindow(store.hist, store.offs, old(bio.State()), block)
      ensures old(Blank(block)) ==> ok && dst[at..at + g.BlockSize()] == Zeros(g.BlockSize())
    {
      if readOnly {
        ok := ReadCurrentBlock(dst, at, block);
      } else {
        ok := ReadLatestBlock(dst, at, block);
      }
    }

    /** One block more of a stretch that is read into `dst`. */
    method ReadNext(dst: array<byte>, block: nat, i: nat, ghost first: nat) returns (ok: bool)
      requires Valid() && Foreign(dst) && block == first + i < g.blocks && g.Start(i + 1) <= dst.Length
      requires !bio.stale ==> Stretch(g, store.hist, View(), first, i, dst[..g.Start(i)])
      modifies bio`readBufferPos, bio`readBufferEnable, bio`validEnd, bio`stale, bio`touched, bio.readBuffer, dst
      modifies index, cacheEnable, cachedSize
      ensures Valid()
      ensures old(bio.stale) ==> bio.stale
      ensures !bio.stale ==> ok && Stretch(g, store.hist, View(), first, i + 1, dst[..g.Start(i + 1)])
      ensures dst[g.Start(i + 1)..] == old(dst[g.Start(i + 1)..])
      ensures old(bio.WindowFresh()) && !old(bio.stale) ==> bio.WindowFresh() && !bio.stale
      ensures |store.offs| == |store.hist|
      ensures !readOnly ==> bio.State() == BlockWindow(store.hist, store.offs, old(bio.State()), block)
      ensures old(Blank(block)) ==> ok && dst[g.Start(i)..g.Start(i) + g.BlockSize()] == Zeros(g.BlockSize())
    {
      hide Valid, Stretch, BlockOf, WellFormed, Foreign;
      ghost var got := dst[..g.Start(i)];
      ok := ReadBlock(dst, g.Start(i), block);
      if !bio.stale {
        StretchGrows(g, store.hist, View(), first, i, got);
        assert dst[..g.Start(i + 1)] == dst[..g.Start(i)] + dst[g.Start(i)..g.Start(i) + g.BlockSize()];
      }
    }

    lemma StretchBegins(first: nat)
      requires Valid() && first <= g.blocks
      ensures |store.offs| == |store.hist| && g.Valid()
      ensures Stretch(g, store.hist, View(), first, 0, []) && g.Start(0) == 0
      ensures StretchWindow(store.hist, store.offs, bio.State(), first, 0) == bio.State()
    {
      RecordUnder(store, 0, Now);
      BlockSizeAligned(g);
      StretchStarts(g, store.hist, View(), first);
    }

    /** The loop body of pd_read for requests in whole blocks: a block goes straight to its place in the caller's
        buffer. `w` is where the window stood when the request came. */
    method ReadRound(out: array<byte>, first: nat, blocks: nat, i: nat, ghost w: Window) returns (ok: bool)
      requires Valid() && Foreign(out) && i < blocks && first + blocks <= g.blocks && g.Start(blocks) == out.Length
      requires !bio.stale ==> g.Start(i) <= out.Length && Stretch(g, store.hist, View(), first, i, out[..g.Start(i)])
      requires |store.offs| == |store.hist| && (!readOnly ==> bio.State() == StretchWindow(store.hist, store.offs, w, first, i))
      modifies bio`readBufferPos, bio`readBufferEnable, bio`validEnd, bio`stale, bio`touched, bio.readBuffer, out
      modifies index, cacheEnable, cachedSize
      ensures Valid()
      ensures old(bio.stale) ==> bio.stale
      ensures !bio.stale ==> ok && g.Start(i + 1) <= out.Length
      ensures !bio.stale ==> Stretch(g, store.hist, View(), first, i + 1, out[..g.Start(i + 1)])
      ensures old(bio.WindowFresh()) && !old(bio.stale) ==> bio.WindowFresh() && !bio.stale
      ensures !readOnly ==> bio.State() == StretchWindow(store.hist, store.offs, w, first, if ok then i + 1 else blocks)
      ensures blocks == 1 && old(Blank(first)) ==> ok && out[..] == Zeros(g.BlockSize())
    {
      hide StretchWindow, BlockWindow, StepKeeps, BlockOf, Stretch, Blank;
      NoBlockBefore(g, i + 1, blocks);
      StretchNext(store.hist, store.offs, w, first, i);
      ok := ReadNext(out, first + i, i, first);
      if !ok && !readOnly {
        StretchLost(store.hist, store.offs, w, first, i + 1, blocks);
      }
      assert blocks == 1 ==> out[g.Start(0)..g.Start(0) + g.BlockSize()] == out[..];
    }

    /** The loop of pd_read for requests in whole blocks. */
    method ReadBlocks(out: array<byte>, first: nat, blocks: nat) returns (ok: bool)
      requires Valid() && Foreign(out) && first + blocks <= g.blocks && g.Start(blocks) == out.Length
      modifies bio`readBufferPos, bio`readBufferEnable, bio`validEnd, bio`stale, bio`touched, bio.readBuffer, out
      modifies index, cacheEnable, cachedSize
      ensures Valid()
      ensures old(bio.stale) ==> bio.stale
      ensures !bio.stale ==> ok && Stretch(g, store.hist, View(), first, blocks, out[..g.Start(blocks)])
      ensures old(bio.WindowFresh()) && !old(bio.stale) ==> bio.WindowFresh() && !bio.stale
      ensures |store.offs| == |store.hist|
      ensures !readOnly ==> bio.State() == StretchWindow(store.hist, store.offs, old(bio.State()), first, blocks)
      ensures blocks == 1 && old(Blank(first)) ==> ok && out[..] == Zeros(g.BlockSize())
    {
      hide StretchWindow, BlockWindow, Valid, Foreign, Stretch, Blank;
      StretchBegins(first);
      assert out[..g.Start(0)] == [];
      var i: nat := 0;
      ok := true;
      while i < blocks
        invariant i <= blocks && Valid()
        invariant old(bio.stale) ==> bio.stale
        invariant !bio.stale ==> g.Start(i) <= out.Length && Stretch(g, store.hist, View(), first, i, out[..g.Start(i)])
        invariant |store.offs| == |store.hist|
        invariant !readOnly ==> bio.State() == StretchWindow(store.hist, store.offs, old(bio.State()), first, i)
        invariant old(bio.WindowFresh()) && !old(bio.stale) ==> bio.WindowFresh() && !bio.stale
        invariant i == 0 && old(Blank(first)) ==> Blank(first)
        invariant i == 1 && blocks == 1 && old(Blank(first)) ==> ok && out[..] == Zeros(g.BlockSize())
      {
        ok := ReadRound(out, first, blocks, i, old(bio.State()));
        if !ok {
          return;
        }
        i := i + 1;
      }
      ok := true;
    }

    /** pd_read, request in whole blocks. */
    method ReadAligned(sec: nat, secs: nat, out: array<byte>) returns (ok: bool)
      requires Valid() && Foreign(out) && g.InBlock(sec) == 0 && g.InBlock(secs) == 0
      requires (sec + secs) * SECTOR <= g.DiskSize() && secs * SECTOR == out.Length
      modifies bio`readBufferPos, bio`readBufferEnable, bio`validEnd, bio`stale, bio`touched, bio.readBuffer, out
      modifies index, cacheEnable, cachedSize
      ensures Valid()
      ensures old(bio.stale) ==> bio.stale
      ensures !bio.stale ==> ok && WellFormed(g, store.hist)
      ensures !bio.stale ==> out[..] == Show(g, store.hist, View())[sec * SECTOR..(sec + secs) * SECTOR]
      ensures old(bio.WindowFresh()) && !old(bio.stale) ==> bio.WindowFresh() && !bio.stale
      ensures |store.offs| == |store.hist|
      ensures !readOnly ==> bio.State() == StretchWindow(store.hist, store.offs, old(bio.State()), g.BlockNo(sec), g.BlockNo(secs))
      ensures g.BlockNo(secs) == 1 && old(Blank(g.BlockNo(sec))) ==> ok && out[..] == Zeros(g.BlockSize())
    {
      hide Show;
      AlignedBlocks(g, sec, secs);
      ok := ReadBlocks(out, g.BlockNo(sec), g.BlockNo(secs));
      assert out[..out.Length] == out[..];
    }

    /** The loop body of pd_read for other requests. */
    method ReadStep(ghost sec: nat, ghost secs: nat, buf: array<byte>, sector: nat, blocks: nat) returns (ok: bool, next: nat)
      requires Valid() && Foreign(buf) && secs > 0 && (sec + secs) * SECTOR <= g.DiskSize()
      requires g.Start(Touched(g, sec, secs)) <= buf.Length
      requires TouchAt(g, sec, secs, sector, blocks) && sector < sec + secs && g.Start(blocks) <= buf.Length
      requires !bio.stale ==> Stretch(g, store.hist, View(), g.BlockNo(sec), blocks, buf[..g.Start(blocks)])
      modifies bio`readBufferPos, bio`readBufferEnable, bio`validEnd, bio`stale, bio`touched, bio.readBuffer, buf
      modifies index, cacheEnable, cachedSize
      ensures Valid()
      ensures old(bio.stale) ==> bio.stale
      ensures TouchAt(g, sec, secs, next, blocks + 1) && g.Start(blocks + 1) <= buf.Length
      ensures !bio.stale ==> ok && Stretch(g, store.hist, View(), g.BlockNo(sec), blocks + 1, buf[..g.Start(blocks + 1)])
      ensures old(bio.WindowFresh()) && !old(bio.stale) ==> bio.WindowFresh() && !bio.stale
      ensures |store.offs| == |store.hist| && g.BlockNo(sector) == g.BlockNo(sec) + blocks
      ensures !readOnly ==> bio.State() == BlockWindow(store.hist, store.offs, old(bio.State()), g.BlockNo(sec) + blocks)
    {
      hide Show;
      TouchStep(g, sec, secs, sector, blocks);
      var block := g.BlockNo(sector);
      ok := ReadNext(buf, block, blocks, g.BlockNo(sec));
      next := g.FirstSector(block + 1);
    }

    lemma BlocksBegin(sec: nat)
      requires Valid() && sec * SECTOR < g.DiskSize()
      ensures g.Valid() && |store.offs| == |store.hist|
      ensures Stretch(g, store.hist, View(), g.BlockNo(sec), 0, []) && g.Start(0) == 0
      ensures StretchWindow(store.hist, store.offs, bio.State(), g.BlockNo(sec), 0) == bio.State()
    {
      hide StretchWindow, Stretch;
      RecordUnder(store, 0, Now);
      BlockSizeAligned(g);
      NoBlockBefore(g, g.blocks, g.BlockNo(sec));
      StretchBegins(g.BlockNo(sec));
    }

    /** The loop of pd_read for other requests: every block that the request touches is read into `buf`. */
    method ReadTouched(sec: nat, secs: nat, buf: array<byte>) returns (ok: bool, blocks: nat)
      requires Valid() && Foreign(buf) && secs > 0 && (sec + secs) * SECTOR <= g.DiskSize()
      requires g.Start(Touched(g, sec, secs)) <= buf.Length
      modifies bio`readBufferPos, bio`readBufferEnable, bio`validEnd, bio`stale, bio`touched, bio.readBuffer, buf
      modifies index, cacheEnable, cachedSize
      ensures Valid()
      ensures old(bio.stale) ==> bio.stale
      ensures !bio.stale ==>
        ok && Stretch(g, store.hist, View(), g.BlockNo(sec), Touched(g, sec, secs), buf[..g.Start(Touched(g, sec, secs))])
      ensures old(bio.WindowFresh()) && !old(bio.stale) ==> bio.WindowFresh() && !bio.stale
      ensures |store.offs| == |store.hist|
      ensures !readOnly ==>
        bio.State() == StretchWindow(store.hist, store.offs, old(bio.State()), g.BlockNo(sec), Touched(g, sec, secs))
    {
      hide StretchWindow, BlockWindow, Valid, BlockOf, WellFormed, Stretch, Foreign, AtRest, DataHeader;
      BlocksBegin(sec);
      ghost var first := g.BlockNo(sec);
      TouchStarts(g, sec, secs);
      assert buf[..g.Start(0)] == [];
      var sector: nat := sec;
      blocks := 0;
      while sector < sec + secs
        invariant TouchAt(g, sec, secs, sector, blocks) && Valid()
        invariant old(bio.stale) ==> bio.stale
        invariant g.Start(blocks) <= buf.Length
        invariant !bio.stale ==> Stretch(g, store.hist, View(), first, blocks, buf[..g.Start(blocks)])
        invariant |store.offs| == |store.hist|
        invariant !readOnly ==> bio.State() == StretchWindow(store.hist, store.offs, old(bio.State()), first, blocks)
        invariant old(bio.WindowFresh()) && !old(bio.stale) ==> bio.WindowFresh() && !bio.stale
        decreases Touched(g, sec, secs) - blocks
      {
        StretchNext(store.hist, store.offs, old(bio.State()), first, blocks);
        ok, sector := ReadStep(sec, secs, buf, sector, blocks);
        blocks := blocks + 1;
        if !ok {
          if !readOnly { StretchLost(store.hist, store.offs, old(bio.State()), first, blocks, Touched(g, sec, secs)); }
          return;
        }
      }
      ok := true;
      TouchEnds(g, sec, secs, sector, blocks);
    }

    /** pd_read, other requests: the touched blocks are collected in a stack buffer, and the wanted sectors
        copied out of it. */
    method ReadUnaligned(sec: nat, secs: nat, out: array<byte>) returns (ok: bool)
      requires Valid() && Foreign(out) && secs > 0 && secs * SECTOR == out.Length
      requires (sec + secs) * SECTOR <= g.DiskSize() && g.Start(Touched(g, sec, secs)) <= 8192
      modifies bio`readBufferPos, bio`readBufferEnable, bio`validEnd, bio`stale, bio`touched, bio.readBuffer, out
      modifies index, cacheEnable, cachedSize
      ensures Valid()
      ensures old(bio.stale) ==> bio.stale
      ensures !bio.stale ==> ok && WellFormed(g, store.hist)
      ensures !bio.stale ==> out[..] == Show(g, store.hist, View())[sec * SECTOR..(sec + secs) * SECTOR]
      ensures old(bio.WindowFresh()) && !old(bio.stale) ==> bio.WindowFresh() && !bio.stale
      ensures |store.offs| == |store.hist|
      ensures !readOnly ==>
        bio.State() == StretchWindow(store.hist, store.offs, old(bio.State()), g.BlockNo(sec), Touched(g, sec, secs))
    {
      hide Show, StretchWindow, BlockWindow, Kept, TableOk, BlockOf, WellFormed, Stretch, AtRest, DataHeader;
      var buf := new byte[8192](_ => 0);
      var blocks;
      ok, blocks := ReadTouched(sec, secs, buf);
      if !ok {
        return;
      }
      TouchCovers(g, sec, secs);
      var from := g.InBlock(sec) * SECTOR;
      if !bio.stale {
        StretchHolds(g, store.hist, View(), sec, secs, buf[..g.Start(Touched(g, sec, secs))]);
      }
      ghost var got := buf[..];
      CopyIn(out, 0, buf[from..from + secs * SECTOR]);
      assert out[..] == out[0..0 + secs * SECTOR];
      assert got[..g.Start(Touched(g, sec, secs))][from..from + secs * SECTOR] == got[from..from + secs * SECTOR];
    }

    /** pd_read. */
    method PdRead(sec: nat, secs: nat, out: array<byte>) returns (ok: bool)
      requires Valid() && Foreign(out) && Servable(g, sec, secs) && secs * SECTOR == out.Length
      modifies bio`readBufferPos, bio`readBufferEnable, bio`validEnd, bio`stale, bio`touched, bio.readBuffer, out
      modifies index, cacheEnable, cachedSize
      ensures Valid()
      ensures old(bio.stale) ==> bio.stale
      ensures !bio.stale ==> ok && WellFormed(g, store.hist)
      ensures !bio.stale ==> out[..] == Show(g, store.hist, View())[sec * SECTOR..(sec + secs) * SECTOR]
      ensures old(bio.WindowFresh()) && !old(bio.stale) ==> bio.WindowFresh() && !bio.stale
      ensures g.Valid() && Sound(g, old(Traced())) && (!readOnly ==> Traced() == Fetched(g, old(Traced()), sec, secs))
      ensures g.InBlock(sec) == g.InBlock(secs) == 0 && g.BlockNo(secs) == 1 && old(Blank(g.BlockNo(sec))) ==>
        ok && out[..] == Zeros(g.BlockSize())
    {
      if g.InBlock(sec) == 0 && g.InBlock(secs) == 0 {
        ok := ReadAligned(sec, secs, out);
      } else if secs > 0 {
        ok := ReadUnaligned(sec, secs, out);
      } else {
        RecordUnder(store, 0, Now);
        ok := true;
      }
    }

    /** How far the log may reach when everything buffered has been flushed. */
    ghost function Reach(): nat
      reads bio`nextOffset, bio`bufferPos
    {
      bio.nextOffset + Up512(bio.bufferPos)
    }

    /** bio_write of the `size` bytes of a prepared record, and the index update. */
    method LogRecord(buf: array<byte>, size: nat, block: nat, ghost v: Version, ghost pad: seq<byte>)
      requires Valid() && !readOnly && Foreign(buf) && size <= buf.Length && size % 16 == 0
      requires v.block == block < g.blocks && |v.data| == g.BlockSize() <= 4096 && Stamp(v.ts) && |pad| == 6
      requires TrimSize(v.data) <= |v.data| && size == HEADER + TrimSize(v.data)
      requires |store.offs| == |store.hist|
      requires buf[..size] == RecordBytes(v, HeadOff(store.hist, store.offs, |store.hist|, block, Now), pad)
      requires Reach() + 8192 < LIMIT
      modifies this`store, bio`bufferPos, bio`nextOffset, bio`log, bio`readBufferEnable, bio.buffer, file, index
      ensures Valid() && Reach() <= old(Reach()) + 8192
      ensures store.hist == old(store.hist) + [v] && store.saved == old(store.saved)
      ensures Traced() == if old(bio.stale) then Lost
                          else Logged(old(store.hist), old(store.offs), old(bio.State()), v, bio.clearsWindow)
    {
      hide StepKeeps, HeadOff, RecordBytes, TrimSize, Logged, IndexOk, Chained;
      ghost var table, steps := index[..], file.steps;
      var off;
      ghost var s;
      off, s := AppendTo(bio, store, buf, size, v, pad);
      IndexExtended(g, table, store.hist, store.offs, v, off);
      StepsKept(store, file.data, bio.nextOffset, steps, file.steps, |before|);
      ChainedOn(file.origin, steps, file.steps, store.data, file.data);
      index[block] := off;
      assert index[..] == table[block := off];
      assert (store.hist + [v])[..store.saved] == store.hist[..store.saved];
      assert (store.offs + [off])[..store.saved] == store.offs[..store.saved];
      store := s;
    }

    /** Trims the block that starts behind the header in `buf` and fills in the header, linked to the
        block's present head. */
    method Prepare(buf: array<byte>, block: nat, ts: Time, pad: seq<byte>, ghost v: Version) returns (dataSize: nat)
      requires Valid() && !readOnly && Foreign(buf) && buf.Length >= HEADER + g.BlockSize()
      requires block < g.blocks && Stamp(ts) && |pad| == 6 && v == Version(block, ts, buf[HEADER..HEADER + g.BlockSize()])
      modifies buf
      ensures Valid()
      ensures |store.offs| == |store.hist| && |v.data| == g.BlockSize() <= 4096
      ensures dataSize == TrimSize(v.data) <= |v.data| && (HEADER + dataSize) % 16 == 0
      ensures buf[..HEADER + dataSize] == RecordBytes(v, HeadOff(store.hist, store.offs, |store.hist|, block, Now), pad)
      ensures Recorded(store.hist, v) == if dataSize == 0 && index[block] == 0 then store.hist else store.hist + [v]
    {
      hide HeadOff, RecordBytes, TrimSize, Recorded;
      BlockSizeAligned(g);
      RecordUnder(store, block, Now);
      ElisionTest(store, index[..], v);
      dataSize := PrepareRecord(buf, g.BlockSize(), ts, index[block], pad, block);
    }

    /** The end of pd_write's loop body: the prepared block is appended, unless it is empty and was never
        written. */
    method AppendBlock(buf: array<byte>, block: nat, ts: Time, pad: seq<byte>)
      requires Valid() && !readOnly && Foreign(buf) && buf.Length >= HEADER + g.BlockSize()
      requires block < g.blocks && Stamp(ts) && |pad| == 6 && Reach() + 8192 < LIMIT
      modifies this`store, bio`bufferPos, bio`nextOffset, bio`log, bio`readBufferEnable, bio.buffer, file, index, buf
      ensures Valid() && Reach() <= old(Reach()) + 8192
      ensures store.saved == old(store.saved)
      ensures store.hist == Recorded(old(store.hist), Version(block, ts, old(buf[HEADER..HEADER + g.BlockSize()])))
      ensures var v := Version(block, ts, old(buf[HEADER..HEADER + g.BlockSize()]));
        Traced() == if old(bio.stale) || Recorded(old(store.hist), v) == old(store.hist) then old(Traced())
                    else Logged(old(store.hist), old(store.offs), old(bio.State()), v, bio.clearsWindow)
    {
      hide HeadOff, RecordBytes, TrimSize, Recorded, Up512;
      ghost var v := Version(block, ts, buf[HEADER..HEADER + g.BlockSize()]);
      var dataSize := Prepare(buf, block, ts, pad, v);
      if dataSize == 0 && index[block] == 0 {
        return;
      }
      LogRecord(buf, HEADER + dataSize, block, v, pad);
    }

    /** The start of pd_write's loop body: the newest block, with `piece` copied over it from sector `o` on. */
    method ReadAndPatch(buf: array<byte>, block: nat, o: nat, piece: seq<byte>) returns (ok: bool)
      requires Valid() && !readOnly && Foreign(buf) && buf.Length >= HEADER + g.BlockSize()
      requires block < g.blocks && o * SECTOR + |piece| <= g.BlockSize()
      modifies bio`readBufferPos, bio`readBufferEnable, bio`validEnd, bio`stale, bio`touched, bio.readBuffer, buf
      ensures Valid()
      ensures old(bio.stale) ==> bio.stale
      ensures !bio.stale ==> ok && WellFormed(g, store.hist)
      ensures !bio.stale ==> buf[HEADER..HEADER + g.BlockSize()] == Splice(BlockOf(g, store.hist, block, Now), o * SECTOR, piece)
      ensures old(bio.WindowFresh()) && !old(bio.stale) ==> bio.WindowFresh() && !bio.stale
      ensures |store.offs| == |store.hist| && bio.State() == BlockWindow(store.hist, store.offs, old(bio.State()), block)
    {
      ok := ReadLatestBlock(buf, HEADER, block);
      if ok {
        Overlay(buf, g.BlockSize(), o * SECTOR, piece);
      }
    }

    /** One round of pd_write. */
    method UpdateBlock(buf: array<byte>, block: nat, o: nat, piece: seq<byte>, ts: Time, pad: seq<byte>) returns (ok: bool)
      requires Valid() && !readOnly && Foreign(buf) && buf.Length >= HEADER + g.BlockSize()
      requires block < g.blocks && o * SECTOR + |piece| <= g.BlockSize()
      requires Stamp(ts) && |pad| == 6 && Reach() + 8192 < LIMIT
      modifies this`store, bio, bio.readBuffer, bio.buffer, file, index, buf
      ensures Valid() && Reach() <= old(Reach()) + 8192
      ensures store.saved == old(store.saved) && old(store.hist) <= store.hist
      ensures old(bio.stale) ==> bio.stale
      ensures !bio.stale ==> ok && WellFormed(g, old(store.hist)) && store.hist == Patch(g, old(store.hist), ts, block, o, piece)
      ensures Sound(g, old(Traced())) && Traced() == Patched(g, old(Traced()), ts, block, o, piece, bio.clearsWindow)
    {
      hide BlockWindow, Logged, Recorded, BlockOf, WellFormed, Splice, PreservationDisk.Valid, PreservationDisk.Reach;
      ok := ReadAndPatch(buf, block, o, piece);
      if ok {
        AppendBlock(buf, block, ts, pad);
      }
    }

    /** A round of pd_write brings the request `w0`, started from history `h0`, one piece further. */
    method WritePiece(buf: array<byte>, block: nat, o: nat, piece: seq<byte>, ts: Time, pad: seq<byte>,
                      ghost secs: nat, ghost h0: seq<Version>, ghost t0: Trace, ghost w0: Write, ghost w: Write) returns (ok: bool)
      requires Valid() && !readOnly && Foreign(buf) && buf.Length >= HEADER + g.BlockSize()
      requires Pending(g, w) && |w.data| == secs * SECTOR && w.ts == ts && Stamp(ts) && |pad| == 6 && Reach() + 8192 < LIMIT
      requires var n := FirstSectors(g, w.sector, secs);
        && block == g.BlockNo(w.sector) < g.blocks && o == g.InBlock(w.sector) && o * SECTOR + n * SECTOR <= g.BlockSize()
        && n <= secs && piece == w.data[..n * SECTOR]
      requires Following(g, t0, w0, Traced(), w, bio.clearsWindow)
      requires !bio.stale ==> Underway(g, h0, w0, store.hist, w)
      modifies this`store, bio, bio.readBuffer, bio.buffer, file, index, buf
      ensures Valid() && Reach() <= old(Reach()) + 8192
      ensures store.saved == old(store.saved) && old(store.hist) <= store.hist
      ensures old(bio.stale) ==> bio.stale
      ensures !bio.stale ==> ok && Underway(g, h0, w0, store.hist, Rest(g, w))
      ensures Following(g, t0, w0, Traced(), Rest(g, w), bio.clearsWindow)
    {
      ghost var h, t := store.hist, Traced();
      ok := UpdateBlock(buf, block, o, piece, ts, pad);
      if !bio.stale {
        StepIsPatch(g, h, w, secs);
        UnderwayStep(g, h0, w0, h, w);
      }
      SteppedIs(g, t, w, secs, bio.clearsWindow);
      FollowingStep(g, t0, w0, t, w, bio.clearsWindow);
    }

    /** The loop body of pd_write: request `w0`, started from history `h0`, comes one piece further. */
    method WriteRound(buf: array<byte>, src: seq<byte>, secs: nat, sector: nat, remain: nat, ts: Time, pad: seq<byte>,
                      ghost h0: seq<Version>, ghost t0: Trace, ghost w0: Write, ghost w: Write) returns (ok: bool, next: nat, left: nat)
      requires Valid() && !readOnly && Foreign(buf) && buf.Length >= HEADER + g.BlockSize()
      requires w0.data == src && w0.ts == ts && Stamp(ts) && |pad| == 6 && Reach() + 8192 < LIMIT
      requires LoopAt(g, w0, secs, sector, remain, w) && sector < w0.sector + secs
      requires Following(g, t0, w0, Traced(), w, bio.clearsWindow)
      requires !bio.stale ==> Underway(g, h0, w0, store.hist, w)
      modifies this`store, bio, bio.readBuffer, bio.buffer, file, index, buf
      ensures Valid() && Reach() <= old(Reach()) + 8192
      ensures store.saved == old(store.saved) && old(store.hist) <= store.hist
      ensures old(bio.stale) ==> bio.stale
      ensures left < remain && Pending(g, w) && LoopAt(g, w0, secs, next, left, Rest(g, w))
      ensures !bio.stale ==> ok && Underway(g, h0, w0, store.hist, Rest(g, w))
      ensures Following(g, t0, w0, Traced(), Rest(g, w), bio.clearsWindow)
    {
      hide Underway, Following, StepKeeps, Commit, Committed;
      LoopPiece(g, w0, secs, sector, remain, w);
      var block, current := g.BlockNo(sector), FirstSectors(g, sector, remain);
      ok := WritePiece(buf, block, g.InBlock(sector), Piece(src, secs - remain, current), ts, pad, remain, h0, t0, w0, w);
      LoopStep(g, w0, secs, sector, remain, w);
      next, left := g.FirstSector(block + 1), remain - current;
    }

    /** pd_write: the request is cut at block boundaries, and each piece becomes one round. */
    method PdWrite(ts: Time, pad: seq<byte>, sec: nat, secs: nat, src: seq<byte>) returns (ok: bool)
      requires Valid() && !readOnly
      requires Stamp(ts) && |pad| == 6 && |src| == secs * SECTOR && Fits(g, Write(ts, sec, src))
      requires Reach() + (secs + 1) * 8192 < LIMIT
      modifies this`store, bio, bio.readBuffer, bio.buffer, file, index
      ensures Valid() && Reach() <= old(Reach()) + secs * 8192
      ensures store.saved == old(store.saved) && old(store.hist) <= store.hist
      ensures old(bio.stale) ==> bio.stale
      ensures !bio.stale ==> ok && WellFormed(g, old(store.hist))
      ensures !bio.stale ==> store.hist == Commit(g, old(store.hist), Write(ts, sec, src))
      ensures g.Valid() && Sound(g, old(Traced()))
      ensures Traced() == Committed(g, old(Traced()), Write(ts, sec, src), bio.clearsWindow)
    {
      hide Commit, LoopAt, Fits, WellFormed, HeadOff;
      ghost var w0, h0, t0 := Write(ts, sec, src), store.hist, Traced();
      ghost var w := w0;
      RecordUnder(store, 0, Now);
      BlockSizeAligned(g);
      LoopStarts(g, w0, secs);
      var buf := new byte[HEADER + 4096](_ => 0);
      var sector: nat, remain: nat := sec, secs;
      while sector < sec + secs
        invariant LoopAt(g, w0, secs, sector, remain, w)
        invariant Valid() && Reach() <= old(Reach()) + (secs - remain) * 8192
        invariant store.saved == old(store.saved) && old(store.hist) <= store.hist
        invariant old(bio.stale) ==> bio.stale
        invariant !bio.stale ==> Underway(g, h0, w0, store.hist, w)
        invariant Following(g, t0, w0, Traced(), w, bio.clearsWindow)
        decreases remain
      {
        ok, sector, remain := WriteRound(buf, src, secs, sector, remain, ts, pad, h0, t0, w0, w);
        w := Rest(g, w);
        if !ok {
          CommittedLost(g, w, bio.clearsWindow);
          return;
        }
      }
      FollowingEnds(g, t0, w0, secs, sector, remain, Traced(), w, bio.clearsWindow);
      if !bio.stale {
        LoopEnds(g, h0, w0, secs, sector, remain, store.hist, w);
      }
      ok := true;
    }

    /** bio_flush of the whole buffer, before the header is written. */
    method FlushAll()
      requires Valid() && Reach() < LIMIT
      modifies this`store, bio`bufferPos, bio`nextOffset, bio`log, bio`readBufferEnable, file
      ensures Valid() && AllFlushed(store) && bio.bufferPos == 0
      ensures store.hist == old(store.hist) && store.offs == old(store.offs) && store.saved == old(store.saved)
      ensures readOnly ==> file.data == old(file.data) && store == old(store)
      ensures store.next == old(Reach())
      ensures !readOnly ==> bio.State() == AfterFlush(old(bio.State()), bio.clearsWindow)
      ensures readOnly ==> file.steps == old(file.steps)
    {
      hide StepKeeps, Chained;
      ghost var s, steps := store, file.steps;
      bio.Flush();
      StepsKept(s, file.data, bio.nextOffset, steps, file.steps, |before|);
      ChainedOn(file.origin, steps, file.steps, s.data, file.data);
      FlushedOk(s, file.data, bio.nextOffset, bio.log);
      store := Flushed(s, file.data, bio.nextOffset, bio.log);
      assert bio.buffer[..0] == [];
      assert bio.log == Padded(file.data, bio.nextOffset);
      if readOnly {
        assert bio.log == s.log;
      }
    }

    /** `header->next_offset = offset; write_header(disk)`, then the index table behind it. */
    method WriteTables(offset: nat)
      requires Valid() && !readOnly && AllFlushed(store) && offset == store.next && bio.bufferPos == 0
      modifies this`store, file, header
      ensures store == SealedStore(old(store), file.data)
      ensures Holds(g, file.data, store.hist, store.offs, store.next)
      ensures |file.data| == Most(old(|file.data|), DataStart(g))
      ensures file.Valid() && before <= file.steps && forall k :: |before| <= k < |file.steps| ==>
        StepRecovers(g, file.steps[k], store.hist, old(store.saved), store.next)
    {
      hide StepKeeps, StepRecovers, Holds, HeaderFor, EncodeIndex, DataHeader, HeadOff, Placed, Represents, IndexOk, Chained;
      ghost var s, steps := store, file.steps;
      RecordUnder(s, 0, Now);
      CopyIn(header, 16, ToLe(offset, 8));
      HeaderPatched(g, header[..], offset);
      SealedHolds(s, header[..], index[..]);
      HeaderStep(s, header[..], index[..]);
      TableStep(s, header[..], index[..]);
      StepsRecover(s, steps, |before|);
      file.WriteAt(0, header[..]);
      ChainedOn(file.origin, steps, file.steps, s.data, file.data);
      ghost var one, more := file.data, file.steps;
      file.WriteAt(INDEX_START, EncodeIndex(index[..]));
      ChainedOn(file.origin, more, file.steps, one, file.data);
      store := SealedStore(s, file.data);
    }

    /** pd_finalize: flush, header, index table, in this order. */
    method PdFinalize()
      requires Valid() && Reach() < LIMIT
      modifies this`store, bio, file, header
      ensures store.hist == old(store.hist) && store.g == g && store.data == file.data && store.next == old(Reach())
      ensures AtRest(store) && Holds(g, file.data, store.hist, store.offs, store.next)
      ensures readOnly ==> file.data == old(file.data)
      ensures bio.stale == old(bio.stale)
      ensures readOnly ==> file.steps == old(file.steps)
      ensures file.Valid() && before <= file.steps && forall k :: |before| <= k < |file.steps| ==>
        StepRecovers(g, file.steps[k], store.hist, old(store.saved), store.next)
      ensures Sound(g, old(Traced())) && (!readOnly ==>
        Seen(store.hist, store.offs, if bio.stale then Stale else Opened(store.next, |file.data|)) == Renewed(g, old(Traced())))
    {
      hide StepRecovers, StepKeeps, Holds, AfterFlush, Chained;
      ghost var t, saved := Traced(), store.saved;
      FlushAll();
      var offset := bio.nextOffset;
      if !readOnly {
        if t.Trace? { RenewedIs(g, t, bio.State(), bio.clearsWindow); }
        WriteTables(offset);
      } else {
        AtRestIsImage(store);
        StepsRecover(store, file.steps, |before|);
      }
    }
  }
}
