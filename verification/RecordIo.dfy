/** The two reads that preservation.c makes for one record. */
module RecordIo {
  import opened Bytes
  import opened Flat
  import opened Rounding
  import opened Trim
  import opened Versions
  import opened BufferedIo
  import opened Log
  import opened Store
  import opened Widths
  import opened Files
  import opened Windows
  import opened Traces
  import opened Image

  /** `memset(dst + at, 0, n)`. */
  method Clear(dst: array<byte>, at: nat, n: nat)
    requires at + n <= dst.Length
    modifies dst
    ensures dst[at..at + n] == Zeros(n)
    ensures dst[..at] == old(dst[..at]) && dst[at + n..] == old(dst[at + n..])
  {
    CopyIn(dst, at, Zeros(n));
  }

  /** bio_read of the entry header at `offset`. */
  method ReadHeader(bio: BufferedIo, offset: nat) returns (h: array<byte>)
    requires bio.Valid() && bio.Whole(offset, HEADER)
    modifies bio`readBufferPos, bio`readBufferEnable, bio`validEnd, bio`stale, bio`touched, bio.readBuffer
    ensures bio.Valid() && fresh(h) && h.Length == HEADER
    ensures bio.State() == AfterRead(old(bio.State()), offset, HEADER)
    ensures old(bio.BlankHit(offset, HEADER)) ==> h[..] == Zeros(HEADER)
    ensures old(bio.stale) ==> bio.stale
    ensures !bio.stale || offset >= bio.nextOffset ==> h[..] == bio.log[offset..offset + HEADER]
    ensures old(bio.WindowFresh()) ==> bio.WindowFresh()
    ensures old(bio.WindowFresh()) && !old(bio.stale) ==> !bio.stale
  {
    h := new byte[HEADER];
    bio.Read(offset, h, 0, HEADER);
    assert h[..] == h[0..0 + HEADER];
  }

  /** A block from its trimmed data: bio_read of `size` bytes, unless there are none, and memset of the rest. */
  method ReadBody(bio: BufferedIo, pos: nat, size: nat, dst: array<byte>, at: nat, blockSize: nat)
    requires bio.Valid() && dst != bio.buffer && dst != bio.readBuffer
    requires at + blockSize <= dst.Length && size <= blockSize <= 4096
    requires size > 0 && pos >= bio.nextOffset ==> pos - bio.nextOffset + size <= bio.buffer.Length
    modifies bio`readBufferPos, bio`readBufferEnable, bio`validEnd, bio`stale, bio`touched, bio.readBuffer, dst
    ensures bio.Valid()
    ensures bio.State() == if size == 0 then old(bio.State()) else AfterRead(old(bio.State()), pos, size)
    ensures old(bio.stale) ==> bio.stale
    ensures !bio.stale && pos + size <= |bio.log| && (size > 0 ==> bio.Whole(pos, size)) ==>
      dst[at..at + blockSize] == bio.log[pos..pos + size] + Zeros(blockSize - size)
    ensures size == 0 ==> dst[at..at + blockSize] == Zeros(blockSize)
    ensures dst[..at] == old(dst[..at]) && dst[at + blockSize..] == old(dst[at + blockSize..])
    ensures old(bio.WindowFresh()) && (size > 0 ==> bio.Whole(pos, size)) ==> bio.WindowFresh()
    ensures old(bio.WindowFresh()) && (size > 0 ==> bio.Whole(pos, size)) && !old(bio.stale) ==> !bio.stale
  {
    if size == 0 {
      Clear(dst, at, blockSize);
      return;
    }
    ghost var s0 := dst[..];
    bio.Read(pos, dst, at, size);
    ghost var s1 := dst[..];
    Clear(dst, at + size, blockSize - size);
    TwoParts(s0, s1, dst[..], at, size, blockSize - size);
  }

  /** The buffered log is that of a snapshot. */
  ghost predicate Mirrors(s: Snapshot, bio: BufferedIo)
    reads bio, bio.file
  {
    s.log == bio.log && s.next == bio.nextOffset && s.data == bio.file.data
  }

  /** The body of read_latest_block. A header read through a stale window can name more than a block of
      data; the C code then copies past its buffers, and the model stops with `ok == false`. */
  method ReadBlockAt(bio: BufferedIo, ghost s: Snapshot, offset: nat, dst: array<byte>, at: nat, blockSize: nat) returns (ok: bool)
    requires bio.Valid() && Mirrors(s, bio) && dst != bio.buffer && dst != bio.readBuffer
    requires blockSize == s.g.BlockSize() <= 4096 && at + blockSize <= dst.Length
    requires offset == 0 || (Readable(s, offset) && !bio.readOnly)
    modifies bio`readBufferPos, bio`readBufferEnable, bio`validEnd, bio`stale, bio`touched, bio.readBuffer, dst
    ensures bio.Valid()
    ensures bio.State() == if offset == 0 then old(bio.State())
                           else RecordWindow(old(bio.State()), offset, HeaderSize(s.log[offset..offset + HEADER]))
    ensures old(bio.stale) ==> bio.stale
    ensures !bio.stale ==> ok && dst[at..at + blockSize] == if offset == 0 then Zeros(blockSize) else DataAt(s, offset)
    ensures dst[..at] == old(dst[..at]) && dst[at + blockSize..] == old(dst[at + blockSize..])
    ensures old(bio.WindowFresh()) && !old(bio.stale) ==> bio.WindowFresh() && !bio.stale
    ensures old(bio.BlankHit(offset, HEADER)) && offset != 0 ==> ok && dst[at..at + blockSize] == Zeros(blockSize)
  {
    hide HeaderSize, HeaderTs, HeaderNext, AfterRead;
    if offset == 0 {
      Clear(dst, at, blockSize);
      return true;
    }
    var h := ReadHeader(bio, offset);
    var dataSize := HeaderSize(h[..]);
    BlankHeader();
    LostForGood();
    if dataSize > blockSize {
      return false;
    }
    ReadBody(bio, offset + HEADER, dataSize, dst, at, blockSize);
    return true;
  }

  lemma LostForGood()
    ensures forall pos: nat, size: nat :: AfterRead(Stale, pos, size) == Stale
  {
  }

  lemma BlankHeader()
    ensures HeaderSize(Zeros(HEADER)) == 0
  {
    assert Zeros(HEADER)[24..26] == Zeros(2);
    ZerosAreZero(2);
  }

  /** Where a walk of block `b`'s chain stands: at the newest of its first `n` records, all newer ones skipped. */
  ghost predicate WalkAt(s: Snapshot, b: nat, t: Time, offset: nat, n: nat) {
    && n <= |s.hist| == |s.offs|
    && offset == HeadOff(s.hist, s.offs, n, b, Now)
    && Newest(s.hist, n, b, AsOf(t)) == Newest(s.hist, |s.hist|, b, AsOf(t))
  }

  lemma WalkHere(s: OpenStore, b: nat, t: Time, offset: nat, n: nat)
    requires WalkAt(s, b, t, offset, n)
    ensures var i := Newest(s.hist, n, b, Now);
      && (offset == 0 <==> i < 0)
      && (i < 0 ==> Newest(s.hist, |s.hist|, b, AsOf(t)) < 0)
      && (i >= 0 ==>
            && offset == s.offs[i] && Readable(s, offset)
            && (var h := s.log[offset..offset + HEADER];
                if Earlier(HeaderTs(h), t) then Answer(s.hist, s.offs, b, t, offset, HeaderSize(h))
                else WalkAt(s, b, t, HeaderNext(h), i)))
  {
    hide Readable, HeaderSize, HeaderTs, HeaderNext, BlockOf, DataAt;
    WalkStep(s.hist, n, b, AsOf(t));
    var i := Newest(s.hist, n, b, Now);
    if i >= 0 {
      RecordParts(s, i);
      RecordHeader(s, i);
    }
  }

  /** The search of read_current_block: the newest record stamped before the restore point, or 0.
      With no record left, `dataSize` is whatever was in it. */
  method Walk(bio: BufferedIo, ghost s: OpenStore, ghost block: nat, head: nat, t: Time) returns (offset: nat, dataSize: nat)
    requires bio.Valid() && Mirrors(s, bio) && bio.WindowFresh() && !bio.stale
    requires |s.offs| == |s.hist| && head == HeadOff(s.hist, s.offs, |s.hist|, block, Now)
    modifies bio`readBufferPos, bio`readBufferEnable, bio`validEnd, bio`stale, bio`touched, bio.readBuffer
    ensures bio.Valid() && bio.WindowFresh() && !bio.stale
    ensures Answer(s.hist, s.offs, block, t, offset, dataSize)
  {
    offset := head;
    dataSize := *;
    ghost var n: nat := |s.hist|;
    while offset != 0
      invariant bio.Valid() && Mirrors(s, bio) && bio.WindowFresh() && !bio.stale
      invariant WalkAt(s, block, t, offset, n)
      decreases n
    {
      WalkHere(s, block, t, offset, n);
      var h := ReadHeader(bio, offset);
      dataSize := HeaderSize(h[..]);
      if Earlier(HeaderTs(h[..]), t) {
        return;
      }
      offset := HeaderNext(h[..]);
      n := Newest(s.hist, n, block, Now);
    }
    WalkHere(s, block, t, offset, n);
  }

  /** What the answer of a walk is good for. */
  lemma AnswerReads(s: OpenStore, b: nat, t: Time, offset: nat, size: nat)
    requires |s.offs| == |s.hist| && Answer(s.hist, s.offs, b, t, offset, size)
    ensures WellFormed(s.g, s.hist) && s.g.BlockSize() <= 4096
    ensures offset == 0 || size == 0 ==> BlockOf(s.g, s.hist, b, AsOf(t)) == Zeros(s.g.BlockSize())
    ensures offset != 0 ==>
      && offset + HEADER + size <= |s.log| && size <= s.g.BlockSize()
      && (offset < s.next ==> offset + HEADER + size <= s.next <= |s.data|)
      && BlockOf(s.g, s.hist, b, AsOf(t)) == s.log[offset + HEADER..offset + HEADER + size] + Zeros(s.g.BlockSize() - size)
  {
    hide Newest, HeadOff, TrimSize, HeaderSize, HeaderTs, HeaderNext, Placed, Holds, LogEnd, Chosen;
    BlockSizeAligned(s.g);
    var i := Newest(s.hist, |s.hist|, b, AsOf(t));
    if i >= 0 {
      RecordParts(s, i);
      RecordHeader(s, i);
    }
  }

  /** The second half of read_current_block. */
  method ReadAnswer(bio: BufferedIo, ghost s: OpenStore, ghost b: nat, ghost t: Time,
                    offset: nat, size: nat, dst: array<byte>, at: nat, blockSize: nat)
    requires bio.Valid() && Mirrors(s, bio) && bio.WindowFresh() && !bio.stale
    requires dst != bio.buffer && dst != bio.readBuffer && blockSize == s.g.BlockSize() && at + blockSize <= dst.Length
    requires |s.offs| == |s.hist| && Answer(s.hist, s.offs, b, t, offset, size)
    modifies bio`readBufferPos, bio`readBufferEnable, bio`validEnd, bio`stale, bio`touched, bio.readBuffer, dst
    ensures bio.Valid() && bio.WindowFresh() && !bio.stale
    ensures WellFormed(s.g, s.hist) && dst[at..at + blockSize] == BlockOf(s.g, s.hist, b, AsOf(t))
    ensures dst[..at] == old(dst[..at]) && dst[at + blockSize..] == old(dst[at + blockSize..])
  {
    hide Answer, BlockOf, WellFormed;
    AnswerReads(s, b, t, offset, size);
    if offset != 0 && size > 0 {
      ReadBody(bio, offset + HEADER, size, dst, at, blockSize);
    } else {
      Clear(dst, at, blockSize);
    }
  }

  lemma SplicedHeader(before: seq<byte>, after: seq<byte>, h: seq<byte>, n: nat)
    requires |before| == |after| && |h| + n <= |before|
    requires after[..|h|] == h && after[|h|..] == before[|h|..]
    ensures after[..|h| + n] == h + before[|h|..|h| + n]
  {
    assert after[|h|..|h| + n] == after[|h|..][..n] == before[|h|..][..n] == before[|h|..|h| + n];
    assert after[..|h| + n] == after[..|h|] + after[|h|..|h| + n];
  }

  lemma PartOfPart(s: seq<byte>, a: nat, b: nat, n: nat)
    requires a <= b <= |s| && n <= b - a
    ensures s[a..b][..n] == s[a..a + n]
  {
  }

  /** Trims the block that starts behind the header in `buf` and fills in its header. */
  method PrepareRecord(buf: array<byte>, blockSize: nat, ts: Time, next: nat, pad: seq<byte>, ghost block: nat)
    returns (dataSize: nat)
    requires buf.Length >= HEADER + blockSize && blockSize % 16 == 0 && Stamp(ts) && |pad| == 6
    modifies buf
    ensures var v := Version(block, ts, old(buf[HEADER..HEADER + blockSize]));
      && dataSize == TrimSize(v.data) <= blockSize && (HEADER + dataSize) % 16 == 0
      && buf[..HEADER + dataSize] == RecordBytes(v, next, pad)
  {
    ghost var before := buf[..];
    ghost var blk := buf[HEADER..HEADER + blockSize];
    TrimIsLeast(blk, 0);
    Aligned(0, HEADER, TrimSize(blk));
    dataSize := GetActualDataSize(buf, HEADER, blockSize);
    ghost var h := EncodeHeader(ts, next, dataSize, pad);
    CopyIn(buf, 0, EncodeHeader(ts, next, dataSize, pad));
    assert buf[..HEADER] == buf[0..0 + HEADER];
    SplicedHeader(before, buf[..], h, dataSize);
    PartOfPart(before, HEADER, HEADER + blockSize, dataSize);
  }

  /** bio_write of a prepared record. */
  method AppendTo(bio: BufferedIo, ghost s: OpenStore, buf: array<byte>, size: nat, ghost v: Version, ghost pad: seq<byte>)
    returns (off: nat, ghost s': OpenStore)
    requires bio.Valid() && Mirrors(s, bio) && !bio.readOnly && buf != bio.buffer && buf != bio.readBuffer
    requires v.block < s.g.blocks && |v.data| == s.g.BlockSize() <= 4096 && Stamp(v.ts) && |pad| == 6
    requires TrimSize(v.data) <= |v.data| && |s.offs| == |s.hist| && size % 16 == 0 && bio.bufferPos % 16 == 0
    requires size == HEADER + TrimSize(v.data) <= buf.Length
    requires buf[..size] == RecordBytes(v, HeadOff(s.hist, s.offs, |s.hist|, v.block, Now), pad)
    requires bio.nextOffset + Up512(bio.bufferPos) + 8192 < LIMIT
    modifies bio`bufferPos, bio`nextOffset, bio`log, bio`readBufferEnable, bio.file, bio.buffer
    ensures bio.Valid() && Mirrors(s', bio) && bio.bufferPos % 16 == 0
    ensures Seen(s'.hist, s'.offs, bio.State()) == if old(bio.stale) then Lost
                                                  else Logged(s.hist, s.offs, old(bio.State()), v, bio.clearsWindow)
    ensures Grown(s, bio.file.data, bio.nextOffset) && OneStep(old(bio.file.steps), bio.file.steps, s.data, bio.file.data)
    ensures bio.nextOffset + Up512(bio.bufferPos) <= old(bio.nextOffset + Up512(bio.bufferPos)) + 8192
    ensures s' == Extended(s, bio.file.data, bio.nextOffset, bio.log, v, off)
  {
    hide AfterWrite, Logged, TrimSize, HeadOff, RecordBytes;
    ghost var w := bio.State();
    off := bio.Write(buf, size);
    LoggedIs(s.hist, s.offs, w, bio.State(), v, off, bio.clearsWindow);
    assert Grown(s, bio.file.data, bio.nextOffset);
    ExtendedOk(s, bio.file.data, bio.nextOffset, bio.log, v, off, pad);
    s' := Extended(s, bio.file.data, bio.nextOffset, bio.log, v, off);
  }

  /** memcpy into the block that starts behind the header in `buf`. */
  method Overlay(buf: array<byte>, blockSize: nat, at: nat, piece: seq<byte>)
    requires buf.Length >= HEADER + blockSize && at + |piece| <= blockSize
    modifies buf
    ensures buf[HEADER..HEADER + blockSize] == Splice(old(buf[HEADER..HEADER + blockSize]), at, piece)
  {
    SpliceInside(buf[..], HEADER, blockSize, at, piece);
    CopyIn(buf, HEADER + at, piece);
  }
}
