/** preservationDatabase.java: the reader of whole images and its walks. */
module Database {
  import opened Bytes
  import opened Flat
  import opened Trim
  import opened Versions
  import opened Log
  import opened Image
  import opened Store
  import opened JavaBytes
  import opened Reader
  import opened Widths
  import opened Files

  /** The 27 header bytes of record `i`, read from offset `off` of the file. */
  method LoadHeader(file: ImageFile, off: nat, ghost s: OpenStore, ghost i: nat) returns (pr: PreservationRecord)
    requires AtRest(s) && s.data == file.data
    requires i < |s.hist| && |s.offs| == |s.hist| && off == s.offs[i]
    ensures fresh(pr) && off + HEADER <= |s.log| && pr.Shows(HeaderOf(s, i))
    ensures pr.dataSize == TrimSize(s.hist[i].data) && pr.nextOffset == HeadOff(s.hist, s.offs, i, s.hist[i].block, Now)
  {
    RecordInFile(s, i);
    var h := new byte[ENTRY_HEADER_LENGTH](_ => 0);
    var n := file.ReadAt(off, h, ENTRY_HEADER_LENGTH);
    assert h[..] == s.data[off..off + HEADER][..ENTRY_HEADER_LENGTH];
    pr := new PreservationRecord(h, HeaderOf(s, i));
  }

  /** One header and the data behind it. */
  method LoadRecord(file: ImageFile, off: nat, blockSize: nat, ghost s: OpenStore, ghost i: nat) returns (pr: PreservationRecord)
    requires AtRest(s) && s.data == file.data && blockSize == s.g.BlockSize()
    requires i < |s.hist| && |s.offs| == |s.hist| && off == s.offs[i]
    ensures fresh(pr) && Is(pr, s, i)
  {
    hide AtRest, TrimSize, HeadOff;
    RecordInFile(s, i);
    pr := LoadHeader(file, off, s, i);
    var data := new byte[blockSize](_ => 0);
    var m := file.ReadAt(off + HEADER, data, pr.dataSize);
    pr.SetData(data);
    assert pr.recordData == s.data[off + HEADER..off + HEADER + pr.dataSize];
  }

  /** The three numbers of the data header, as `long`, `int` and `BigDecimal`. */
  method ReadNumbers(fd: ImageFile, ghost s: OpenStore) returns (diskSize: int, blockSize: int, next: nat)
    requires AtRest(s) && s.data == fd.data
    ensures diskSize == s.g.DiskSize() && blockSize == s.g.BlockSize() && next == s.next && s.g.Valid()
    ensures diskSize / blockSize == s.g.blocks
  {
    AtRestTables(s, []);
    BlockSizeAligned(s.g);
    DataHeaderRoundTrip(s.g, s.next);
    DiskSizeBound(s.g);
    var hd := new byte[24](_ => 0);
    var n := fd.ReadAt(0, hd, 24);
    ghost var h := hd[..];
    assert h == fd.data[..24] == DataHeader(s.g, s.next);
    assert hd[0..8] == h[0..8] && hd[8..16] == h[8..16] && hd[16..24] == h[16..24];
    diskSize := DecodeLong(hd, 0, 8);
    blockSize := DecodeInt(hd, 8, 8);
    next := DecodeBig(hd, 16, 8);
  }

  /** How many entries of the index table the reader gets: their byte count is an `int`, and behind a negative or
      too short array the reading ends with an exception. */
  function EntriesRead(blocks: nat): (n: nat)
    requires blocks < 0x8000_0000
    ensures if blocks < 0x1000_0000 then n == blocks else n < 0x1000_0000 && n < blocks
  {
    var size := Wrap32(blocks * 8);
    if size < 0 then 0 else size / 8
  }

  lemma SizeIs(blocks: nat)
    requires blocks < 0x8000_0000
    ensures var size := Wrap32(blocks * 8);
      if size >= 0 then size == 8 * EntriesRead(blocks) <= blocks * 8 else EntriesRead(blocks) == 0
  {
    var size := Wrap32(blocks * 8);
    assert size % 8 == 0;
  }

  /** An array of bytes ends below 2^31, and so do the places of its entries. */
  lemma PlaceOf(size: int, i: nat)
    requires 0 <= 8 * i <= size + 8 && -0x8000_0000 <= size < 0x8000_0000 && size % 8 == 0
    ensures var from, to := Wrap32(i * 8), Wrap32(Wrap32(i * 8) + 8);
      if from < 0 || from > size || from > to then 8 * i >= size else from == 8 * i <= size
  {
  }

  lemma TableStarts(table: seq<int>, s: Snapshot)
    requires |table| == s.g.blocks && |s.offs| == |s.hist| && forall b :: 0 <= b < |table| ==> table[b] == 0
    ensures TableTo(table, s, 0)
  {
  }

  /** `buf = Arrays.copyOfRange(binary, from, from + 8)`, then convertBinaryToInt. */
  method DecodeEntry(binary: array<byte>, from: nat, ghost s: OpenStore, ghost b: nat) returns (entry: int)
    requires AtRest(s) && b < s.g.blocks && from == 8 * b <= binary.Length && binary.Length % 8 == 0 && TableBytes(s.data, binary[..])
    ensures |s.offs| == |s.hist|
    ensures entry == if from == binary.Length then 0 else HeadOff(s.hist, s.offs, |s.hist|, b, Now)
  {
    hide HeadOff, FromLe, AtRest;
    var buf := new byte[8](_ => 0);
    CopyIn(buf, 0, CopyOfRange(binary[from..], 8));
    assert buf[..] == buf[0..8];
    EntryBytes(binary[..], b);
    if from < binary.Length { TableEntry(s.data, binary[..], b); }
    AtRestEntry(s, b);
    HeadsFit(s, |s.hist|, b);
    ZerosAreZero(8);
    entry := DecodeLong(buf, 0, 8);
  }

  lemma EntryBytes(binary: seq<byte>, b: nat)
    requires 8 * b <= |binary| && |binary| % 8 == 0
    ensures 8 * b < |binary| ==> 8 * b + 8 <= |binary| && CopyOfRange(binary[8 * b..], 8) == binary[8 * b..8 * b + 8]
    ensures 8 * b == |binary| ==> CopyOfRange(binary[8 * b..], 8) == Zeros(8)
  {
  }

  /** The index table as far as it has been read, zero behind. */
  ghost predicate TableTo(table: seq<int>, s: Snapshot, n: nat) {
    && |table| == s.g.blocks && |s.offs| == |s.hist|
    && forall b :: 0 <= b < s.g.blocks ==> table[b] == if b < n then HeadOff(s.hist, s.offs, |s.hist|, b, Now) else 0
  }

  lemma TableNext(table: seq<int>, s: Snapshot, i: nat, n: nat, entry: int)
    requires i <= n && TableTo(table, s, i) && i < s.g.blocks
    requires entry == if i == n then 0 else HeadOff(s.hist, s.offs, |s.hist|, i, Now)
    ensures TableTo(table[i := entry], s, if i + 1 < n then i + 1 else n)
  {
    hide HeadOff;
  }

  /** The index table, entry by entry; an exception ends the reading. */
  method ReadTable(fd: ImageFile, num: nat, ghost s: OpenStore) returns (table: array<int>)
    requires AtRest(s) && s.data == fd.data && num == s.g.blocks < 0x8000_0000
    ensures fresh(table) && TableTo(table[..], s, EntriesRead(num))
  {
    hide AtRest, HeadOff, EntriesRead, TableTo, Wrap32;
    RecordUnder(s, 0, Now);
    SizeIs(num);
    table := new int[num](_ => 0);
    TableStarts(table[..], s);
    var size := Wrap32(num * 8);
    if size < 0 {
      return;
    }
    var binary := new byte[size](_ => 0);
    var n := fd.ReadAt(INDEX_START, binary, size);
    assert TableBytes(s.data, binary[..]);
    var i := 0;
    while i < num
      invariant 0 <= i <= num && TableBytes(s.data, binary[..]) && 8 * i <= size + 8
      invariant TableTo(table[..], s, if i < EntriesRead(num) then i else EntriesRead(num))
    {
      PlaceOf(size, i);
      var from := Wrap32(i * 8);
      var to := Wrap32(from + 8);
      if from < 0 || from > size || from > to {
        return;
      }
      var entry := DecodeEntry(binary, from, s, i);
      TableNext(table[..], s, i, EntriesRead(num), entry);
      table[i] := entry;
      i := i + 1;
    }
  }

  /** The chain of a block as a reader of the first `read` entries finds it. */
  function ChainRead(hist: seq<Version>, b: nat, read: nat): seq<nat> {
    if b < read then Chain(hist, |hist|, b) else []
  }

  class PreservationDatabase {
    const file: ImageFile
    const diskSize: int
    const blockSize: int
    const nextOffset: nat
    const indexTable: array<int>

    ghost predicate Opened(s: Snapshot)
      reads file, indexTable
    {
      && AtRest(s) && file.data == s.data
      && blockSize == s.g.BlockSize() && diskSize == s.g.DiskSize() && nextOffset == s.next
      && |s.offs| == |s.hist| && indexTable.Length == s.g.blocks
      && forall b :: 0 <= b < s.g.blocks ==> indexTable[b] == HeadOff(s.hist, s.offs, |s.hist|, b, Now)
    }

    /** What the constructor leaves: the first `n` entries of the index table. */
    ghost predicate OpenedTo(s: Snapshot, n: nat)
      reads file, indexTable
    {
      && AtRest(s) && file.data == s.data
      && blockSize == s.g.BlockSize() && diskSize == s.g.DiskSize() && nextOffset == s.next
      && TableTo(indexTable[..], s, n)
    }

    /** The constructor. */
    constructor (fd: ImageFile, ghost s: OpenStore)
      requires AtRest(s) && s.data == fd.data
      ensures s.g.blocks < 0x8000_0000 && OpenedTo(s, EntriesRead(s.g.blocks)) && file == fd
    {
      var disk, block, next := ReadNumbers(fd, s);
      var table := ReadTable(fd, Wrap32(disk / block), s);
      file, diskSize, blockSize, nextOffset, indexTable := fd, disk, block, next, table;
    }

    /** getNumOfRecord. */
    method GetNumOfRecord(b: nat, ghost s: OpenStore, ghost read: nat) returns (count: nat)
      requires OpenedTo(s, read) && b < s.g.blocks
      ensures count == |ChainRead(s.hist, b, read)|
    {
      count := 0;
      assert indexTable[b] == indexTable[..][b];
      HeadsFit(s, |s.hist|, b);
      if indexTable[b] == 0 {
        return 0;
      }
      var next: nat := indexTable[b];
      ghost var n: nat := |s.hist|;
      while Wrap64(next) != 0
        invariant n <= |s.hist| && next == HeadOff(s.hist, s.offs, n, b, Now) < LIMIT
        invariant count + |Chain(s.hist, n, b)| == |Chain(s.hist, |s.hist|, b)|
        invariant next == 0 <==> Newest(s.hist, n, b, Now) < 0
        decreases n
      {
        ghost var i := Newest(s.hist, n, b, Now);
        var pr := LoadHeader(file, Wrap64(next), s, i);
        next := pr.nextOffset;
        n := i;
        HeadsFit(s, n, b);
        count := count + 1;
      }
    }

    /** getRecord: the record `pos` steps from the newest, or the oldest one if the chain is shorter. */
    method GetRecord(b: nat, pos: int, ghost s: OpenStore, ghost read: nat) returns (pr: PreservationRecord?)
      requires OpenedTo(s, read) && b < s.g.blocks
      ensures var chain := ChainRead(s.hist, b, read);
        if chain == [] || pos < 0 then pr == null
        else pr != null && fresh(pr) && Is(pr, s, chain[if pos < |chain| then pos else |chain| - 1])
    {
      hide HeadOff, Chain, Is, AtRest;
      pr := null;
      assert indexTable[b] == indexTable[..][b];
      ChainEnds(s, |s.hist|, b);
      if indexTable[b] == 0 {
        return null;
      }
      var next: nat, left := indexTable[b], pos;
      ghost var n: nat, chain := |s.hist|, Chain(s.hist, |s.hist|, b);
      while Wrap64(next) != 0 && left >= 0
        invariant n <= |s.hist| && next == HeadOff(s.hist, s.offs, n, b, Now) < LIMIT
        invariant left <= pos && (left == pos || left >= -1) && pos - left <= |chain|
        invariant Chain(s.hist, n, b) == chain[pos - left..] && (next == 0 <==> pos - left == |chain|)
        invariant left == pos ==> pr == null
        invariant left < pos ==> pr != null && fresh(pr) && Is(pr, s, chain[pos - left - 1])
        decreases n
      {
        ghost var i := chain[pos - left];
        LinkAt(s, n, b, chain, pos - left);
        pr := LoadRecord(file, Wrap64(next), blockSize, s, i);
        next := GetNextOffset(pr, s, i);
        n := i;
        left := left - 1;
      }
    }
  }

  /** A reader of the first `read` entries has the driver's table exactly if no block has been written that lies behind. */
  lemma OpenedExactly(pd: PreservationDatabase, s: OpenStore, read: nat)
    requires pd.OpenedTo(s, read)
    ensures pd.Opened(s) <==> forall b :: read <= b < s.g.blocks ==> !EverWritten(s.hist, b)
  {
    hide HeadOff;
    var table := pd.indexTable[..];
    forall b | 0 <= b < s.g.blocks
      ensures pd.indexTable[b] == HeadOff(s.hist, s.offs, |s.hist|, b, Now) <==> b < read || !EverWritten(s.hist, b)
    {
      assert pd.indexTable[b] == table[b];
      HeadsFit(s, |s.hist|, b);
    }
  }

  /** getNextOffset of a record. */
  method GetNextOffset(pr: PreservationRecord, ghost s: Snapshot, ghost i: nat) returns (next: nat)
    requires Is(pr, s, i)
    ensures i < |s.hist| == |s.offs| && next == HeadOff(s.hist, s.offs, i, s.hist[i].block, Now)
  {
    next := pr.nextOffset;
  }

  lemma ChainEnds(s: OpenStore, n: nat, b: nat)
    requires AtRest(s) && n <= |s.hist|
    ensures |s.offs| == |s.hist| && HeadOff(s.hist, s.offs, n, b, Now) < LIMIT
    ensures HeadOff(s.hist, s.offs, n, b, Now) == 0 <==> Chain(s.hist, n, b) == []
  {
    HeadsFit(s, n, b);
  }

  /** One link of the walk. */
  lemma LinkAt(s: OpenStore, n: nat, b: nat, chain: seq<nat>, k: nat)
    requires AtRest(s) && n <= |s.hist| == |s.offs| && k < |chain| && Chain(s.hist, n, b) == chain[k..]
    ensures var i := chain[k];
      && i < n && s.hist[i].block == b && HeadOff(s.hist, s.offs, n, b, Now) == s.offs[i]
      && Chain(s.hist, i, b) == chain[k + 1..] && HeadOff(s.hist, s.offs, i, b, Now) < LIMIT
      && (HeadOff(s.hist, s.offs, i, b, Now) == 0 <==> k + 1 == |chain|)
  {
    hide AtRest;
    HeadsFit(s, n, b);
    ChainUnfolds(s.hist, n, b, chain, k);
    ChainEnds(s, chain[k], b);
  }

  /** getRecord(b, 0), filled up with zeros, is the block that the driver reads. */
  lemma SameAsDriver(pr: PreservationRecord, s: OpenStore, b: nat)
    requires AtRest(s) && b < s.g.blocks && |s.offs| == |s.hist| && WellFormed(s.g, s.hist)
    ensures var chain := Chain(s.hist, |s.hist|, b);
      if chain == [] then BlockOf(s.g, s.hist, b, Now) == Zeros(s.g.BlockSize())
      else Is(pr, s, chain[0]) ==>
        |pr.recordData| <= s.g.BlockSize() && pr.recordData + Zeros(s.g.BlockSize() - |pr.recordData|) == BlockOf(s.g, s.hist, b, Now)
  {
    hide AtRest, TrimSize, HeadOff, HeaderOf;
    var i := Newest(s.hist, |s.hist|, b, Now);
    if i >= 0 {
      RecordInFile(s, i);
      BlockSizeAligned(s.g);
      TrimIsLossless(s.hist[i].data);
    }
  }

  lemma HeadsFit(s: OpenStore, n: nat, b: nat)
    requires AtRest(s) && n <= |s.hist|
    ensures |s.offs| == |s.hist| && HeadOff(s.hist, s.offs, n, b, Now) < LIMIT
    ensures HeadOff(s.hist, s.offs, n, b, Now) == 0 <==> Newest(s.hist, n, b, Now) < 0
  {
    var i := Newest(s.hist, n, b, Now);
    if i >= 0 { InRange(s, i); assert RecordAt(s.g, s.log, s.hist, s.offs, i); }
  }

  lemma ChainUnfolds(hist: seq<Version>, n: nat, b: nat, chain: seq<nat>, k: nat)
    requires n <= |hist| && k <= |chain| && Chain(hist, n, b) == chain[k..] && Newest(hist, n, b, Now) >= 0
    ensures k < |chain| && chain[k] == Newest(hist, n, b, Now) && Chain(hist, chain[k], b) == chain[k + 1..]
    ensures hist[chain[k]].block == b
  {
    assert Chain(hist, n, b)[0] == chain[k];
    assert Chain(hist, n, b)[1..] == chain[k + 1..];
    assert Chosen(hist, Newest(hist, n, b, Now), b, Now);
  }
}
