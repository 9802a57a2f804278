/** preservationRecord.java and ByteControl.java: one record of an image, and the key that is exported for it. */
module Reader {
  import opened Bytes
  import opened Trim
  import opened Versions
  import opened Log
  import opened Image
  import opened Store
  import opened JavaBytes

  const ENTRY_HEADER_LENGTH := 27

  /** The 27 header bytes that the reader looks at, filled up to 32. */
  function KeptHeader(h: seq<byte>): (r: seq<byte>)
    requires |h| >= ENTRY_HEADER_LENGTH
    ensures |r| == HEADER
  {
    CopyOfRange(h[..ENTRY_HEADER_LENGTH], HEADER)
  }

  /** The header with the block number in the place of the link. */
  function KeyOf(h: seq<byte>, block: int): (r: seq<byte>)
    requires |h| >= ENTRY_HEADER_LENGTH
    ensures |r| == HEADER
  {
    KeptHeader(h)[..16] + ToLe(block % 0x1_0000_0000, 4) + Zeros(4) + KeptHeader(h)[24..]
  }

  class PreservationRecord {
    var dataSize: int
    var sec: int
    var nsec: int
    var flags: int
    var nextOffset: nat
    var recordData: seq<byte>
    var recordHeader: seq<byte>

    /** The fields are those of the header `h`. */
    ghost predicate Shows(h: seq<byte>)
      reads this
    {
      && |h| == HEADER
      && dataSize == HeaderSize(h) && nextOffset == HeaderNext(h)
      && sec == Wrap64(FromLe(h[0..8])) && nsec == Wrap64(FromLe(h[8..16])) && flags == h[26]
      && recordHeader == KeptHeader(h)
    }

    constructor (bytes: array<byte>, ghost h: seq<byte>)
      requires bytes.Length == ENTRY_HEADER_LENGTH && |h| == HEADER && bytes[..] == h[..ENTRY_HEADER_LENGTH]
      ensures Shows(h) && recordData == []
    {
      var hi: int, lo: int := bytes[25], bytes[24];
      TwoBytes(h);
      assert bytes[16..24] == h[16..24] && bytes[0..8] == h[0..8] && bytes[8..16] == h[8..16];
      var next := DecodeBig(bytes, 16, 8);
      var s := DecodeLong(bytes, 0, 8);
      var ns := DecodeLong(bytes, 8, 8);
      dataSize := (0 * 256 + hi) * 256 + lo;
      nextOffset, sec, nsec := next, s, ns;
      flags := bytes[26];
      recordHeader := CopyOfRange(bytes[..], HEADER);
      recordData := [];
    }

    /** getHeader: `putInt` writes the low four bytes of the block number. */
    method GetHeader(blockNumber: int, ghost h: seq<byte>) returns (c: seq<byte>)
      requires Shows(h) && -0x8000_0000 <= blockNumber < 0x8000_0000
      ensures c == KeyOf(h, blockNumber)
    {
      var buf := ToLe(blockNumber % 0x1_0000_0000, 4) + Zeros(4);
      c := recordHeader[0..16] + buf + recordHeader[24..32];
    }

    method SetData(data: array<byte>)
      requires 0 <= dataSize
      modifies this`recordData
      ensures recordData == CopyOfRange(data[..], dataSize)
    {
      recordData := CopyOfRange(data[..], dataSize);
    }
  }

  lemma TwoBytes(h: seq<byte>)
    requires |h| == HEADER
    ensures HeaderSize(h) == (h[25] as int) * 256 + h[24] as int
  {
    assert h[24..26] == [h[24], h[25]];
    assert FromLe([h[25]]) == h[25];
    assert h[24..26][1..] == [h[25]];
  }

  // ----- the exported key -----

  class ByteControl {
    var dataSize: int
    var minSector: int
    var blockNum: nat
    var sec: int
    var nsec: int

    constructor (bytes: array<byte>)
      requires bytes.Length == HEADER
      ensures dataSize == HeaderSize(bytes[..]) && blockNum == HeaderNext(bytes[..])
      ensures sec == FromLe(bytes[0..4]) && nsec == FromLe(bytes[8..12])
      ensures minSector == MinSectorNum(dataSize)
    {
      TwoBytes(bytes[..]);
      Pow256At8();
      var num := DecodeBig(bytes, 16, 8);
      var s := DecodeLong(bytes, 0, 4);
      var ns := DecodeLong(bytes, 8, 4);
      var hi: int, lo: int := bytes[25], bytes[24];
      dataSize := (0 * 256 + hi) * 256 + lo;
      minSector := MinSectorNum((0 * 256 + hi) * 256 + lo);
      blockNum, sec, nsec := num, s, ns;
    }
  }

  /** getMinSectorNum: with sectors of 4096 bytes, and at least one and at most eight of them. */
  function MinSectorNum(dataSize: int): (r: int)
    ensures 1 <= r <= 8 && (dataSize <= 4096 * r || r == 8)
    ensures forall k :: 1 <= k < r ==> dataSize > 4096 * k
  {
    if dataSize <= 4096 then 1
    else if dataSize <= 4096 * 2 then 2
    else if dataSize <= 4096 * 3 then 3
    else if dataSize <= 4096 * 4 then 4
    else if dataSize <= 4096 * 5 then 5
    else if dataSize <= 4096 * 6 then 6
    else if dataSize <= 4096 * 7 then 7
    else 8
  }

  lemma FourBytes(s: seq<byte>)
    requires |s| == 8
    ensures FromLe(s[..4]) == FromLe(s) % 0x1_0000_0000
    ensures FromLe(s[4..]) == 0 ==> FromLe(s) == FromLe(s[..4])
  {
    var low := s[..4];
    FourSteps(s);
    FourSteps(low);
    assert low[4..] == [];
    assert FromLe(s) == FromLe(low) + 0x1_0000_0000 * FromLe(s[4..]);
    Pow256At8();
  }

  lemma FourSteps(s: seq<byte>)
    requires |s| >= 4
    ensures FromLe(s) == s[0] as int + 0x100 * s[1] as int + 0x1_0000 * s[2] as int + 0x100_0000 * s[3] as int
                         + 0x1_0000_0000 * FromLe(s[4..])
  {
    assert s[1..][1..] == s[2..];
    assert s[2..][1..] == s[3..];
    assert s[3..][1..] == s[4..];
    assert FromLe(s[3..]) == s[3] as int + 0x100 * FromLe(s[4..]);
    assert FromLe(s[2..]) == s[2] as int + 0x100 * FromLe(s[3..]);
    assert FromLe(s[1..]) == s[1] as int + 0x100 * FromLe(s[2..]);
  }

  lemma KeyParts(h: seq<byte>, block: int)
    requires |h| == HEADER
    ensures var key := KeyOf(h, block);
      && key[0..8] == h[0..8] && key[8..16] == h[8..16] && key[24..26] == h[24..26]
      && key[16..24] == ToLe(block % 0x1_0000_0000, 4) + Zeros(4)
  {
    hide KeptHeader, ToLe;
    KeptBytes(h);
    var kept, number := KeptHeader(h), ToLe(block % 0x1_0000_0000, 4) + Zeros(4);
    assert KeyOf(h, block) == kept[..16] + number + kept[24..];
    ThreeParts(kept[..16], number, kept[24..]);
    assert kept[24..][..2] == kept[24..26];
  }

  lemma KeptBytes(h: seq<byte>)
    requires |h| == HEADER
    ensures var k := KeptHeader(h); k[0..8] == h[0..8] && k[8..16] == h[8..16] && k[24..26] == h[24..26]
  {
    var kept := h[..ENTRY_HEADER_LENGTH];
    assert kept[0..8] == h[0..8] && kept[8..16] == h[8..16] && kept[24..26] == h[24..26];
  }

  lemma ThreeParts(a: seq<byte>, b: seq<byte>, c: seq<byte>)
    requires |a| == 16 && |b| == 8 && |c| >= 2
    ensures var s := a + b + c; s[0..8] == a[0..8] && s[8..16] == a[8..16] && s[16..24] == b && s[24..26] == c[..2]
  {
  }

  /** The bytes of a key: the times as they are, the block number in the place of the link, size and flags as they are, and
      zeros for the rest of the padding. */
  lemma KeyBytes(h: seq<byte>, block: int)
    requires |h| == HEADER
    ensures var key := KeyOf(h, block);
      && |key| == 32
      && (forall i :: 0 <= i < 16 || 24 <= i < 27 ==> key[i] == h[i])
      && (forall i :: 20 <= i < 24 || 27 <= i < 32 ==> key[i] == 0)
  {
    hide ToLe;
  }

  /** Decoding an exported key gives back time, size and block number of the record exactly if the time
      fits in 32 bits and the block number is not negative; the size always comes back. */
  lemma KeyRoundTrip(h: seq<byte>, block: int)
    requires |h| == HEADER && -0x8000_0000 <= block < 0x8000_0000
    ensures var key := KeyOf(h, block);
      && HeaderSize(key) == HeaderSize(h)
      && (HeaderNext(key) == block <==> block >= 0)
      && (FromLe(key[0..4]) == HeaderTs(h).sec <==> HeaderTs(h).sec < 0x1_0000_0000)
      && (FromLe(key[8..12]) == HeaderTs(h).nsec <==> HeaderTs(h).nsec < 0x1_0000_0000)
  {
    var key := KeyOf(h, block);
    KeyParts(h, block);
    KeyTime(h, key);
    BlockInKey(block);
  }

  lemma KeyTime(h: seq<byte>, key: seq<byte>)
    requires |h| == |key| == HEADER && key[0..8] == h[0..8] && key[8..16] == h[8..16]
    ensures FromLe(key[0..4]) == HeaderTs(h).sec % 0x1_0000_0000
    ensures FromLe(key[8..12]) == HeaderTs(h).nsec % 0x1_0000_0000
  {
    FourBytes(h[0..8]);
    FourBytes(h[8..16]);
    assert key[0..4] == key[0..8][..4];
    assert key[8..12] == key[8..16][..4];
  }

  lemma BlockInKey(block: int)
    requires -0x8000_0000 <= block < 0x8000_0000
    ensures FromLe(ToLe(block % 0x1_0000_0000, 4) + Zeros(4)) == block % 0x1_0000_0000
  {
    var low := ToLe(block % 0x1_0000_0000, 4);
    var s := low + Zeros(4);
    assert s[..4] == low && s[4..] == Zeros(4);
    ZerosAreZero(4);
    FourBytes(s);
    Pow256At8();
    FromToLe(block % 0x1_0000_0000, 4);
  }

  // ----- the database -----

  /** The header bytes of record `i`. */
  function HeaderOf(s: Snapshot, i: nat): (h: seq<byte>)
    requires i < |s.offs| && s.offs[i] + HEADER <= |s.log|
    ensures |h| == HEADER
  {
    s.log[s.offs[i]..s.offs[i] + HEADER]
  }

  /** Record `i` of an image, as the reader must see it. */
  ghost predicate Is(pr: PreservationRecord, s: Snapshot, i: nat)
    reads pr
  {
    && i < |s.hist| == |s.offs| && s.offs[i] + HEADER <= |s.log|
    && pr.Shows(HeaderOf(s, i))
    && pr.nextOffset == HeadOff(s.hist, s.offs, i, s.hist[i].block, Now)
    && pr.dataSize == TrimSize(s.hist[i].data) <= |s.hist[i].data|
    && pr.recordData == s.hist[i].data[..pr.dataSize]
  }

  /** All of a record is in the file of an image at rest. */
  lemma RecordInFile(s: OpenStore, i: nat)
    requires AtRest(s) && i < |s.hist|
    ensures |s.offs| == |s.hist| && s.g.BlockSize() <= 4096
    ensures var o, size := s.offs[i], TrimSize(s.hist[i].data);
      && 0 < o && o + HEADER + size <= |s.data| && size <= |s.hist[i].data| == s.g.BlockSize()
      && o + HEADER <= |s.log| && s.data[o..o + HEADER] == HeaderOf(s, i)
      && HeaderSize(HeaderOf(s, i)) == size
      && HeaderNext(HeaderOf(s, i)) == HeadOff(s.hist, s.offs, i, s.hist[i].block, Now)
      && s.data[o + HEADER..o + HEADER + size] == s.hist[i].data[..size]
  {
    RecordParts(s, i);
    RecordHeader(s, i);
    InRange(s, i);
  }

  lemma InRange(s: OpenStore, i: nat)
    requires AtRest(s) && i < |s.hist|
    ensures var o, size := s.offs[i], TrimSize(s.hist[i].data);
      && |s.offs| == |s.hist| && size <= |s.hist[i].data| == s.g.BlockSize()
      && o + HEADER + size <= s.next <= |s.data|
      && s.data[o..o + HEADER] == s.log[o..o + HEADER]
      && s.data[o + HEADER..o + HEADER + size] == s.hist[i].data[..size]
  {
    assert RecordAt(s.g, s.log, s.hist, s.offs, i);
    var o, size := s.offs[i], TrimSize(s.hist[i].data);
    assert s.data[o..o + HEADER] == s.log[o..o + HEADER];
    assert s.data[o + HEADER..o + HEADER + size] == s.log[o + HEADER..o + HEADER + size];
  }
}
