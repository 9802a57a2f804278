/** Whole image files: data header, index table and log, as mkimage.rb and pd_finalize leave them,
    and what a crash leaves. */
module Image {
  import opened Bytes
  import opened Flat
  import opened Rounding
  import opened Versions
  import opened Log
  import opened Widths

  const INDEX_START := 512

  // ----- data header -----

  /** The 24 used bytes of `struct data_header`. */
  function DataHeader(g: Geometry, next: nat): (r: seq<byte>)
    ensures |r| == 24
  {
    ToLe(g.DiskSize(), 8) + ToLe(g.BlockSize(), 8) + ToLe(next, 8)
  }

  lemma DataHeaderRoundTrip(g: Geometry, next: nat)
    requires g.Valid() && next < LIMIT
    ensures var h := DataHeader(g, next);
      && FromLe(h[0..8]) == g.DiskSize() && FromLe(h[8..16]) == g.BlockSize() && FromLe(h[16..24]) == next
      && FromLe(h[0..8]) / FromLe(h[8..16]) == g.blocks && FromLe(h[8..16]) / SECTOR == g.spb
  {
    Pow256At8();
    DiskSizeBound(g);
    FromToLe(g.DiskSize(), 8);
    FromToLe(g.BlockSize(), 8);
    FromToLe(next, 8);
    var h := DataHeader(g, next);
    assert h[0..8] == ToLe(g.DiskSize(), 8);
    assert h[8..16] == ToLe(g.BlockSize(), 8);
    assert h[16..24] == ToLe(next, 8);
    ProductForms(g, g.blocks, 0);
    DivModUnique(g.DiskSize(), g.BlockSize(), g.blocks, 0);
  }

  lemma TimesAtMost8(n: nat, k: nat)
    requires k <= 8
    ensures n * k <= n * 8
  {
    assert n * (8 - k) >= 0;
  }

  lemma DiskSizeBound(g: Geometry)
    requires g.Valid()
    ensures g.DiskSize() <= 0x8000_0000 * 4096
  {
    FirstSectorIsProduct(g, g.blocks);
    TimesAtMost8(g.blocks, g.spb);
  }

  // ----- index table -----

  /** The bytes of an index table. */
  function EncodeIndex(index: seq<nat>): (r: seq<byte>)
    ensures |r| == 8 * |index|
  {
    if index == [] then [] else EncodeIndex(index[..|index| - 1]) + ToLe(index[|index| - 1], 8)
  }

  lemma {:induction false} EncodedEntry(index: seq<nat>, b: nat)
    requires b < |index|
    ensures EncodeIndex(index)[8 * b..8 * b + 8] == ToLe(index[b], 8)
  {
    var front := index[..|index| - 1];
    if b < |front| {
      EncodedEntry(front, b);
      assert EncodeIndex(index)[8 * b..8 * b + 8] == EncodeIndex(front)[8 * b..8 * b + 8];
    }
  }

  /** Entry `b` of the index table in an image; a file that ends before it holds zero. */
  function IndexEntry(img: seq<byte>, b: nat): nat {
    FromLe(Padded(img, INDEX_START + 8 * b + 8)[INDEX_START + 8 * b..])
  }

  /** The bytes behind the header, zero where the file has ended. */
  ghost predicate TableBytes(img: seq<byte>, bytes: seq<byte>) {
    forall k :: 0 <= k < |bytes| ==> bytes[k] == if INDEX_START + k < |img| then img[INDEX_START + k] else 0
  }

  lemma TableEntry(img: seq<byte>, bytes: seq<byte>, b: nat)
    requires TableBytes(img, bytes) && 8 * b + 8 <= |bytes|
    ensures FromLe(bytes[8 * b..8 * b + 8]) == IndexEntry(img, b)
  {
    hide FromLe;
    assert bytes[8 * b..8 * b + 8] == Padded(img, INDEX_START + 8 * b + 8)[INDEX_START + 8 * b..];
  }

  // ----- images -----

  ghost predicate HasHeader(g: Geometry, img: seq<byte>, next: nat) {
    |img| >= 24 && img[..24] == DataHeader(g, next)
  }

  /** Where the log may end. */
  predicate LogEnd(g: Geometry, len: nat, next: nat) {
    && DataStart(g) <= next < LIMIT && next % 512 == 0
    && (next <= len || next == DataStart(g))
  }

  ghost predicate IndexIs(g: Geometry, img: seq<byte>, hist: seq<Version>, offs: seq<nat>)
    requires |hist| == |offs|
  {
    forall b :: 0 <= b < g.blocks ==> IndexEntry(img, b) == HeadOff(hist, offs, |hist|, b, Now)
  }

  /** An image that a driver can open: it holds exactly the given history. */
  ghost predicate Holds(g: Geometry, img: seq<byte>, hist: seq<Version>, offs: seq<nat>, next: nat) {
    && HasHeader(g, img, next) && LogEnd(g, |img|, next)
    && Represents(g, Padded(img, next), hist, offs)
    && IndexIs(g, img, hist, offs)
  }

  /** mkimage.rb. */
  function MakeImage(g: Geometry): seq<byte> {
    DataHeader(g, 512 + (g.blocks * 8 + 511) / 512 * 512)
  }

  lemma IndexBelowData(g: Geometry, b: nat)
    requires b < g.blocks
    ensures INDEX_START + 8 * b + 8 <= DataStart(g)
  {
  }

  lemma {:induction false} ZerosAreZero(n: nat)
    ensures FromLe(Zeros(n)) == 0
  {
    if n > 0 {
      assert Zeros(n)[1..] == Zeros(n - 1);
      ZerosAreZero(n - 1);
    }
  }

  /** A fresh image holds the empty history. */
  lemma FreshImage(g: Geometry)
    requires g.Valid()
    ensures Holds(g, MakeImage(g), [], [], DataStart(g))
  {
    var img := MakeImage(g);
    assert img[..24] == img;
    forall b | 0 <= b < g.blocks ensures IndexEntry(img, b) == 0 {
      assert Padded(img, INDEX_START + 8 * b + 8)[INDEX_START + 8 * b..] == Zeros(8);
      ZerosAreZero(8);
    }
  }

  lemma IndexEntryLocal(img: seq<byte>, img': seq<byte>, b: nat)
    requires Padded(img, INDEX_START + 8 * b + 8) == Padded(img', INDEX_START + 8 * b + 8)
    ensures IndexEntry(img, b) == IndexEntry(img', b)
  {
  }

  /** Bytes behind the on-disk `next_offset` do not matter: whatever flushes append there, a reopened
      image holds what it held before. */
  lemma HoldsBelowNext(g: Geometry, img: seq<byte>, img': seq<byte>, hist: seq<Version>, offs: seq<nat>, next: nat)
    requires Holds(g, img, hist, offs, next)
    requires |img| <= |img'| && Padded(img, next) == Padded(img', next)
    ensures Holds(g, img', hist, offs, next)
  {
    assert img[..24] == Padded(img, next)[..24];
    assert img'[..24] == Padded(img', next)[..24];
    forall b | 0 <= b < g.blocks ensures IndexEntry(img', b) == IndexEntry(img, b) {
      IndexBelowData(g, b);
      assert Padded(img, INDEX_START + 8 * b + 8) == Padded(img, next)[..INDEX_START + 8 * b + 8];
      assert Padded(img', INDEX_START + 8 * b + 8) == Padded(img', next)[..INDEX_START + 8 * b + 8];
      IndexEntryLocal(img, img', b);
    }
  }
}
