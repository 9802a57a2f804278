/** The invariants of an open store, as predicates on values: what the log, the index table and the
    time-travel cache hold. */
module Store {
  import opened Bits
  import opened Bytes
  import opened Flat
  import opened Trim
  import opened Versions
  import opened Log
  import opened Image
  import opened Widths

  /** Every record lies wholly in the file or wholly in the buffer. */
  ghost predicate Placed(hist: seq<Version>, offs: seq<nat>, next: nat)
    requires |hist| == |offs|
  {
    forall i :: 0 <= i < |hist| ==> Extent(hist, offs, i) <= next || next <= offs[i]
  }

  /** A store at some moment: the file, how much of it is log, the log, the versions in it and where they
      lie, and what the image on disk would show if the session ended here without pd_finalize. */
  datatype Snapshot = Snapshot(g: Geometry, data: seq<byte>, next: nat, log: seq<byte>,
                               hist: seq<Version>, offs: seq<nat>, saved: nat, savedNext: nat)
  {
    /** The log holds the history; the image on disk still holds the first `saved` versions of it. */
    ghost predicate Ok() {
      && Represents(g, log, hist, offs) && Placed(hist, offs, next) && LogEnd(g, |data|, next)
      && saved <= |hist| && savedNext <= next
      && Holds(g, data, hist[..saved], offs[..saved], savedNext)
    }
  }

  type OpenStore = s: Snapshot | s.Ok()
    ghost witness (FreshStoreOk(Geometry(0, 1)); FreshStore(Geometry(0, 1)))

  function FreshStore(g: Geometry): Snapshot {
    Snapshot(g, MakeImage(g), DataStart(g), Padded(MakeImage(g), DataStart(g)), [], [], 0, DataStart(g))
  }

  lemma FreshStoreOk(g: Geometry)
    requires g.Valid()
    ensures FreshStore(g).Ok()
  {
    FreshImage(g);
    StoreOpened(g, MakeImage(g), [], [], DataStart(g));
  }

  /** An image that was just opened. */
  lemma StoreOpened(g: Geometry, img: seq<byte>, hist: seq<Version>, offs: seq<nat>, next: nat)
    requires Holds(g, img, hist, offs, next)
    ensures Snapshot(g, img, next, Padded(img, next), hist, offs, |hist|, next).Ok()
  {
    assert hist[..|hist|] == hist && offs[..|hist|] == offs;
    forall i | 0 <= i < |hist| ensures Extent(hist, offs, i) <= next {
      assert RecordAt(g, Padded(img, next), hist, offs, i);
    }
  }

  /** The index table names the newest record of every block. */
  ghost predicate IndexOk(g: Geometry, index: seq<nat>, hist: seq<Version>, offs: seq<nat>) {
    && g.blocks <= |index| && |hist| == |offs|
    && forall b :: 0 <= b < g.blocks ==> index[b] == HeadOff(hist, offs, |hist|, b, Now)
  }

  // ----- the time-travel cache -----

  /** Flagged blocks carry the answer of their walk, the others still the head of their chain. */
  ghost predicate CacheOk(g: Geometry, index: seq<nat>, bits: seq<bv8>, sizes: seq<nat>,
                          hist: seq<Version>, offs: seq<nat>, t: Time)
  {
    && g.blocks <= |index| && g.blocks <= |bits| && g.blocks <= |sizes| && |hist| == |offs|
    && forall b :: 0 <= b < g.blocks ==>
         if Bit(bits, b) then Answer(hist, offs, b, t, index[b], sizes[b])
         else index[b] == HeadOff(hist, offs, |hist|, b, Now)
  }

  /** What a walk of block `b`'s chain for restore point `t` must find. */
  ghost predicate Answer(hist: seq<Version>, offs: seq<nat>, b: nat, t: Time, off: nat, size: nat)
    requires |hist| == |offs|
  {
    var i := Newest(hist, |hist|, b, AsOf(t));
    if i < 0 then off == 0 else off == offs[i] && size == TrimSize(hist[i].data)
  }

  lemma CacheFilled(g: Geometry, index: seq<nat>, bits: seq<bv8>, sizes: seq<nat>,
                    hist: seq<Version>, offs: seq<nat>, t: Time, b: nat, off: nat, size: nat)
    requires CacheOk(g, index, bits, sizes, hist, offs, t) && b < g.blocks
    requires Answer(hist, offs, b, t, off, size)
    ensures CacheOk(g, index[b := off], WithBit(bits, b), sizes[b := size], hist, offs, t)
  {
    var index', bits', sizes' := index[b := off], WithBit(bits, b), sizes[b := size];
    forall c | 0 <= c < g.blocks
      ensures if Bit(bits', c) then Answer(hist, offs, c, t, index'[c], sizes'[c])
              else index'[c] == HeadOff(hist, offs, |hist|, c, Now)
    {
      WithBitSets(bits, b, c);
    }
  }

  /** Nothing has been written since the image was opened. */
  ghost predicate AtRest(s: Snapshot) {
    s.saved == |s.hist| && s.savedNext == s.next && s.log == Padded(s.data, s.next)
  }

  lemma AtRestIsImage(s: OpenStore)
    requires AtRest(s)
    ensures Holds(s.g, s.data, s.hist, s.offs, s.next)
  {
    assert s.hist[..|s.hist|] == s.hist && s.offs[..|s.offs|] == s.offs;
  }

  lemma AtRestTables(s: OpenStore, index: seq<nat>)
    requires AtRest(s)
    ensures HasHeader(s.g, s.data, s.next) && s.g.Valid() && s.next % 512 == 0 && s.next < LIMIT
    ensures s.g.blocks <= |index| && (forall b :: 0 <= b < |index| ==> index[b] == IndexEntry(s.data, b))
      ==> IndexOk(s.g, index, s.hist, s.offs)
  {
    AtRestIsImage(s);
  }

  lemma AtRestEntry(s: OpenStore, b: nat)
    requires AtRest(s) && b < s.g.blocks
    ensures |s.offs| == |s.hist| && IndexEntry(s.data, b) == HeadOff(s.hist, s.offs, |s.hist|, b, Now)
  {
    AtRestIsImage(s);
  }

  /** With no flag set, the cache says the same as the index table. */
  lemma CacheStarts(g: Geometry, index: seq<nat>, bits: seq<bv8>, sizes: seq<nat>,
                    hist: seq<Version>, offs: seq<nat>, t: Time)
    requires IndexOk(g, index, hist, offs) && g.blocks <= |bits| && g.blocks <= |sizes|
    requires forall k :: 0 <= k < |bits| ==> bits[k] == 0
    ensures CacheOk(g, index, bits, sizes, hist, offs, t)
  {
  }

  // ----- reading one record -----

  /** A record at `o`, with its data, lies in the log, on one side of the flush boundary. */
  ghost predicate Readable(s: Snapshot, o: nat) {
    && 0 < o && o + HEADER <= |s.log|
    && var size := HeaderSize(s.log[o..o + HEADER]);
       && size <= s.g.BlockSize() <= 4096 && o + HEADER + size <= |s.log|
       && (o < s.next ==> o + HEADER + size <= s.next <= |s.data|)
  }

  /** The zero-extended data of a readable record. */
  ghost function DataAt(s: Snapshot, o: nat): seq<byte>
    requires Readable(s, o)
  {
    var size := HeaderSize(s.log[o..o + HEADER]);
    s.log[o + HEADER..o + HEADER + size] + Zeros(s.g.BlockSize() - size)
  }

  lemma RecordParts(s: OpenStore, i: nat)
    requires i < |s.hist|
    ensures |s.offs| == |s.hist| && Readable(s, s.offs[i])
    ensures DataAt(s, s.offs[i]) == s.hist[i].data
  {
    assert RecordAt(s.g, s.log, s.hist, s.offs, i);
    RecordIsReadable(s, i);
  }

  lemma RecordHeader(s: OpenStore, i: nat)
    requires i < |s.hist|
    ensures |s.offs| == |s.hist| && s.offs[i] + HEADER <= |s.log|
    ensures var h := s.log[s.offs[i]..s.offs[i] + HEADER];
      && HeaderTs(h) == s.hist[i].ts && HeaderSize(h) == TrimSize(s.hist[i].data)
      && HeaderNext(h) == HeadOff(s.hist, s.offs, i, s.hist[i].block, Now)
  {
    assert RecordAt(s.g, s.log, s.hist, s.offs, i);
  }

  lemma RecordIsReadable(s: Snapshot, i: nat)
    requires i < |s.hist| == |s.offs| && RecordAt(s.g, s.log, s.hist, s.offs, i)
    requires s.g.Valid() && |s.hist[i].data| == s.g.BlockSize()
    requires Extent(s.hist, s.offs, i) <= s.next || s.next <= s.offs[i]
    requires s.next <= |s.data| || s.next == DataStart(s.g)
    ensures Readable(s, s.offs[i]) && DataAt(s, s.offs[i]) == s.hist[i].data
  {
    hide HeaderSize, TrimSize, HeadOff;
    BlockSizeAligned(s.g);
    RecordData(s.g, s.log, s.hist, s.offs, i);
  }

  /** What lies under the head that a reader of block `b` finds. */
  lemma RecordUnder(s: OpenStore, b: nat, when: When)
    ensures |s.offs| == |s.hist| && WellFormed(s.g, s.hist)
    ensures var o := HeadOff(s.hist, s.offs, |s.hist|, b, when);
      if o == 0 then BlockOf(s.g, s.hist, b, when) == Zeros(s.g.BlockSize())
      else Readable(s, o) && DataAt(s, o) == BlockOf(s.g, s.hist, b, when)
  {
    var i := Newest(s.hist, |s.hist|, b, when);
    if i >= 0 {
      RecordParts(s, i);
    }
  }

  // ----- writing -----

  /** What bio_write or bio_flush may do to the file: `used` bytes were buffered before. */
  ghost predicate Grown(s: Snapshot, data: seq<byte>, next: nat) {
    && |data| >= |s.data| && Padded(data, s.next) == Padded(s.data, s.next)
    && next % 512 == 0 && next < LIMIT
    && (next == s.next || (|s.log| <= next <= |data| && s.next <= next))
  }

  /** The snapshot after a flush. */
  function Flushed(s: Snapshot, data: seq<byte>, next: nat, log: seq<byte>): Snapshot {
    s.(data := data, next := next, log := log)
  }

  lemma GrownHolds(s: OpenStore, data: seq<byte>, next: nat)
    requires Grown(s, data, next)
    ensures s.saved <= |s.hist| == |s.offs| && s.savedNext <= s.next
    ensures Holds(s.g, data, s.hist[..s.saved], s.offs[..s.saved], s.savedNext)
    ensures LogEnd(s.g, |data|, next)
  {
    assert Padded(data, s.savedNext) == Padded(data, s.next)[..s.savedNext];
    assert Padded(s.data, s.savedNext) == Padded(s.data, s.next)[..s.savedNext];
    HoldsBelowNext(s.g, s.data, data, s.hist[..s.saved], s.offs[..s.saved], s.savedNext);
  }

  lemma GrownPlaced(s: OpenStore, data: seq<byte>, next: nat)
    requires Grown(s, data, next)
    ensures |s.hist| == |s.offs| && Placed(s.hist, s.offs, next)
  {
    forall i | 0 <= i < |s.hist| ensures Extent(s.hist, s.offs, i) <= next || next <= s.offs[i] {
      assert RecordAt(s.g, s.log, s.hist, s.offs, i);
    }
  }

  lemma FlushedOk(s: OpenStore, data: seq<byte>, next: nat, log: seq<byte>)
    requires Grown(s, data, next) && s.log <= log
    ensures Flushed(s, data, next, log).Ok()
  {
    GrownHolds(s, data, next);
    GrownPlaced(s, data, next);
    RepresentsStable(s.g, s.log, log, s.hist, s.offs);
  }

  /** The snapshot with one more record at `off`. */
  function Extended(s: Snapshot, data: seq<byte>, next: nat, log: seq<byte>, v: Version, off: nat): Snapshot {
    s.(data := data, next := next, log := log, hist := s.hist + [v], offs := s.offs + [off])
  }

  lemma ExtendedOk(s: OpenStore, data: seq<byte>, next: nat, log: seq<byte>, v: Version, off: nat, pad: seq<byte>)
    requires Grown(s, data, next) && s.log <= log
    requires v.block < s.g.blocks && |v.data| == s.g.BlockSize() && Stamp(v.ts) && |pad| == 6
    requires |s.log| <= off <= LIMIT && off % 16 == 0 && next <= off <= |log|
    requires TrimSize(v.data) <= |v.data| && |s.offs| == |s.hist|
    requires log[off..] == RecordBytes(v, HeadOff(s.hist, s.offs, |s.hist|, v.block, Now), pad)
    ensures Extended(s, data, next, log, v, off).Ok()
  {
    GrownHolds(s, data, next);
    GrownPlaced(s, data, next);
    AppendRecord(s.g, s.log, s.hist, s.offs, v, off, pad, log);
    assert (s.hist + [v])[..s.saved] == s.hist[..s.saved] && (s.offs + [off])[..s.saved] == s.offs[..s.saved];
    ExtendedPlaced(s.hist, s.offs, next, v, off);
  }

  lemma ExtendedPlaced(hist: seq<Version>, offs: seq<nat>, next: nat, v: Version, off: nat)
    requires |hist| == |offs| && Placed(hist, offs, next) && next <= off
    ensures Placed(hist + [v], offs + [off], next)
  {
    forall i | 0 <= i < |hist| + 1
      ensures Extent(hist + [v], offs + [off], i) <= next || next <= (offs + [off])[i]
    {
      if i < |hist| { assert Extent(hist, offs, i) <= next || next <= offs[i]; }
    }
  }

  lemma IndexExtended(g: Geometry, index: seq<nat>, hist: seq<Version>, offs: seq<nat>, v: Version, off: nat)
    requires IndexOk(g, index, hist, offs) && v.block < g.blocks
    ensures IndexOk(g, index[v.block := off], hist + [v], offs + [off])
  {
    var index' := index[v.block := off];
    forall b | 0 <= b < g.blocks
      ensures index'[b] == HeadOff(hist + [v], offs + [off], |hist| + 1, b, Now)
    {
      HeadOffAppended(hist, offs, v, off, b);
    }
  }

  /** pd_write's two tests for an elidable write say what they mean. */
  lemma ElisionTest(s: OpenStore, index: seq<nat>, v: Version)
    requires |s.offs| == |s.hist| && IndexOk(s.g, index, s.hist, s.offs) && v.block < s.g.blocks && |v.data| == s.g.BlockSize()
    ensures TrimSize(v.data) <= |v.data| <= 4096
    ensures Recorded(s.hist, v) == if TrimSize(v.data) == 0 && index[v.block] == 0 then s.hist else s.hist + [v]
    ensures index[v.block] == HeadOff(s.hist, s.offs, |s.hist|, v.block, Now)
  {
    BlockSizeAligned(s.g);
    TrimIsLeast(v.data, 0);
    var i := Newest(s.hist, |s.hist|, v.block, Now);
    if i >= 0 { assert RecordAt(s.g, s.log, s.hist, s.offs, i); }
  }
}
