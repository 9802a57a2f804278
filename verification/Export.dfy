/** convertToSequenceFileFromLdLocal.java: every record of an image, as key and value. */
module Export {
  import opened Bytes
  import opened Flat
  import opened Rounding
  import opened Trim
  import opened Versions
  import opened Log
  import opened Store
  import opened JavaBytes
  import opened Reader
  import opened Database
  import opened Widths

  datatype Entry = Entry(key: seq<byte>, value: seq<byte>)

  /** What the writer gets for record `i`. */
  ghost function EntryOf(s: OpenStore, i: nat): Entry
    requires AtRest(s) && i < |s.hist|
  {
    RecordInFile(s, i);
    Entry(KeyOf(HeaderOf(s, i), s.hist[i].block), s.hist[i].data[..TrimSize(s.hist[i].data)])
  }

  ghost function Entries(s: OpenStore, places: seq<nat>): (r: seq<Entry>)
    requires AtRest(s) && forall k :: 0 <= k < |places| ==> places[k] < |s.hist|
    ensures |r| == |places|
  {
    seq(|places|, k requires 0 <= k < |places| => EntryOf(s, places[k]))
  }

  /** The order of the export: block by block, each from its newest record. */
  function Order(hist: seq<Version>, blocks: nat): seq<nat> {
    if blocks == 0 then [] else Order(hist, blocks - 1) + Chain(hist, |hist|, blocks - 1)
  }

  /** Block numbers ascend; within a block, newer records come first. */
  predicate Sooner(hist: seq<Version>, i: nat, j: nat)
    requires i < |hist| && j < |hist|
  {
    hist[i].block < hist[j].block || (hist[i].block == hist[j].block && j < i)
  }

  lemma {:induction false} OrderIs(hist: seq<Version>, n: nat)
    ensures forall k :: k in Order(hist, n) <==> 0 <= k < |hist| && hist[k].block < n
    ensures forall k :: 0 <= k < |Order(hist, n)| ==> Order(hist, n)[k] < |hist|
    ensures forall p, q :: 0 <= p < q < |Order(hist, n)| ==> Sooner(hist, Order(hist, n)[p], Order(hist, n)[q])
  {
    hide Chain;
    if n > 0 {
      OrderIs(hist, n - 1);
      ChainIsAll(hist, |hist|, n - 1);
      var front, chain := Order(hist, n - 1), Chain(hist, |hist|, n - 1);
      assert forall k :: 0 <= k < |chain| ==> chain[k] in chain;
      assert forall k :: 0 <= k < |front| ==> front[k] in front;
      SoonerJoins(hist, front, chain, n - 1);
    }
  }

  /** A list of lower blocks and the chain of block `b` behind it. */
  lemma SoonerJoins(hist: seq<Version>, front: seq<nat>, chain: seq<nat>, b: nat)
    requires forall k :: 0 <= k < |front| ==> front[k] < |hist| && hist[front[k]].block < b
    requires forall k :: 0 <= k < |chain| ==> chain[k] < |hist| && hist[chain[k]].block == b
    requires forall p, q :: 0 <= p < q < |front| ==> Sooner(hist, front[p], front[q])
    requires forall p, q :: 0 <= p < q < |chain| ==> chain[q] < chain[p]
    ensures forall k :: 0 <= k < |front + chain| ==> (front + chain)[k] < |hist|
    ensures forall p, q :: 0 <= p < q < |front + chain| ==> Sooner(hist, (front + chain)[p], (front + chain)[q])
  {
  }

  predicate Distinct(s: seq<nat>) {
    forall p, q :: 0 <= p < q < |s| ==> s[p] != s[q]
  }

  lemma Without(s: seq<nat>, at: nat)
    requires at < |s| && Distinct(s)
    ensures Distinct(s[..at] + s[at + 1..])
    ensures forall k :: k in s[..at] + s[at + 1..] <==> k in s && k != s[at]
  {
    assert s == s[..at] + [s[at]] + s[at + 1..];
  }

  lemma HasFirst(s: seq<nat>)
    ensures s == [] || s[0] in s
  {
  }

  /** A list without repetition that holds exactly the numbers below `n` has length `n`. */
  lemma {:induction false} PigeonHole(s: seq<nat>, n: nat)
    requires Distinct(s) && forall k :: k in s <==> 0 <= k < n
    ensures |s| == n
  {
    hide Distinct;
    if n == 0 {
      HasFirst(s);
    } else {
      assert n - 1 in s;
      var at :| 0 <= at < |s| && s[at] == n - 1;
      Without(s, at);
      var rest := s[..at] + s[at + 1..];
      assert forall k :: k in rest <==> k in s && k != n - 1;
      PigeonHole(rest, n - 1);
    }
  }

  /** The export is complete and without repetition: as many entries as records, every record once,
      block by block and newest first. */
  lemma ExportIsComplete(g: Geometry, hist: seq<Version>)
    requires WellFormed(g, hist)
    ensures var order := Order(hist, g.blocks);
      && |order| == |hist|
      && (forall i :: 0 <= i < |hist| ==> i in order)
      && (forall k :: 0 <= k < |order| ==> order[k] < |hist|)
      && (forall p, q :: 0 <= p < q < |order| ==> order[p] != order[q] && Sooner(hist, order[p], order[q]))
  {
    OrderIs(hist, g.blocks);
    var order := Order(hist, g.blocks);
    forall p, q | 0 <= p < q < |order| ensures order[p] != order[q] {
      assert Sooner(hist, order[p], order[q]);
    }
    PigeonHole(order, |hist|);
  }

  /** key.set, value.set and writer.append for one record. */
  method EntryFor(pr: PreservationRecord, block: nat, ghost s: OpenStore, ghost i: nat) returns (e: Entry)
    requires AtRest(s) && Is(pr, s, i) && block == s.hist[i].block < 0x8000_0000
    ensures e == EntryOf(s, i)
  {
    var header := pr.GetHeader(block, HeaderOf(s, i));
    e := Entry(header, pr.recordData);
  }

  /** The places of one block's records. */
  ghost predicate ChainPlaces(s: Snapshot, chain: seq<nat>, b: nat) {
    && |s.offs| == |s.hist|
    && forall k :: 0 <= k < |chain| ==> chain[k] < |s.hist| && s.hist[chain[k]].block == b
  }

  lemma ChainHasPlaces(s: OpenStore, b: nat)
    ensures ChainPlaces(s, Chain(s.hist, |s.hist|, b), b)
  {
    var chain := Chain(s.hist, |s.hist|, b);
    ChainIsAll(s.hist, |s.hist|, b);
    forall k | 0 <= k < |chain| ensures chain[k] < |s.hist| && s.hist[chain[k]].block == b {
      assert chain[k] in chain;
    }
  }

  /** The rest of a chain is the chain from there. */
  lemma {:induction false} ChainTail(hist: seq<Version>, n: nat, b: nat, k: nat)
    requires n <= |hist| && k < |Chain(hist, n, b)|
    ensures Chain(hist, n, b)[k] < n && Chain(hist, Chain(hist, n, b)[k], b) == Chain(hist, n, b)[k + 1..]
  {
    var chain, i := Chain(hist, n, b), Newest(hist, n, b, Now);
    if k > 0 {
      assert chain[k] == Chain(hist, i, b)[k - 1];
      ChainTail(hist, i, b, k - 1);
      assert chain[1..][k..] == chain[k + 1..];
    } else {
      assert chain[1..] == Chain(hist, i, b);
    }
  }

  /** Where the export of block `b` stands after `n` entries. */
  ghost predicate ExportAt(s: OpenStore, b: nat, n: nat, offset: nat) {
    && AtRest(s)
    && var chain := Chain(s.hist, |s.hist|, b);
      && ChainPlaces(s, chain, b) && n <= |chain|
      && offset == if n < |chain| then s.offs[chain[n]] else 0
  }

  lemma ExportOffset(s: OpenStore, b: nat, n: nat, offset: nat)
    requires ExportAt(s, b, n, offset)
    ensures offset < LIMIT && (offset == 0 <==> n == |Chain(s.hist, |s.hist|, b)|)
  {
    var chain := Chain(s.hist, |s.hist|, b);
    if n < |chain| {
      InRange(s, chain[n]);
      RecordInFile(s, chain[n]);
    }
  }

  lemma ExportNext(s: OpenStore, b: nat, n: nat)
    requires AtRest(s) && ChainPlaces(s, Chain(s.hist, |s.hist|, b), b) && n < |Chain(s.hist, |s.hist|, b)|
    ensures ExportAt(s, b, n + 1, HeadOff(s.hist, s.offs, Chain(s.hist, |s.hist|, b)[n], b, Now))
  {
    var chain := Chain(s.hist, |s.hist|, b);
    ChainTail(s.hist, |s.hist|, b, n);
    if n + 1 < |chain| {
      assert chain[n + 1..][0] == chain[n + 1];
    }
  }

  /** The newest record of a block, if the reader finds one. */
  method ExportNewest(pd: PreservationDatabase, i: nat, ghost s: OpenStore, ghost read: nat) returns (out: seq<Entry>, offset: nat)
    requires pd.OpenedTo(s, read) && i < s.g.blocks < 0x8000_0000
    ensures if i < read then ExportAt(s, i, |out|, offset) else out == [] && offset == 0
    ensures i < read ==> out == Entries(s, Chain(s.hist, |s.hist|, i))[..|out|]
  {
    hide HeadOff, EntryOf, AtRest;
    ChainHasPlaces(s, i);
    out, offset := [], 0;
    var count := pd.GetNumOfRecord(i, s, read);
    if count != 0 {
      var pr := pd.GetRecord(i, 0, s, read);
      var e := EntryFor(pr, i, s, Chain(s.hist, |s.hist|, i)[0]);
      out := out + [e];
      offset := pr.nextOffset;
      ExportNext(s, i, 0);
    }
  }

  /** The body of the inner loop. */
  method ExportLink(pd: PreservationDatabase, i: nat, offset: nat, ghost k: nat, ghost s: OpenStore, ghost read: nat) returns (e: Entry, next: nat)
    requires pd.OpenedTo(s, read) && i < s.g.blocks < 0x8000_0000
    requires ExportAt(s, i, k, offset) && k < |Chain(s.hist, |s.hist|, i)|
    ensures ExportAt(s, i, k + 1, next)
    ensures e == Entries(s, Chain(s.hist, |s.hist|, i))[k]
  {
    ExportOffset(s, i, k, offset);
    ghost var at := Chain(s.hist, |s.hist|, i)[k];
    var pr := LoadRecord(pd.file, Wrap64(offset), pd.blockSize, s, at);
    e := EntryFor(pr, i, s, at);
    ExportNext(s, i, k);
    next := pr.nextOffset;
  }

  /** One block of the export: the newest record through getRecord, the others by following the links. */
  method ExportBlock(pd: PreservationDatabase, i: nat, ghost s: OpenStore, ghost read: nat) returns (out: seq<Entry>)
    requires pd.OpenedTo(s, read) && i < s.g.blocks < 0x8000_0000
    ensures ChainPlaces(s, ChainRead(s.hist, i, read), i)
    ensures out == Entries(s, ChainRead(s.hist, i, read))
  {
    hide HeadOff, AtRest, Chain, EntryOf, PreservationDatabase.OpenedTo;
    ghost var chain := Chain(s.hist, |s.hist|, i);
    var offset: nat;
    out, offset := ExportNewest(pd, i, s, read);
    if i < read { ExportOffset(s, i, |out|, offset); }
    while Wrap64(offset) != 0
      invariant if i < read then ExportAt(s, i, |out|, offset) && offset < LIMIT else out == [] && offset == 0
      invariant i < read ==> (offset == 0 <==> |out| == |chain|)
      invariant i < read ==> out == Entries(s, chain)[..|out|]
      decreases |chain| - |out|
    {
      ghost var k := |out|;
      var e;
      e, offset := ExportLink(pd, i, offset, k, s, read);
      out := out + [e];
      ExportOffset(s, i, k + 1, offset);
    }
  }

  lemma EntriesJoin(s: OpenStore, p: seq<nat>, q: seq<nat>)
    requires AtRest(s)
    requires forall k :: 0 <= k < |p| ==> p[k] < |s.hist|
    requires forall k :: 0 <= k < |q| ==> q[k] < |s.hist|
    ensures Entries(s, p + q) == Entries(s, p) + Entries(s, q)
  {
    hide EntryOf;
  }

  /** The first `n` blocks have been exported. */
  ghost predicate Exported(s: OpenStore, n: nat, out: seq<Entry>) {
    && AtRest(s)
    && (forall j :: 0 <= j < |Order(s.hist, n)| ==> Order(s.hist, n)[j] < |s.hist|)
    && out == Entries(s, Order(s.hist, n))
  }

  lemma ExportedStep(s: OpenStore, n: nat, out: seq<Entry>, block: seq<Entry>)
    requires Exported(s, n, out) && ChainPlaces(s, Chain(s.hist, |s.hist|, n), n)
    requires block == Entries(s, Chain(s.hist, |s.hist|, n))
    ensures Exported(s, n + 1, out + block)
  {
    OrderIs(s.hist, n + 1);
    EntriesJoin(s, Order(s.hist, n), Chain(s.hist, |s.hist|, n));
  }

  /** The converter's main loop: every record of every block whose index entry has been read, in the order of the export,
      with one count per record. These are all records of the image exactly if the reader has the driver's table. */
  method ExportAll(pd: PreservationDatabase, ghost s: OpenStore, ghost read: nat) returns (out: seq<Entry>, k: nat)
    requires pd.OpenedTo(s, read) && s.g.Valid() && read <= s.g.blocks
    ensures Exported(s, read, out) && k == |out|
    ensures k == |s.hist| <==> pd.Opened(s)
  {
    BlockCount(s);
    out, k := [], 0;
    var i: nat, blocks: int := 0, pd.diskSize / pd.blockSize;
    while i < blocks
      invariant i <= s.g.blocks && k == |out| && Exported(s, if i < read then i else read, out)
    {
      var block := ExportBlock(pd, i, s, read);
      if i < read { ExportedStep(s, i, out, block); }
      out, k := out + block, k + |block|;
      i := i + 1;
    }
    CompleteIff(s, read);
    OpenedExactly(pd, s, read);
  }

  lemma {:induction false} OrderGrows(hist: seq<Version>, n: nat, m: nat)
    requires n <= m
    ensures Order(hist, n) <= Order(hist, m)
  {
    if n < m {
      OrderGrows(hist, n, m - 1);
    }
  }

  /** All records are in the first `read` blocks exactly if no block behind them has been written. */
  lemma CompleteIff(s: OpenStore, read: nat)
    requires read <= s.g.blocks
    ensures |Order(s.hist, read)| == |s.hist| <==> forall b :: read <= b < s.g.blocks ==> !EverWritten(s.hist, b)
  {
    var n := s.g.blocks;
    RecordUnder(s, 0, Now);
    ExportIsComplete(s.g, s.hist);
    OrderIs(s.hist, read);
    OrderIs(s.hist, n);
    OrderGrows(s.hist, read, n);
    if |Order(s.hist, read)| == |s.hist| {
      assert Order(s.hist, read) == Order(s.hist, n);
      forall b | read <= b < n ensures !EverWritten(s.hist, b) {
        if EverWritten(s.hist, b) {
          var i := WrittenBehind(s.hist, read, b);
          assert false;
        }
      }
    } else {
      var i := Order(s.hist, n)[|Order(s.hist, read)|];
      BlockBehind(s.hist, read, n, |Order(s.hist, read)|);
      assert Chosen(s.hist, i, s.hist[i].block, Now);
      assert EverWritten(s.hist, s.hist[i].block);
    }
  }

  lemma WrittenBehind(hist: seq<Version>, n: nat, b: nat) returns (i: nat)
    requires b >= n && EverWritten(hist, b)
    ensures i < |hist| && i !in Order(hist, n)
  {
    OrderIs(hist, n);
    i := Newest(hist, |hist|, b, Now);
    assert Chosen(hist, i, b, Now);
  }

  /** What a longer order adds are records of blocks behind the shorter one. */
  lemma BlockBehind(hist: seq<Version>, n: nat, m: nat, k: nat)
    requires n <= m && |Order(hist, n)| <= k < |Order(hist, m)|
    ensures Order(hist, m)[k] < |hist| && n <= hist[Order(hist, m)[k]].block < m
  {
    OrderIs(hist, n);
    OrderIs(hist, m);
    OrderGrows(hist, n, m);
    var i := Order(hist, m)[k];
    assert i in Order(hist, m);
    forall p | 0 <= p < |Order(hist, n)| ensures Order(hist, n)[p] != i {
      assert Sooner(hist, Order(hist, m)[p], Order(hist, m)[k]);
    }
  }

  /** The loop bound is the number of blocks, and the export as long as the history. */
  lemma BlockCount(s: OpenStore)
    ensures s.g.BlockSize() > 0 && s.g.DiskSize() / s.g.BlockSize() == s.g.blocks
    ensures |Order(s.hist, s.g.blocks)| == |s.hist|
  {
    BlockSizeAligned(s.g);
    ProductForms(s.g, s.g.blocks, 0);
    DivModUnique(s.g.DiskSize(), s.g.BlockSize(), s.g.blocks, 0);
    RecordUnder(s, 0, Now);
    ExportIsComplete(s.g, s.hist);
  }
}
