/** The image format of preservation.h: records behind 32-byte headers, linked per block, newest first.
    `Represents` says that a sequence of log bytes holds a given version history. */
module Log {
  import opened Bytes
  import opened Flat
  import opened Rounding
  import opened Trim
  import opened Versions
  import opened Widths

  const HEADER := 32

  /** Clock readings that a `struct timespec` holds without sign. */
  predicate Stamp(ts: Time) {
    0 <= ts.sec < LIMIT && 0 <= ts.nsec < LIMIT
  }

  /** Size of the index table on disk. */
  function IndexBytes(g: Geometry): (r: nat)
    ensures r % 512 == 0 && 8 * g.blocks <= r
  {
    Up512(g.blocks * 8)
  }

  /** First byte behind header and index table. */
  function DataStart(g: Geometry): (r: nat)
    ensures r % 512 == 0 && r >= 512
  {
    512 + IndexBytes(g)
  }

  // ----- entry headers -----

  function EncodeHeader(ts: Time, next: nat, size: nat, pad: seq<byte>): (r: seq<byte>)
    requires Stamp(ts) && |pad| == 6
    ensures |r| == HEADER
  {
    ToLe(ts.sec, 8) + ToLe(ts.nsec, 8) + ToLe(next, 8) + ToLe(size, 2) + pad
  }

  function HeaderTs(h: seq<byte>): Time
    requires |h| == HEADER
  {
    Time(FromLe(h[0..8]), FromLe(h[8..16]))
  }

  function HeaderNext(h: seq<byte>): nat
    requires |h| == HEADER
  {
    FromLe(h[16..24])
  }

  function HeaderSize(h: seq<byte>): (r: nat)
    requires |h| == HEADER
    ensures r < 0x1_0000
  {
    Pow256At8();
    FromLe(h[24..26])
  }

  lemma HeaderRoundTrip(ts: Time, next: nat, size: nat, pad: seq<byte>)
    requires Stamp(ts) && |pad| == 6 && next < LIMIT && size < 0x1_0000
    ensures var h := EncodeHeader(ts, next, size, pad);
      HeaderTs(h) == ts && HeaderNext(h) == next && HeaderSize(h) == size
  {
    hide ToLe, FromLe;
    Pow256At8();
    FromToLe(ts.sec, 8);
    FromToLe(ts.nsec, 8);
    FromToLe(next, 8);
    FromToLe(size, 2);
    var h := EncodeHeader(ts, next, size, pad);
    assert h[0..8] == ToLe(ts.sec, 8);
    assert h[8..16] == ToLe(ts.nsec, 8);
    assert h[16..24] == ToLe(next, 8);
    assert h[24..26] == ToLe(size, 2);
  }

  // ----- the history in the log -----

  /** First byte behind record `i`. */
  function Extent(hist: seq<Version>, offs: seq<nat>, i: nat): nat
    requires i < |hist| == |offs|
  {
    offs[i] + HEADER + TrimSize(hist[i].data)
  }

  /** Where the newest accepted record of block `b` among the first `n` lies, 0 if there is none. */
  function HeadOff(hist: seq<Version>, offs: seq<nat>, n: nat, b: nat, when: When): nat
    requires n <= |hist| == |offs|
  {
    var i := Newest(hist, n, b, when);
    if i < 0 then 0 else offs[i]
  }

  /** Record `i` of the history is in the log, linked to the previous record of its block. */
  ghost predicate RecordAt(g: Geometry, log: seq<byte>, hist: seq<Version>, offs: seq<nat>, i: nat)
    requires i < |hist| == |offs|
  {
    var v := hist[i];
    && DataStart(g) <= offs[i] && offs[i] % 16 == 0
    && Stamp(v.ts)
    && TrimSize(v.data) <= |v.data|
    && Extent(hist, offs, i) <= |log|
    && HeaderTs(log[offs[i]..offs[i] + HEADER]) == v.ts
    && HeaderNext(log[offs[i]..offs[i] + HEADER]) == HeadOff(hist, offs, i, v.block, Now)
    && HeaderSize(log[offs[i]..offs[i] + HEADER]) == TrimSize(v.data)
    && log[offs[i] + HEADER..Extent(hist, offs, i)] == v.data[..TrimSize(v.data)]
  }

  ghost predicate Represents(g: Geometry, log: seq<byte>, hist: seq<Version>, offs: seq<nat>) {
    && g.Valid() && |hist| == |offs| && WellFormed(g, hist)
    && (forall i :: 0 <= i < |hist| ==> RecordAt(g, log, hist, offs, i))
    && (forall i, j :: 0 <= i < j < |hist| ==> Extent(hist, offs, i) <= offs[j])
  }

  /** The records survive any change of the file that keeps the record region: header and index
      updates below DataStart, and bytes appended behind the log. */
  lemma RepresentsStable(g: Geometry, log: seq<byte>, log': seq<byte>, hist: seq<Version>, offs: seq<nat>)
    requires Represents(g, log, hist, offs)
    requires |log| <= |log'| && forall k :: DataStart(g) <= k < |log| ==> log[k] == log'[k]
    ensures Represents(g, log', hist, offs)
  {
    forall i | 0 <= i < |hist| ensures RecordAt(g, log', hist, offs, i) {
      assert RecordAt(g, log, hist, offs, i);
      var o, e := offs[i], Extent(hist, offs, i);
      assert log[o..o + HEADER] == log'[o..o + HEADER];
      assert log[o + HEADER..e] == log'[o + HEADER..e];
    }
  }

  lemma NewestOfPrefix(hist: seq<Version>, more: seq<Version>, n: nat, b: nat, when: When)
    requires n <= |hist|
    ensures Newest(hist + more, n, b, when) == Newest(hist, n, b, when)
  {
    var r := Newest(hist, n, b, when);
    forall i | r < i < n ensures !Chosen(hist + more, i, b, when) {
      assert !Chosen(hist, i, b, when);
    }
    if r >= 0 { assert Chosen(hist, r, b, when); assert Chosen(hist + more, r, b, when); }
    NewestIs(hist + more, n, b, when, r);
  }

  lemma HeadOffOfPrefix(hist: seq<Version>, offs: seq<nat>, v: Version, off: nat, n: nat, b: nat, when: When)
    requires n <= |hist| == |offs|
    ensures HeadOff(hist + [v], offs + [off], n, b, when) == HeadOff(hist, offs, n, b, when)
  {
    NewestOfPrefix(hist, [v], n, b, when);
  }

  /** The head of a block's chain after one more record. */
  lemma HeadOffAppended(hist: seq<Version>, offs: seq<nat>, v: Version, off: nat, b: nat)
    requires |hist| == |offs|
    ensures HeadOff(hist + [v], offs + [off], |hist| + 1, b, Now)
         == if v.block == b then off else HeadOff(hist, offs, |hist|, b, Now)
  {
    var all := hist + [v];
    if v.block == b {
      assert Chosen(all, |hist|, b, Now);
      NewestIs(all, |all|, b, Now, |hist|);
    } else {
      NewestOfPrefix(hist, [v], |hist|, b, Now);
      assert !Chosen(all, |hist|, b, Now);
      assert Newest(all, |all|, b, Now) == Newest(all, |hist|, b, Now);
    }
  }

  /** The bytes that one version occupies in the log. */
  function RecordBytes(v: Version, next: nat, pad: seq<byte>): (r: seq<byte>)
    requires Stamp(v.ts) && |pad| == 6 && TrimSize(v.data) <= |v.data|
    ensures |r| == HEADER + TrimSize(v.data)
  {
    EncodeHeader(v.ts, next, TrimSize(v.data), pad) + v.data[..TrimSize(v.data)]
  }

  lemma RecordKept(g: Geometry, log: seq<byte>, hist: seq<Version>, offs: seq<nat>, v: Version, off: nat, i: nat)
    requires i < |hist| == |offs| && RecordAt(g, log, hist, offs, i)
    ensures RecordAt(g, log, hist + [v], offs + [off], i)
  {
    HeadOffOfPrefix(hist, offs, v, off, i, hist[i].block, Now);
  }

  /** What a reader sees of a freshly written record. */
  lemma RecordBytesRead(log: seq<byte>, off: nat, v: Version, next: nat, pad: seq<byte>)
    requires Stamp(v.ts) && |pad| == 6 && TrimSize(v.data) <= |v.data| <= 4096 && next < LIMIT
    requires off <= |log| && log[off..] == RecordBytes(v, next, pad)
    ensures |log| == off + HEADER + TrimSize(v.data)
    ensures HeaderTs(log[off..off + HEADER]) == v.ts
    ensures HeaderNext(log[off..off + HEADER]) == next
    ensures HeaderSize(log[off..off + HEADER]) == TrimSize(v.data)
    ensures log[off + HEADER..] == v.data[..TrimSize(v.data)]
  {
    var size := TrimSize(v.data);
    HeaderRoundTrip(v.ts, next, size, pad);
    var h, d := EncodeHeader(v.ts, next, size, pad), v.data[..size];
    SliceOfConcat(log, off, h, d);
  }

  lemma SliceOfConcat(log: seq<byte>, off: nat, a: seq<byte>, b: seq<byte>)
    requires off <= |log| && log[off..] == a + b
    ensures |log| == off + |a| + |b|
    ensures log[off..off + |a|] == a && log[off + |a|..] == b
  {
    assert |log[off..]| == |a| + |b|;
    assert log[off..off + |a|] == log[off..][..|a|];
    assert log[off + |a|..] == log[off..][|a|..];
  }

  lemma RecordAdded(g: Geometry, log: seq<byte>, hist: seq<Version>, offs: seq<nat>, v: Version, off: nat)
    requires |hist| == |offs| && Stamp(v.ts) && TrimSize(v.data) <= |v.data|
    requires DataStart(g) <= off && off % 16 == 0 && |log| == off + HEADER + TrimSize(v.data)
    requires HeaderTs(log[off..off + HEADER]) == v.ts
    requires HeaderNext(log[off..off + HEADER]) == HeadOff(hist, offs, |hist|, v.block, Now)
    requires HeaderSize(log[off..off + HEADER]) == TrimSize(v.data)
    requires log[off + HEADER..] == v.data[..TrimSize(v.data)]
    ensures RecordAt(g, log, hist + [v], offs + [off], |hist|)
  {
    HeadOffOfPrefix(hist, offs, v, off, |hist|, v.block, Now);
    assert log[off + HEADER..] == log[off + HEADER..|log|];
  }

  lemma HeadOffBound(g: Geometry, log: seq<byte>, hist: seq<Version>, offs: seq<nat>, n: nat, b: nat, when: When)
    requires Represents(g, log, hist, offs) && n <= |hist|
    ensures var o := HeadOff(hist, offs, n, b, when);
      o == 0 || (DataStart(g) <= o && o + HEADER <= |log|)
  {
    var i := Newest(hist, n, b, when);
    if i >= 0 { assert RecordAt(g, log, hist, offs, i); }
  }

  /** Appending a record that points at the current head of its block extends the history by that version. */
  lemma AppendRecord(g: Geometry, log: seq<byte>, hist: seq<Version>, offs: seq<nat>,
                     v: Version, off: nat, pad: seq<byte>, log': seq<byte>)
    requires Represents(g, log, hist, offs)
    requires v.block < g.blocks && |v.data| == g.BlockSize() && Stamp(v.ts) && |pad| == 6
    requires DataStart(g) <= off && |log| <= off <= LIMIT && off % 16 == 0
    requires TrimSize(v.data) <= |v.data|
    requires off <= |log'| && log <= log'
    requires log'[off..] == RecordBytes(v, HeadOff(hist, offs, |hist|, v.block, Now), pad)
    ensures Represents(g, log', hist + [v], offs + [off])
  {
    var all, places := hist + [v], offs + [off];
    RepresentsStable(g, log, log', hist, offs);
    HeadOffBound(g, log, hist, offs, |hist|, v.block, Now);
    forall i | 0 <= i < |hist| ensures RecordAt(g, log', all, places, i) {
      RecordKept(g, log', hist, offs, v, off, i);
    }
    RecordBytesRead(log', off, v, HeadOff(hist, offs, |hist|, v.block, Now), pad);
    RecordAdded(g, log', hist, offs, v, off);
    forall i, j | 0 <= i < j < |all| ensures Extent(all, places, i) <= places[j] {
      assert RecordAt(g, log, hist, offs, i);
      if j < |hist| { assert Extent(hist, offs, i) <= offs[j]; }
    }
  }

  /** The data of record `i`, zero-extended, is the whole version. */
  lemma RecordData(g: Geometry, log: seq<byte>, hist: seq<Version>, offs: seq<nat>, i: nat)
    requires i < |hist| == |offs| && RecordAt(g, log, hist, offs, i) && |hist[i].data| % 16 == 0
    ensures var o, size := offs[i], TrimSize(hist[i].data);
      && 0 < o && size <= |hist[i].data| && o + HEADER + size <= |log|
      && HeaderSize(log[o..o + HEADER]) == size
      && hist[i].data == log[o + HEADER..o + HEADER + size] + Zeros(|hist[i].data| - size)
  {
    TrimIsLossless(hist[i].data);
  }

  /** What a reader gets who finds a record at `off` (0: none): the zero-extended data. */
  function ReadRecord(g: Geometry, log: seq<byte>, off: nat): (r: seq<byte>)
    ensures |r| == g.BlockSize()
  {
    if off == 0 || off + HEADER > |log| then Zeros(g.BlockSize())
    else
      var size := HeaderSize(log[off..off + HEADER]);
      if off + HEADER + size > |log| then Zeros(g.BlockSize())
      else Padded(log[off + HEADER..off + HEADER + size], g.BlockSize())
  }

  /** The record found under the head of a block is the block. */
  lemma HeadHoldsBlock(g: Geometry, log: seq<byte>, hist: seq<Version>, offs: seq<nat>, b: nat, when: When)
    requires Represents(g, log, hist, offs)
    ensures ReadRecord(g, log, HeadOff(hist, offs, |hist|, b, when)) == BlockOf(g, hist, b, when)
  {
    hide TrimSize, HeaderSize;
    var i := Newest(hist, |hist|, b, when);
    if i >= 0 {
      assert RecordAt(g, log, hist, offs, i);
      TrimIsLossless(hist[i].data);
    }
  }

  // ----- chains -----

  /** The versions of block `b` among the first `n`, newest first, by place in the history. */
  function Chain(hist: seq<Version>, n: nat, b: nat): (r: seq<nat>)
    requires n <= |hist|
  {
    var i := Newest(hist, n, b, Now);
    if i < 0 then [] else [i] + Chain(hist, i, b)
  }

  /** A chain holds every version of its block exactly once, newest first. */
  lemma {:induction false} ChainIsAll(hist: seq<Version>, n: nat, b: nat)
    requires n <= |hist|
    ensures forall k :: k in Chain(hist, n, b) <==> 0 <= k < n && hist[k].block == b
    ensures forall i, j :: 0 <= i < j < |Chain(hist, n, b)| ==> Chain(hist, n, b)[j] < Chain(hist, n, b)[i]
  {
    var i := Newest(hist, n, b, Now);
    if i < 0 {
      forall k | 0 <= k < n ensures hist[k].block != b {
        assert !Chosen(hist, k, b, Now);
      }
    } else {
      ChainIsAll(hist, i, b);
      var c, d := Chain(hist, n, b), Chain(hist, i, b);
      assert Chosen(hist, i, b, Now);
      forall k ensures k in c <==> 0 <= k < n && hist[k].block == b {
        if i < k < n { assert !Chosen(hist, k, b, Now); }
      }
      forall p, q | 0 <= p < q < |c| ensures c[q] < c[p] {
        assert c[q] == d[q - 1] && d[q - 1] in d;
        if p > 0 { assert c[p] == d[p - 1]; }
      }
    }
  }

  /** Following the `next` fields of the bytes, as long as they point backwards. */
  function ByteChain(log: seq<byte>, off: nat): (r: seq<nat>)
    decreases off
  {
    if off == 0 || off + HEADER > |log| then []
    else
      var next := HeaderNext(log[off..off + HEADER]);
      if next >= off then [off] else [off] + ByteChain(log, next)
  }

  function Places(offs: seq<nat>, chain: seq<nat>): (r: seq<nat>)
    requires forall i :: 0 <= i < |chain| ==> chain[i] < |offs|
    ensures |r| == |chain|
  {
    seq(|chain|, i requires 0 <= i < |chain| => offs[chain[i]])
  }

  /** Links always point strictly backwards, so every walk ends. */
  lemma NextIsEarlier(g: Geometry, log: seq<byte>, hist: seq<Version>, offs: seq<nat>, i: nat)
    requires Represents(g, log, hist, offs) && i < |hist|
    ensures HeadOff(hist, offs, i, hist[i].block, Now) < offs[i]
  {
    assert RecordAt(g, log, hist, offs, i);
    var j := Newest(hist, i, hist[i].block, Now);
    if j >= 0 {
      assert Extent(hist, offs, j) <= offs[i];
    }
  }

  lemma ByteChainStep(g: Geometry, log: seq<byte>, hist: seq<Version>, offs: seq<nat>, i: nat)
    requires Represents(g, log, hist, offs) && i < |hist|
    ensures ByteChain(log, offs[i]) == [offs[i]] + ByteChain(log, HeadOff(hist, offs, i, hist[i].block, Now))
  {
    assert RecordAt(g, log, hist, offs, i);
    NextIsEarlier(g, log, hist, offs, i);
  }

  /** Following the links in the bytes from a block's head lists exactly the versions of that block. */
  lemma {:induction false} ByteChainIsHistory(g: Geometry, log: seq<byte>, hist: seq<Version>, offs: seq<nat>, n: nat, b: nat)
    requires Represents(g, log, hist, offs) && n <= |hist|
    ensures forall k :: 0 <= k < |Chain(hist, n, b)| ==> Chain(hist, n, b)[k] < |offs|
    ensures ByteChain(log, HeadOff(hist, offs, n, b, Now)) == Places(offs, Chain(hist, n, b))
  {
    hide HeaderTs, HeaderSize, HeaderNext, RecordAt, Extent;
    var i := Newest(hist, n, b, Now);
    if i >= 0 {
      ByteChainIsHistory(g, log, hist, offs, i, b);
      ByteChainStep(g, log, hist, offs, i);
      assert Chain(hist, n, b) == [i] + Chain(hist, i, b);
    }
  }

  /** No record belongs to two blocks. */
  lemma ChainsAreDisjoint(g: Geometry, log: seq<byte>, hist: seq<Version>, offs: seq<nat>, a: nat, b: nat, off: nat)
    requires Represents(g, log, hist, offs) && a != b
    requires off in ByteChain(log, HeadOff(hist, offs, |hist|, a, Now))
    ensures off !in ByteChain(log, HeadOff(hist, offs, |hist|, b, Now))
  {
    ByteChainIsHistory(g, log, hist, offs, |hist|, a);
    ByteChainIsHistory(g, log, hist, offs, |hist|, b);
    ChainIsAll(hist, |hist|, a);
    ChainIsAll(hist, |hist|, b);
    var ca, cb := Chain(hist, |hist|, a), Chain(hist, |hist|, b);
    var i :| 0 <= i < |ca| && Places(offs, ca)[i] == off;
    assert ca[i] in ca;
    forall j | 0 <= j < |cb| ensures Places(offs, cb)[j] != off {
      assert cb[j] in cb;
      OffsetsDiffer(g, log, hist, offs, ca[i], cb[j]);
    }
  }

  lemma OffsetsDiffer(g: Geometry, log: seq<byte>, hist: seq<Version>, offs: seq<nat>, i: nat, j: nat)
    requires Represents(g, log, hist, offs) && i < |hist| && j < |hist| && i != j
    ensures offs[i] != offs[j]
  {
    if i < j {
      assert Extent(hist, offs, i) <= offs[j];
    } else {
      assert Extent(hist, offs, j) <= offs[i];
    }
  }

  /** One step of a time-travel walk: the newest version either is accepted or may be skipped. */
  lemma WalkStep(hist: seq<Version>, n: nat, b: nat, when: When)
    requires n <= |hist|
    ensures var i := Newest(hist, n, b, Now);
      && (i < 0 ==> Newest(hist, n, b, when) == -1)
      && (i >= 0 && Admits(when, hist[i].ts) ==> Newest(hist, n, b, when) == i)
      && (i >= 0 && !Admits(when, hist[i].ts) ==> Newest(hist, n, b, when) == Newest(hist, i, b, when))
  {
    var i := Newest(hist, n, b, Now);
    forall k | i < k < n ensures !Chosen(hist, k, b, when) {
      assert !Chosen(hist, k, b, Now);
    }
    if i < 0 {
      NewestIs(hist, n, b, when, -1);
    } else if Admits(when, hist[i].ts) {
      assert Chosen(hist, i, b, Now);
      assert Chosen(hist, i, b, when);
      NewestIs(hist, n, b, when, i);
    } else {
      var r := Newest(hist, i, b, when);
      if r >= 0 { assert Chosen(hist, r, b, when); }
      forall k | r < k < n ensures !Chosen(hist, k, b, when) {
      }
      NewestIs(hist, n, b, when, r);
    }
  }
}
