/** Restore points: when a reader at a restore point sees the disk as it was. Stamps come from a clock that may
    run backwards, and a version holds a whole block, whoever wrote the rest of it and when. */
module TimeTravel {
  import opened Bytes
  import opened Flat
  import opened Versions

  predicate Covers(w: Write, p: nat) {
    w.sector * SECTOR <= p < w.sector * SECTOR + |w.data|
  }

  predicate Touches(g: Geometry, w: Write, b: nat) {
    w.data != [] && w.sector * SECTOR < g.Start(b) + g.BlockSize() && g.Start(b) < w.sector * SECTOR + |w.data|
  }

  predicate Reaches(writes: seq<Write>, i: nat, p: nat, when: When)
    requires i < |writes|
  {
    Covers(writes[i], p) && Admits(when, writes[i].ts)
  }

  /** The last accepted one of the first `n` requests that covers byte `p`, or -1. */
  function Covering(writes: seq<Write>, n: nat, p: nat, when: When): (r: int)
    requires n <= |writes|
    ensures -1 <= r < n
    ensures r >= 0 ==> Reaches(writes, r, p, when)
    ensures forall i :: r < i < n ==> !Reaches(writes, i, p, when)
  {
    if n == 0 then -1
    else if Reaches(writes, n - 1, p, when) then n - 1
    else Covering(writes, n - 1, p, when)
  }

  predicate TouchesEarly(g: Geometry, writes: seq<Write>, i: nat, b: nat, t: Time)
    requires i < |writes|
  {
    Touches(g, writes[i], b) && Earlier(writes[i].ts, t)
  }

  /** How many of the first `n` requests there are up to the last one that touches block `b` and is stamped
      before `t`. */
  function HowFar(g: Geometry, writes: seq<Write>, n: nat, b: nat, t: Time): (r: nat)
    requires n <= |writes|
    ensures r <= n
    ensures r > 0 ==> TouchesEarly(g, writes, r - 1, b, t)
    ensures forall i :: r <= i < n ==> !TouchesEarly(g, writes, i, b, t)
  {
    if n == 0 || TouchesEarly(g, writes, n - 1, b, t) then n else HowFar(g, writes, n - 1, b, t)
  }

  /** No byte of the block that a reader at `t` gets comes from a request stamped `t` or later: up to the last request
      that touches the block and is stamped before `t`, the last one that covers the byte is stamped before `t`, too. */
  predicate InOrder(g: Geometry, writes: seq<Write>, b: nat, t: Time) {
    var n := HowFar(g, writes, |writes|, b, t);
    forall p :: g.Start(b) <= p < g.Start(b) + g.BlockSize() ==> Timely(writes, n, p, t)
  }

  predicate Timely(writes: seq<Write>, n: nat, p: nat, t: Time)
    requires n <= |writes|
  {
    var i := Covering(writes, n, p, Now);
    i < 0 || Earlier(writes[i].ts, t)
  }

  /** The same stamps and places, with other data perhaps. */
  predicate SameShape(ws: seq<Write>, ws': seq<Write>) {
    && |ws'| == |ws|
    && forall i :: 0 <= i < |ws| ==> ws'[i].ts == ws[i].ts && ws'[i].sector == ws[i].sector && |ws'[i].data| == |ws[i].data|
  }

  // ----- bytes -----

  lemma {:induction false} CoveringOfPrefix(writes: seq<Write>, m: nat, n: nat, p: nat, when: When)
    requires n <= m <= |writes|
    ensures Covering(writes[..m], n, p, when) == Covering(writes, n, p, when)
  {
    if n > 0 {
      CoveringOfPrefix(writes, m, n - 1, p, when);
    }
  }

  lemma {:induction false} HowFarOfPrefix(g: Geometry, writes: seq<Write>, m: nat, n: nat, b: nat, t: Time)
    requires n <= m <= |writes|
    ensures HowFar(g, writes[..m], n, b, t) == HowFar(g, writes, n, b, t)
  {
    if n > 0 {
      HowFarOfPrefix(g, writes, m, n - 1, b, t);
    }
  }

  /** The requests that are accepted. */
  function Accepted(writes: seq<Write>, when: When): seq<Write> {
    if when.Now? then writes else StampedBefore(writes, when.t)
  }

  lemma AcceptedFit(g: Geometry, writes: seq<Write>, when: When)
    requires AllFit(g, writes)
    ensures AllFit(g, Accepted(writes, when))
  {
    var past := Accepted(writes, when);
    forall i | 0 <= i < |past| ensures Fits(g, past[i]) {
      assert past[i] in past;
    }
  }

  lemma AppliedByte(g: Geometry, flat: seq<byte>, w: Write, p: nat)
    requires |flat| == g.DiskSize() && Fits(g, w) && p < |flat|
    ensures Apply(g, flat, w)[p] == if Covers(w, p) then w.data[p - w.sector * SECTOR] else flat[p]
  {
  }

  /** One more request, accepted or not. */
  lemma ReplayStep(g: Geometry, front: seq<Write>, last: Write, when: When)
    requires AllFit(g, front) && Fits(g, last)
    ensures AllFit(g, Accepted(front, when)) && AllFit(g, Accepted(front + [last], when))
    ensures Replay(g, Accepted(front + [last], when))
         == if Admits(when, last.ts) then Apply(g, Replay(g, Accepted(front, when)), last) else Replay(g, Accepted(front, when))
  {
    var writes := front + [last];
    assert writes[..|writes| - 1] == front;
    AcceptedFit(g, front, when);
    var past := Accepted(writes, when);
    assert past == if Admits(when, last.ts) then Accepted(front, when) + [last] else Accepted(front, when);
    if Admits(when, last.ts) {
      assert past[..|past| - 1] == Accepted(front, when);
    }
  }

  /** The byte of request `i`, or zero if there is none. */
  function ByteOf(writes: seq<Write>, i: int, p: nat): byte
    requires i < |writes| && (i >= 0 ==> Covers(writes[i], p))
  {
    if i < 0 then 0 else writes[i].data[p - writes[i].sector * SECTOR]
  }

  /** A byte of the replayed disk is that of the last request that covers it. */
  lemma {:induction false} ReplayedByte(g: Geometry, writes: seq<Write>, p: nat, when: When)
    requires AllFit(g, writes) && p < g.DiskSize()
    ensures AllFit(g, Accepted(writes, when))
    ensures Replay(g, Accepted(writes, when))[p] == ByteOf(writes, Covering(writes, |writes|, p, when), p)
  {
    hide Replay, Apply, AllFit, Accepted, Fits, Geometry.DiskSize, Admits;
    if writes == [] {
      NothingReplayed(g, when);
    } else {
      var front, last := writes[..|writes| - 1], writes[|writes| - 1];
      assert writes == front + [last];
      FitsSplit(g, front, last);
      ReplayedByte(g, front, p, when);
      CoveringOfPrefix(writes, |front|, |front|, p, when);
      ReplayStep(g, front, last, when);
      AppliedByte(g, Replay(g, Accepted(front, when)), last, p);
    }
  }

  lemma NothingReplayed(g: Geometry, when: When)
    ensures Accepted([], when) == [] && AllFit(g, []) && Replay(g, []) == Zeros(g.DiskSize())
  {
  }

  lemma FitsSplit(g: Geometry, front: seq<Write>, last: Write)
    requires AllFit(g, front + [last])
    ensures AllFit(g, front) && Fits(g, last)
  {
    assert (front + [last])[|front|] == last;
    forall i | 0 <= i < |front| ensures Fits(g, front[i]) {
      assert (front + [last])[i] == front[i];
    }
  }

  // ----- what a reader gets -----

  /** The newest version of block `b`, if there is one, is stamped `ts`. */
  predicate NewestStamped(hist: seq<Version>, b: nat, ts: Time) {
    var i := Newest(hist, |hist|, b, Now);
    i < 0 || hist[i].ts == ts
  }

  lemma PatchStamped(g: Geometry, hist: seq<Version>, ts: Time, c: nat, o: nat, data: seq<byte>, b: nat)
    requires WellFormed(g, hist) && c < g.blocks && o * SECTOR + |data| <= g.BlockSize()
    ensures NewestStamped(hist, b, ts) || c == b ==> NewestStamped(Patch(g, hist, ts, c, o, data), b, ts)
  {
    var v := Version(c, ts, Splice(BlockOf(g, hist, c, Now), o * SECTOR, data));
    var all := hist + [v];
    NewestAdded(hist, v, b);
  }

  lemma NewestAdded(hist: seq<Version>, v: Version, b: nat)
    ensures Newest(hist + [v], |hist| + 1, b, Now) == if v.block == b then |hist| else Newest(hist, |hist|, b, Now)
  {
    var all, i := hist + [v], Newest(hist, |hist|, b, Now);
    if v.block == b {
      NewestIs(all, |all|, b, Now, |hist|);
    } else {
      forall k | i < k < |all| ensures !Chosen(all, k, b, Now) {
        if k < |hist| { assert !Chosen(hist, k, b, Now); }
      }
      if i >= 0 { assert Chosen(hist, i, b, Now); }
      NewestIs(all, |all|, b, Now, i);
    }
  }

  /** The first piece of a request lies in the first block that it touches, the rest in the others. */
  lemma FirstTouched(g: Geometry, w: Write, b: nat)
    requires g.Valid() && Pending(g, w)
    ensures Touches(g, w, b) <==> g.BlockNo(w.sector) == b || Touches(g, Rest(g, w), b)
  {
    hide Geometry.FirstSector, Geometry.BlockNo;
    var c, n := g.BlockNo(w.sector), FirstPiece(g, w.sector, |w.data|);
    SectorBlock(g, w.sector, |w.data|);
    RestStart(g, w);
    if b < c { BlocksApart(g, b, c); } else if c < b { BlocksApart(g, c, b); }
  }

  /** A request leaves a block that it does not touch alone; of one that it touches it leaves the newest version. */
  lemma {:induction false} CommitTouches(g: Geometry, hist: seq<Version>, w: Write, b: nat, when: When)
    requires g.Valid() && WellFormed(g, hist) && Fits(g, w)
    ensures !Touches(g, w, b) ==> BlockOf(g, Commit(g, hist, w), b, when) == BlockOf(g, hist, b, when)
    ensures Touches(g, w, b) || NewestStamped(hist, b, w.ts) ==> NewestStamped(Commit(g, hist, w), b, w.ts)
    decreases |w.data|
  {
    hide Touches, NewestStamped, BlockOf, Patch;
    if w.data == [] {
      NothingTouched(g, w, b);
    } else {
      SectorBlock(g, w.sector, |w.data|);
      var c, o, data := g.BlockNo(w.sector), g.InBlock(w.sector), w.data[..FirstPiece(g, w.sector, |w.data|)];
      FirstTouched(g, w, b);
      PatchStamped(g, hist, w.ts, c, o, data, b);
      PatchElsewhere(g, hist, w.ts, c, o, data, b, when);
      CommitTouches(g, Step(g, hist, w), Rest(g, w), b, when);
    }
  }

  lemma NothingTouched(g: Geometry, w: Write, b: nat)
    requires w.data == []
    ensures !Touches(g, w, b)
  {
  }

  lemma PatchElsewhere(g: Geometry, hist: seq<Version>, ts: Time, c: nat, o: nat, data: seq<byte>, b: nat, when: When)
    requires WellFormed(g, hist) && c < g.blocks && o * SECTOR + |data| <= g.BlockSize()
    ensures b != c ==> BlockOf(g, Patch(g, hist, ts, c, o, data), b, when) == BlockOf(g, hist, b, when)
  {
    Appended(g, hist, Version(c, ts, Splice(BlockOf(g, hist, c, Now), o * SECTOR, data)), b, when);
  }

  lemma StampedReadsNow(g: Geometry, hist: seq<Version>, b: nat, ts: Time, t: Time)
    requires WellFormed(g, hist) && NewestStamped(hist, b, ts) && Earlier(ts, t)
    ensures BlockOf(g, hist, b, AsOf(t)) == BlockOf(g, hist, b, Now)
  {
    var i := Newest(hist, |hist|, b, Now);
    forall k | i < k < |hist| ensures !Chosen(hist, k, b, AsOf(t)) {
      assert !Chosen(hist, k, b, Now);
    }
    if i >= 0 { assert Chosen(hist, i, b, Now); assert Chosen(hist, i, b, AsOf(t)); }
    NewestIs(hist, |hist|, b, AsOf(t), i);
  }

  /** A reader at `t` gets the block as it was after the last request that touches it and is stamped before `t`. */
  lemma {:induction false} ReaderGets(g: Geometry, writes: seq<Write>, b: nat, t: Time)
    requires g.Valid() && AllFit(g, writes) && b < g.blocks
    ensures var front := writes[..HowFar(g, writes, |writes|, b, t)];
      AllFit(g, front) && BlockOf(g, History(g, writes), b, AsOf(t)) == Block(g, Replay(g, front), b)
  {
    hide BlockOf, Commit, Touches, NewestStamped, Replay;
    if writes == [] {
      NothingThere(g, b, t);
    } else {
      var front, last := writes[..|writes| - 1], writes[|writes| - 1];
      HowFarOfPrefix(g, writes, |front|, |front|, b, t);
      CommitTouches(g, History(g, front), last, b, AsOf(t));
      if TouchesEarly(g, writes, |front|, b, t) {
        assert writes[..|writes|] == writes;
        StampedReadsNow(g, History(g, writes), b, last.ts, t);
        HistoryIsReplay(g, writes);
      } else {
        ReaderGets(g, front, b, t);
        if !Earlier(last.ts, t) { CommitTooLate(g, History(g, front), last, b, t); }
        var n := HowFar(g, writes, |writes|, b, t);
        assert writes[..n] == front[..n];
      }
    }
  }

  lemma NothingThere(g: Geometry, b: nat, t: Time)
    requires g.Valid() && b < g.blocks
    ensures AllFit(g, []) && History(g, []) == [] && BlockOf(g, [], b, AsOf(t)) == Block(g, Replay(g, []), b)
  {
    BlockBounds(g, b);
  }

  // ----- the condition -----

  /** The byte of the block at place `p`, as a reader at `t` gets it and as the disk was. */
  lemma BothBytes(g: Geometry, writes: seq<Write>, b: nat, t: Time, p: nat)
    requires g.Valid() && AllFit(g, writes) && b < g.blocks && g.Start(b) <= p < g.Start(b) + g.BlockSize()
    ensures AllFit(g, StampedBefore(writes, t))
    ensures var n := HowFar(g, writes, |writes|, b, t);
      BlockOf(g, History(g, writes), b, AsOf(t))[p - g.Start(b)] == ByteOf(writes, Covering(writes, n, p, Now), p)
    ensures Block(g, Replay(g, StampedBefore(writes, t)), b)[p - g.Start(b)]
         == ByteOf(writes, Covering(writes, |writes|, p, AsOf(t)), p)
  {
    hide Replay, Apply, History, BlockOf, Covering, HowFar, StampedBefore, AllFit, Geometry.FirstSector;
    var n := HowFar(g, writes, |writes|, b, t);
    BlockBounds(g, b);
    ReaderGets(g, writes, b, t);
    ReplayedByte(g, writes[..n], p, Now);
    CoveringOfPrefix(writes, n, n, p, Now);
    assert writes[..n][..n] == writes[..n];
    ReplayedByte(g, writes, p, AsOf(t));
  }

  /** Requests stamped before `t` that cover a byte touch its block. */
  lemma EarlyIsSeen(g: Geometry, writes: seq<Write>, b: nat, t: Time, p: nat)
    requires g.Start(b) <= p < g.Start(b) + g.BlockSize()
    ensures var n := HowFar(g, writes, |writes|, b, t);
      Timely(writes, n, p, t) ==> Covering(writes, |writes|, p, AsOf(t)) == Covering(writes, n, p, Now)
  {
    var n := HowFar(g, writes, |writes|, b, t);
    var i, j := Covering(writes, n, p, Now), Covering(writes, |writes|, p, AsOf(t));
    if Timely(writes, n, p, t) {
      if j >= 0 { assert TouchesEarly(g, writes, j, b, t); assert Reaches(writes, j, p, Now); }
      if i >= 0 { assert Reaches(writes, i, p, AsOf(t)); }
    }
  }

  /** In order, a reader at `t` sees the block as the requests stamped before `t` have left it. */
  lemma TravelsBack(g: Geometry, writes: seq<Write>, b: nat, t: Time)
    requires g.Valid() && AllFit(g, writes) && InOrder(g, writes, b, t) && b < g.blocks
    ensures AllFit(g, StampedBefore(writes, t))
    ensures BlockOf(g, History(g, writes), b, AsOf(t)) == Block(g, Replay(g, StampedBefore(writes, t)), b)
  {
    hide Replay, History, BlockOf, Covering, HowFar, StampedBefore, AllFit, ByteOf, Geometry.FirstSector, Timely;
    AcceptedFit(g, writes, AsOf(t));
    var got, was := BlockOf(g, History(g, writes), b, AsOf(t)), Block(g, Replay(g, StampedBefore(writes, t)), b);
    forall k | 0 <= k < g.BlockSize() ensures got[k] == was[k] {
      var p := g.Start(b) + k;
      assert Timely(writes, HowFar(g, writes, |writes|, b, t), p, t);
      BothBytes(g, writes, b, t, p);
      EarlyIsSeen(g, writes, b, t, p);
    }
  }

  // ----- and only in order -----

  lemma {:induction false} SameCovering(ws: seq<Write>, ws': seq<Write>, n: nat, p: nat, when: When)
    requires SameShape(ws, ws') && n <= |ws|
    ensures Covering(ws', n, p, when) == Covering(ws, n, p, when)
  {
    if n > 0 {
      SameCovering(ws, ws', n - 1, p, when);
    }
  }

  lemma {:induction false} SameHowFar(g: Geometry, ws: seq<Write>, ws': seq<Write>, n: nat, b: nat, t: Time)
    requires SameShape(ws, ws') && n <= |ws|
    ensures HowFar(g, ws', n, b, t) == HowFar(g, ws, n, b, t)
  {
    if n > 0 {
      SameHowFar(g, ws, ws', n - 1, b, t);
    }
  }

  /** Order is a matter of stamps and places alone. */
  lemma SameOrder(g: Geometry, ws: seq<Write>, ws': seq<Write>, b: nat, t: Time)
    requires SameShape(ws, ws')
    ensures InOrder(g, ws', b, t) == InOrder(g, ws, b, t)
  {
    hide Covering, HowFar;
    SameHowFar(g, ws, ws', |ws|, b, t);
    var n := HowFar(g, ws, |ws|, b, t);
    forall p ensures Timely(ws', n, p, t) == Timely(ws, n, p, t) {
      SameCovering(ws, ws', n, p, Now);
    }
  }

  /** Request `i` writes ones, the others zeros. */
  function Marked(ws: seq<Write>, i: nat): (r: seq<Write>)
    ensures SameShape(ws, r)
  {
    seq(|ws|, k requires 0 <= k < |ws| =>
      Write(ws[k].ts, ws[k].sector, seq(|ws[k].data|, _ => if k == i then 1 else 0)))
  }

  lemma MarkedFit(g: Geometry, ws: seq<Write>, i: nat)
    requires AllFit(g, ws)
    ensures AllFit(g, Marked(ws, i))
  {
    var marked := Marked(ws, i);
    forall k | 0 <= k < |marked| ensures Fits(g, marked[k]) {
      assert Fits(g, ws[k]);
    }
  }

  lemma MarkedByte(ws: seq<Write>, i: nat, k: int, p: nat)
    requires k < |ws| && (k >= 0 ==> Covers(Marked(ws, i)[k], p))
    ensures ByteOf(Marked(ws, i), k, p) == if k == i then 1 else 0
  {
  }

  /** Out of order, some data show it. */
  lemma OutOfOrder(g: Geometry, writes: seq<Write>, b: nat, t: Time) returns (ws: seq<Write>)
    requires g.Valid() && AllFit(g, writes) && !InOrder(g, writes, b, t) && b < g.blocks
    ensures SameShape(writes, ws) && AllFit(g, ws) && AllFit(g, StampedBefore(ws, t))
    ensures BlockOf(g, History(g, ws), b, AsOf(t)) != Block(g, Replay(g, StampedBefore(ws, t)), b)
  {
    hide Replay, History, BlockOf, Covering, HowFar, StampedBefore, AllFit, ByteOf, Geometry.FirstSector, Marked;
    var n := HowFar(g, writes, |writes|, b, t);
    var p :| g.Start(b) <= p < g.Start(b) + g.BlockSize() && !Timely(writes, n, p, t);
    var i := Covering(writes, n, p, Now);
    ws := Marked(writes, i);
    MarkedFit(g, writes, i);
    SameHowFar(g, writes, ws, |writes|, b, t);
    SameCovering(writes, ws, n, p, Now);
    BothBytes(g, ws, b, t, p);
    MarkedByte(writes, i, i, p);
    MarkedByte(writes, i, Covering(ws, |ws|, p, AsOf(t)), p);
  }

  /** A reader at `t` sees the block as the requests stamped before `t` have left it, whatever they write, exactly if
      their stamps and places are in order. */
  lemma TravelsExactly(g: Geometry, writes: seq<Write>, b: nat, t: Time)
    requires g.Valid() && AllFit(g, writes) && b < g.blocks
    ensures InOrder(g, writes, b, t) <==>
      (forall ws :: SameShape(writes, ws) && AllFit(g, ws) ==>
         && AllFit(g, StampedBefore(ws, t))
         && BlockOf(g, History(g, ws), b, AsOf(t)) == Block(g, Replay(g, StampedBefore(ws, t)), b))
  {
    hide Replay, History, BlockOf, StampedBefore, AllFit, InOrder, SameShape;
    if InOrder(g, writes, b, t) {
      forall ws | SameShape(writes, ws) && AllFit(g, ws)
        ensures AllFit(g, StampedBefore(ws, t))
        ensures BlockOf(g, History(g, ws), b, AsOf(t)) == Block(g, Replay(g, StampedBefore(ws, t)), b)
      {
        SameOrder(g, writes, ws, b, t);
        TravelsBack(g, ws, b, t);
      }
    } else {
      var ws := OutOfOrder(g, writes, b, t);
    }
  }

  /** The smallest disorder: of two requests that touch a block the first is stamped after `t` and the second before, and
      the first covers a byte of the block that the second leaves alone. */
  lemma SwappedPair(g: Geometry, w0: Write, w1: Write, b: nat, t: Time, p: nat)
    requires !Earlier(w0.ts, t) && Earlier(w1.ts, t) && Touches(g, w1, b)
    requires g.Start(b) <= p < g.Start(b) + g.BlockSize() && Covers(w0, p) && !Covers(w1, p)
    ensures HowFar(g, [w0, w1], 2, b, t) == 2 && Covering([w0, w1], 2, p, Now) == 0 && Covering([w0, w1], 2, p, AsOf(t)) == -1
    ensures !InOrder(g, [w0, w1], b, t)
  {
    var writes := [w0, w1];
    assert TouchesEarly(g, writes, 1, b, t);
    assert Reaches(writes, 0, p, Now) && !Reaches(writes, 1, p, Now) && !Reaches(writes, 0, p, AsOf(t)) && !Reaches(writes, 1, p, AsOf(t));
    assert !Timely(writes, 2, p, t);
  }

  /** A reader at `t` gets another byte `k` of block `b` than the requests stamped before `t` have left there. */
  ghost predicate Astray(g: Geometry, ws: seq<Write>, b: nat, t: Time, k: nat) {
    && g.Valid() && AllFit(g, ws) && AllFit(g, StampedBefore(ws, t)) && b < g.blocks && k < g.BlockSize()
    && BlockOf(g, History(g, ws), b, AsOf(t))[k] != Block(g, Replay(g, StampedBefore(ws, t)), b)[k]
  }

  /** On a disk of one block of two sectors the first is written at 5 and the second at 3, both with ones. A reader at 4
      gets ones in both, though at 4 the first had not been written. */
  lemma SwappedStamps() returns (g: Geometry, ws: seq<Write>, t: Time, ones: seq<byte>)
    ensures g == Geometry(1, 2) && t == Time(4, 0) && ones == seq(512, _ => 1)
    ensures ws == [Write(Time(5, 0), 0, ones), Write(Time(3, 0), 1, ones)]
    ensures !InOrder(g, ws, 0, t) && Astray(g, ws, 0, t, 0)
  {
    hide Replay, History, BlockOf, Covering, HowFar, StampedBefore, InOrder, Block, Geometry.FirstSector;
    g, t, ones := Geometry(1, 2), Time(4, 0), seq(512, _ => 1);
    ws := [Write(Time(5, 0), 0, ones), Write(Time(3, 0), 1, ones)];
    OneBlockOfTwo(g);
    SwappedPair(g, ws[0], ws[1], 0, t, 0);
    BothBytes(g, ws, 0, t, 0);
  }

  lemma OneBlockOfTwo(g: Geometry)
    requires g == Geometry(1, 2)
    ensures g.Valid() && g.Start(0) == 0 && g.BlockSize() == g.DiskSize() == 1024
  {
    FirstSectorIsProduct(g, 1);
  }

  /** Requests that touch block `b` are stamped in their order. */
  predicate OrderedAt(g: Geometry, writes: seq<Write>, b: nat) {
    forall i, j :: 0 <= i < j < |writes| && Touches(g, writes[i], b) && Touches(g, writes[j], b) ==>
      !Earlier(writes[j].ts, writes[i].ts)
  }

  /** If requests that touch a common block are stamped in their order, every restore point is in order. */
  lemma OrderedIsInOrder(g: Geometry, writes: seq<Write>, b: nat, t: Time)
    requires OrderedAt(g, writes, b)
    ensures InOrder(g, writes, b, t)
  {
    var n := HowFar(g, writes, |writes|, b, t);
    forall p | g.Start(b) <= p < g.Start(b) + g.BlockSize() ensures Timely(writes, n, p, t) {
      var i := Covering(writes, n, p, Now);
      if 0 <= i < n - 1 {
        assert Touches(g, writes[i], b) && TouchesEarly(g, writes, n - 1, b, t);
      }
    }
  }

  /** In order at every block. */
  predicate AllInOrder(g: Geometry, writes: seq<Write>, t: Time) {
    forall b :: 0 <= b < g.blocks ==> InOrder(g, writes, b, t)
  }

  /** A clock that never runs backwards keeps everything in order. */
  lemma ClockInOrder(g: Geometry, writes: seq<Write>, t: Time)
    ensures ClockOrdered(writes) ==> AllInOrder(g, writes, t)
  {
    if ClockOrdered(writes) {
      forall b | 0 <= b < g.blocks ensures InOrder(g, writes, b, t) {
        OrderedIsInOrder(g, writes, b, t);
      }
    }
  }
}
