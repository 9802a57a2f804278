/** What "stamped before" means, in nanoseconds and in whole seconds. */
module Clock {
  import opened Bytes
  import opened Flat
  import opened Versions

  /** The nanoseconds since the epoch. */
  function Nanos(t: Time): int { t.sec * 1000000000 + t.nsec }

  /** What clock_gettime returns. */
  predicate Regular(t: Time) { 0 <= t.nsec < 1000000000 }

  predicate RegularStamps(hist: seq<Version>) {
    forall i :: 0 <= i < |hist| ==> Regular(hist[i].ts)
  }

  /** The order of the walk is that of time. */
  lemma EarlierIsLess(a: Time, b: Time)
    ensures Regular(a) && Regular(b) ==> (Earlier(a, b) <==> a.sec * 1000000000 + a.nsec < b.sec * 1000000000 + b.nsec)
    ensures Earlier(a, b) <==> a.sec < b.sec || (a.sec == b.sec && a.nsec < b.nsec)
  {
  }

  /** `i` is the newest version of block `b` stamped in less than `limit` nanoseconds; -1: there is none. */
  ghost predicate LastBefore(hist: seq<Version>, b: nat, limit: int, i: int) {
    && -1 <= i < |hist|
    && (i >= 0 ==> hist[i].block == b && Nanos(hist[i].ts) < limit)
    && forall k :: i < k < |hist| && hist[k].block == b ==> Nanos(hist[k].ts) >= limit
  }

  /** A reader at `t` gets the last version stamped in less nanoseconds than `t`, or zeros. */
  lemma ReadsLastBefore(g: Geometry, hist: seq<Version>, b: nat, t: Time) returns (i: int)
    requires WellFormed(g, hist) && RegularStamps(hist) && Regular(t)
    ensures LastBefore(hist, b, Nanos(t), i)
    ensures BlockOf(g, hist, b, AsOf(t)) == if i < 0 then Zeros(g.BlockSize()) else hist[i].data
  {
    i := Newest(hist, |hist|, b, AsOf(t));
    forall k | 0 <= k < |hist|
      ensures Chosen(hist, k, b, AsOf(t)) <==>
        hist[k].block == b && Nanos(hist[k].ts) < Nanos(t)
    {
      EarlierIsLess(hist[k].ts, t);
    }
  }

  /** A reader at second `second` sharp accepts just what was stamped in earlier seconds: nothing stamped in that second
      or later, and all that was stamped in the second before. */
  lemma WholeSeconds(g: Geometry, hist: seq<Version>, b: nat, second: int) returns (i: int)
    requires WellFormed(g, hist) && RegularStamps(hist)
    ensures -1 <= i < |hist| && (i >= 0 ==> hist[i].block == b && hist[i].ts.sec < second)
    ensures forall k :: i < k < |hist| && hist[k].block == b ==> hist[k].ts.sec >= second
    ensures BlockOf(g, hist, b, AsOf(Time(second, 0))) == if i < 0 then Zeros(g.BlockSize()) else hist[i].data
  {
    i := ReadsLastBefore(g, hist, b, Time(second, 0));
  }

  /** `x` is byte `p` of the disk as the versions stamped in less than `limit` nanoseconds have left it. */
  ghost predicate ByteBefore(g: Geometry, hist: seq<Version>, p: nat, limit: int, x: byte) {
    && WellFormed(g, hist)
    && exists b: nat, i: int :: b < g.blocks && g.Start(b) <= p < g.Start(b) + g.BlockSize() && LastBefore(hist, b, limit, i)
         && x == if i < 0 then 0 else hist[i].data[p - g.Start(b)]
  }

  lemma ShowsByteBefore(g: Geometry, hist: seq<Version>, t: Time, p: nat)
    requires g.Valid() && WellFormed(g, hist) && RegularStamps(hist) && Regular(t) && p < g.DiskSize()
    ensures ByteBefore(g, hist, p, Nanos(t), Show(g, hist, AsOf(t))[p])
  {
    hide Show, BlockOf, LastBefore, Geometry.FirstSector, Geometry.BlockNo;
    var sector := p / SECTOR;
    var b := g.BlockNo(sector);
    SectorBlock(g, sector, p + 1 - sector * SECTOR);
    BlockBounds(g, b);
    ShowIs(g, hist, AsOf(t), b);
    var i := ReadsLastBefore(g, hist, b, t);
    InPlace(g, sector, p);
    LastIn(hist, b, Nanos(t), i);
    assert Show(g, hist, AsOf(t))[p] == Block(g, Show(g, hist, AsOf(t)), b)[p - g.Start(b)];
  }

  lemma LastIn(hist: seq<Version>, b: nat, limit: int, i: int)
    requires LastBefore(hist, b, limit, i)
    ensures i < |hist|
  {
  }

  lemma InPlace(g: Geometry, sector: nat, p: nat)
    requires g.Valid() && sector == p / SECTOR
    requires sector * SECTOR == g.Start(g.BlockNo(sector)) + g.InBlock(sector) * SECTOR
    ensures g.Start(g.BlockNo(sector)) <= p < g.Start(g.BlockNo(sector)) + g.BlockSize()
  {
    hide Geometry.FirstSector, Geometry.BlockNo;
  }

  /** The accepted requests are those stamped in less than `t` nanoseconds, in their order. */
  lemma StampedBeforeIs(writes: seq<Write>, w: Write, t: Time)
    requires Regular(w.ts) && Regular(t)
    ensures StampedBefore([], t) == []
    ensures StampedBefore(writes + [w], t)
         == StampedBefore(writes, t) + if Nanos(w.ts) < Nanos(t) then [w] else []
  {
    EarlierIsLess(w.ts, t);
    assert (writes + [w])[..|writes|] == writes;
  }
}
