/** What survives when the machine stops before pd_finalize has ended. pd_finalize writes the header
    first and the index table after it; writes reach the disk in order, and a write that is interrupted may be
    there in part, in units of eight bytes. */
module Crash {
  import opened Bytes
  import opened Flat
  import opened Rounding
  import opened Versions
  import opened Log
  import opened Image
  import opened Files

  /** The header is new, each index entry is that of the first `saved` versions or that of all of them. */
  ghost predicate TornTables(g: Geometry, img: seq<byte>, hist: seq<Version>, offs: seq<nat>, next: nat, saved: nat) {
    && HasHeader(g, img, next) && LogEnd(g, |img|, next)
    && Represents(g, Padded(img, next), hist, offs) && saved <= |hist|
    && forall b :: 0 <= b < g.blocks ==>
         IndexEntry(img, b) == HeadOff(hist, offs, saved, b, Now) || IndexEntry(img, b) == HeadOff(hist, offs, |hist|, b, Now)
  }

  /** How far the history of block `b` is known when `n` versions have been looked at. */
  function KnownTo(n: nat, saved: nat, renewed: set<nat>, b: nat): nat {
    if b in renewed || n <= saved then n else saved
  }

  /** The versions still reachable when only the entries of `renewed` were written. */
  function Survivors(hist: seq<Version>, offs: seq<nat>, n: nat, saved: nat, renewed: set<nat>): (r: (seq<Version>, seq<nat>))
    requires n <= |hist| == |offs|
    ensures |r.0| == |r.1|
  {
    if n == 0 then ([], [])
    else
      var r := Survivors(hist, offs, n - 1, saved, renewed);
      if n - 1 < saved || hist[n - 1].block in renewed then (r.0 + [hist[n - 1]], r.1 + [offs[n - 1]]) else r
  }

  predicate RecordIs(hist: seq<Version>, offs: seq<nat>, j: nat, v: Version, off: nat)
    requires j < |hist| == |offs|
  {
    hist[j] == v && offs[j] == off
  }

  ghost predicate DrawnAt(v: Version, off: nat, hist: seq<Version>, offs: seq<nat>, n: nat)
    requires n <= |hist| == |offs|
  {
    exists j :: 0 <= j < n && RecordIs(hist, offs, j, v, off)
  }

  /** Every survivor is a version of the full history. */
  ghost predicate Drawn(h: seq<Version>, o: seq<nat>, hist: seq<Version>, offs: seq<nat>, n: nat)
    requires |h| == |o| && n <= |hist| == |offs|
  {
    forall k :: 0 <= k < |h| ==> DrawnAt(h[k], o[k], hist, offs, n)
  }

  lemma HeadOffStep(hist: seq<Version>, offs: seq<nat>, n: nat, b: nat)
    requires 0 < n <= |hist| == |offs|
    ensures HeadOff(hist, offs, n, b, Now) == if hist[n - 1].block == b then offs[n - 1] else HeadOff(hist, offs, n - 1, b, Now)
  {
    assert Chosen(hist, n - 1, b, Now) <==> hist[n - 1].block == b;
  }

  lemma LastRecord(g: Geometry, log: seq<byte>, hist: seq<Version>, offs: seq<nat>, n: nat, h: seq<Version>, o: seq<nat>)
    requires n < |hist| == |offs| && |h| == |o| && RecordAt(g, log, hist, offs, n)
    requires HeadOff(h, o, |h|, hist[n].block, Now) == HeadOff(hist, offs, n, hist[n].block, Now)
    ensures RecordAt(g, log, h + [hist[n]], o + [offs[n]], |h|)
  {
    hide HeaderTs, HeaderNext, HeaderSize, HeadOff;
    HeadOffOfPrefix(h, o, hist[n], offs[n], |h|, hist[n].block, Now);
  }

  /** One more survivor keeps the log well-formed, because its link is the survivors' own head. */
  lemma SurvivorAdded(g: Geometry, log: seq<byte>, hist: seq<Version>, offs: seq<nat>, n: nat, h: seq<Version>, o: seq<nat>)
    requires Represents(g, log, hist, offs) && n < |hist|
    requires Represents(g, log, h, o) && Drawn(h, o, hist, offs, n)
    requires HeadOff(h, o, |h|, hist[n].block, Now) == HeadOff(hist, offs, n, hist[n].block, Now)
    ensures Represents(g, log, h + [hist[n]], o + [offs[n]])
  {
    var v, off := hist[n], offs[n];
    var all, places := h + [v], o + [off];
    forall i | 0 <= i < |h| ensures RecordAt(g, log, all, places, i) && Extent(all, places, i) <= off {
      RecordKept(g, log, h, o, v, off, i);
      assert DrawnAt(h[i], o[i], hist, offs, n);
      var j :| 0 <= j < n && RecordIs(hist, offs, j, h[i], o[i]);
      assert Extent(hist, offs, j) <= offs[n];
    }
    LastRecord(g, log, hist, offs, n, h, o);
    ExtentsApart(h, o, v, off);
  }

  /** One more record behind all others. */
  lemma ExtentsApart(h: seq<Version>, o: seq<nat>, v: Version, off: nat)
    requires |h| == |o| && forall i, j :: 0 <= i < j < |h| ==> Extent(h, o, i) <= o[j]
    requires forall i :: 0 <= i < |h| ==> Extent(h + [v], o + [off], i) <= off
    ensures forall i, j :: 0 <= i < j < |h| + 1 ==> Extent(h + [v], o + [off], i) <= (o + [off])[j]
  {
    forall i, j | 0 <= i < j < |h| + 1 ensures Extent(h + [v], o + [off], i) <= (o + [off])[j] {
      if j < |h| { assert Extent(h, o, i) <= o[j]; }
    }
  }

  lemma DrawnLater(h: seq<Version>, o: seq<nat>, hist: seq<Version>, offs: seq<nat>, n: nat)
    requires |h| == |o| && n < |hist| == |offs| && Drawn(h, o, hist, offs, n)
    ensures Drawn(h, o, hist, offs, n + 1)
    ensures Drawn(h + [hist[n]], o + [offs[n]], hist, offs, n + 1)
  {
    var all, places := h + [hist[n]], o + [offs[n]];
    forall k | 0 <= k < |h| ensures DrawnAt(h[k], o[k], hist, offs, n + 1) {
      var j :| 0 <= j < n && RecordIs(hist, offs, j, h[k], o[k]);
      assert RecordIs(hist, offs, j, h[k], o[k]);
    }
    forall k | 0 <= k < |all| ensures DrawnAt(all[k], places[k], hist, offs, n + 1) {
      if k < |h| {
        assert DrawnAt(h[k], o[k], hist, offs, n + 1);
      } else {
        assert RecordIs(hist, offs, n, all[k], places[k]);
      }
    }
  }

  lemma SurvivorHead(hist: seq<Version>, offs: seq<nat>, n: nat, saved: nat, renewed: set<nat>, b: nat)
    requires 0 < n <= |hist| == |offs|
    requires var r := Survivors(hist, offs, n - 1, saved, renewed);
      HeadOff(r.0, r.1, |r.0|, b, Now) == HeadOff(hist, offs, KnownTo(n - 1, saved, renewed, b), b, Now)
    ensures var s := Survivors(hist, offs, n, saved, renewed);
      HeadOff(s.0, s.1, |s.0|, b, Now) == HeadOff(hist, offs, KnownTo(n, saved, renewed, b), b, Now)
  {
    var r := Survivors(hist, offs, n - 1, saved, renewed);
    HeadOffStep(hist, offs, n, b);
    HeadOffAppended(r.0, r.1, hist[n - 1], offs[n - 1], b);
  }

  lemma {:induction false} SurvivorsAreLinked(g: Geometry, log: seq<byte>, hist: seq<Version>, offs: seq<nat>,
                                              n: nat, saved: nat, renewed: set<nat>)
    requires Represents(g, log, hist, offs) && n <= |hist|
    ensures var s := Survivors(hist, offs, n, saved, renewed);
      && Represents(g, log, s.0, s.1) && Drawn(s.0, s.1, hist, offs, n)
      && forall b :: HeadOff(s.0, s.1, |s.0|, b, Now) == HeadOff(hist, offs, KnownTo(n, saved, renewed, b), b, Now)
  {
    if n > 0 {
      SurvivorsAreLinked(g, log, hist, offs, n - 1, saved, renewed);
      var r := Survivors(hist, offs, n - 1, saved, renewed);
      DrawnLater(r.0, r.1, hist, offs, n - 1);
      if n - 1 < saved || hist[n - 1].block in renewed {
        SurvivorAdded(g, log, hist, offs, n - 1, r.0, r.1);
      }
      forall b {
        SurvivorHead(hist, offs, n, saved, renewed, b);
      }
    }
  }

  lemma RepresentsPrefix(g: Geometry, log: seq<byte>, hist: seq<Version>, offs: seq<nat>, n: nat)
    requires Represents(g, log, hist, offs) && n <= |hist|
    ensures Represents(g, log, hist[..n], offs[..n])
    ensures forall b, when :: HeadOff(hist[..n], offs[..n], n, b, when) == HeadOff(hist, offs, n, b, when)
  {
    var h, o := hist[..n], offs[..n];
    assert h + hist[n..] == hist;
    forall b, when ensures HeadOff(h, o, n, b, when) == HeadOff(hist, offs, n, b, when) {
      NewestOfPrefix(h, hist[n..], n, b, when);
    }
    forall i | 0 <= i < n ensures RecordAt(g, log, h, o, i) {
      assert RecordAt(g, log, hist, offs, i);
      NewestOfPrefix(h, hist[n..], i, hist[i].block, Now);
    }
    forall i, j | 0 <= i < j < n ensures Extent(h, o, i) <= o[j] {
      assert Extent(hist, offs, i) <= offs[j];
    }
  }

  lemma SameHeadSameBlock(g: Geometry, log: seq<byte>, h: seq<Version>, o: seq<nat>, h': seq<Version>, o': seq<nat>, b: nat)
    requires Represents(g, log, h, o) && Represents(g, log, h', o')
    requires HeadOff(h, o, |h|, b, Now) == HeadOff(h', o', |h'|, b, Now)
    ensures BlockOf(g, h, b, Now) == BlockOf(g, h', b, Now)
  {
    HeadHoldsBlock(g, log, h, o, b, Now);
    HeadHoldsBlock(g, log, h', o', b, Now);
  }

  /** Crash consistency: a torn image is a proper image again, of a history in which every block stands
      either at its last finalized or at its newest version. */
  lemma TornImageHolds(g: Geometry, img: seq<byte>, hist: seq<Version>, offs: seq<nat>, next: nat, saved: nat)
    returns (h: seq<Version>, o: seq<nat>)
    requires TornTables(g, img, hist, offs, next, saved)
    ensures Holds(g, img, h, o, next)
    ensures WellFormed(g, hist[..saved])
    ensures forall b :: 0 <= b < g.blocks ==>
      BlockOf(g, h, b, Now) == BlockOf(g, hist[..saved], b, Now) || BlockOf(g, h, b, Now) == BlockOf(g, hist, b, Now)
  {
    var log := Padded(img, next);
    var renewed := set b | 0 <= b < g.blocks && IndexEntry(img, b) == HeadOff(hist, offs, |hist|, b, Now);
    SurvivorsAreLinked(g, log, hist, offs, |hist|, saved, renewed);
    var s := Survivors(hist, offs, |hist|, saved, renewed);
    h, o := s.0, s.1;
    RepresentsPrefix(g, log, hist, offs, saved);
    forall b | 0 <= b < g.blocks
      ensures IndexEntry(img, b) == HeadOff(h, o, |h|, b, Now)
      ensures BlockOf(g, h, b, Now) == BlockOf(g, hist[..saved], b, Now) || BlockOf(g, h, b, Now) == BlockOf(g, hist, b, Now)
    {
      if b in renewed {
        SameHeadSameBlock(g, log, h, o, hist, offs, b);
      } else {
        SameHeadSameBlock(g, log, h, o, hist[..saved], offs[..saved], b);
      }
    }
  }

  /** Stopping between the header write and the end of the index write gives such a torn image. */
  lemma CrashInFinalize(g: Geometry, flushed: seq<byte>, img: seq<byte>, hist: seq<Version>, offs: seq<nat>, next: nat, saved: nat)
    requires LogEnd(g, |flushed|, next) && Represents(g, Padded(flushed, next), hist, offs) && saved <= |hist|
    requires |flushed| <= |img| && forall k :: DataStart(g) <= k < next ==> Padded(flushed, next)[k] == Padded(img, next)[k]
    requires HasHeader(g, img, next)
    requires forall b :: 0 <= b < g.blocks ==>
      IndexEntry(img, b) == HeadOff(hist, offs, saved, b, Now) || IndexEntry(img, b) == HeadOff(hist, offs, |hist|, b, Now)
    ensures TornTables(g, img, hist, offs, next, saved)
  {
    RepresentsStable(g, Padded(flushed, next), Padded(img, next), hist, offs);
  }

  // ----- steps -----

  /** Whatever a crash during the step leaves, the image holds the same history. */
  ghost predicate StepKeeps(g: Geometry, s: FileStep, hist: seq<Version>, offs: seq<nat>, next: nat) {
    |hist| == |offs| && forall img :: Torn(s, img) ==> Holds(g, img, hist, offs, next)
  }

  /** A write that leaves everything below the on-disk end of the log alone. */
  lemma AppendKeeps(g: Geometry, s: FileStep, hist: seq<Version>, offs: seq<nat>, next: nat)
    requires |hist| == |offs| && Holds(g, s.before, hist, offs, next) && Padded(s.before, next) == Padded(s.after, next)
    ensures StepKeeps(g, s, hist, offs, next)
  {
    hide Represents, HasHeader, Padded, IndexEntry;
    forall img | Torn(s, img) ensures Holds(g, img, hist, offs, next) {
      WholeWords(next);
      TornKeeps(s, img, next);
      HoldsBelowNext(g, s.before, img, hist, offs, next);
    }
  }

  /** Every block of `h` stands as after the first `saved` versions or as after all of them. */
  ghost predicate OldOrNew(g: Geometry, h: seq<Version>, hist: seq<Version>, saved: nat) {
    && saved <= |hist| && WellFormed(g, h) && WellFormed(g, hist) && WellFormed(g, hist[..saved])
    && forall b :: 0 <= b < g.blocks ==>
         BlockOf(g, h, b, Now) == BlockOf(g, hist[..saved], b, Now) || BlockOf(g, h, b, Now) == BlockOf(g, hist, b, Now)
  }

  /** The image can be opened again, with a log that reaches no further than `end`, and shows every block at its
      saved or at its newest version. */
  ghost predicate Recovers(g: Geometry, img: seq<byte>, hist: seq<Version>, saved: nat, end: nat) {
    exists h, o, next: nat :: Holds(g, img, h, o, next) && next <= end && OldOrNew(g, h, hist, saved)
  }

  /** So does whatever a crash during the step leaves. */
  ghost predicate StepRecovers(g: Geometry, s: FileStep, hist: seq<Version>, saved: nat, end: nat) {
    forall img :: Torn(s, img) ==> Recovers(g, img, hist, saved, end)
  }

  lemma KeptRecovers(g: Geometry, s: FileStep, hist: seq<Version>, saved: nat, offs: seq<nat>, next: nat, end: nat)
    requires WellFormed(g, hist) && saved <= |hist| && StepKeeps(g, s, hist[..saved], offs, next) && next <= end
    ensures StepRecovers(g, s, hist, saved, end)
  {
    forall img | Torn(s, img) ensures Recovers(g, img, hist, saved, end) {
      assert Holds(g, img, hist[..saved], offs, next);
      assert OldOrNew(g, hist[..saved], hist, saved);
    }
  }
}
