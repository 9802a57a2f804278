/** pd_finalize: after the flush, the header and then the index table make the image hold the whole history;
    what a crash in between leaves still holds a proper history. */
module Finalize {
  import opened Bytes
  import opened Flat
  import opened Versions
  import opened Log
  import opened Image
  import opened Crash
  import opened Store
  import opened Widths
  import opened Files
  import opened Rounding

  /** The image after both writes. */
  function Sealed(data: seq<byte>, header: seq<byte>, table: seq<byte>): seq<byte> {
    Written(Written(data, 0, header), INDEX_START, table)
  }

  /** A header buffer filled in for the given end of the log. */
  predicate HeaderFor(g: Geometry, header: seq<byte>, next: nat) {
    |header| == 512 && header[..24] == DataHeader(g, next)
  }

  /** The two writes leave the record region alone. */
  lemma SealKeepsLog(g: Geometry, data: seq<byte>, header: seq<byte>, table: seq<byte>, next: nat)
    requires |header| == 512 && |table| == IndexBytes(g) && DataStart(g) <= next
    ensures |Sealed(data, header, table)| >= |data|
    ensures forall k :: DataStart(g) <= k < next ==> Padded(Sealed(data, header, table), next)[k] == Padded(data, next)[k]
  {
    var one, two := Written(data, 0, header), Sealed(data, header, table);
    forall k | DataStart(g) <= k < next ensures Padded(two, next)[k] == Padded(data, next)[k] {
      if k < |two| { assert k < |one| ==> two[k] == one[k]; }
    }
  }

  lemma SealedHeader(g: Geometry, data: seq<byte>, header: seq<byte>, table: seq<byte>, next: nat)
    requires HeaderFor(g, header, next)
    ensures HasHeader(g, Sealed(data, header, table), next)
  {
    var one, two := Written(data, 0, header), Sealed(data, header, table);
    assert |two| >= |one| >= 512;
    forall k | 0 <= k < 24 ensures two[k] == header[k] {
      assert two[k] == one[k];
      assert one[0 + k] == header[k];
    }
    assert two[..24] == header[..24];
  }

  /** Eight bytes of the table, found again in the file. */
  lemma SealedBytes(data: seq<byte>, header: seq<byte>, table: seq<byte>, at: nat)
    requires |header| == 512 && at + 8 <= |table|
    ensures Padded(Sealed(data, header, table), INDEX_START + at + 8)[INDEX_START + at..] == table[at..at + 8]
  {
    hide Sealed;
    var img := Sealed(data, header, table);
    var bytes := Padded(img, INDEX_START + at + 8)[INDEX_START + at..];
    forall k | 0 <= k < 8 ensures bytes[k] == table[at..at + 8][k] {
      SealedByte(data, header, table, at + k);
    }
  }

  lemma SealedByte(data: seq<byte>, header: seq<byte>, table: seq<byte>, k: nat)
    requires |header| == 512 && k < |table|
    ensures var img := Sealed(data, header, table); INDEX_START + k < |img| && img[INDEX_START + k] == table[k]
  {
  }

  lemma EntryRoundTrip(v: nat)
    requires v < LIMIT
    ensures FromLe(ToLe(v, 8)) == v
  {
    Pow256At8();
    FromToLe(v, 8);
  }

  lemma SealedEntry(data: seq<byte>, header: seq<byte>, index: seq<nat>, b: nat)
    requires |header| == 512 && b < |index| && index[b] < LIMIT
    ensures IndexEntry(Sealed(data, header, EncodeIndex(index)), b) == index[b]
  {
    var table := EncodeIndex(index);
    SealedBytes(data, header, table, 8 * b);
    assert IndexEntry(Sealed(data, header, table), b) == FromLe(table[8 * b..8 * b + 8]);
    EncodedEntry(index, b);
    EntryRoundTrip(index[b]);
  }

  lemma HeadsAreSmall(s: OpenStore, index: seq<nat>, b: nat)
    requires |s.offs| == |s.hist| && IndexOk(s.g, index, s.hist, s.offs) && b < s.g.blocks && |s.log| < LIMIT
    ensures index[b] < LIMIT
  {
    HeadOffBound(s.g, s.log, s.hist, s.offs, |s.hist|, b, Now);
  }

  /** A flushed store: the whole log is in the file. */
  ghost predicate AllFlushed(s: Snapshot) {
    s.log == Padded(s.data, s.next)
  }

  function SealedStore(s: Snapshot, img: seq<byte>): Snapshot {
    s.(data := img, log := Padded(img, s.next), saved := |s.hist|, savedNext := s.next)
  }

  /** After pd_finalize the image holds the whole history: opening it restores index table and log end. */
  lemma SealedHolds(s: OpenStore, header: seq<byte>, index: seq<nat>)
    requires AllFlushed(s) && |s.offs| == |s.hist| && IndexOk(s.g, index, s.hist, s.offs)
    requires HeaderFor(s.g, header, s.next) && 8 * |index| == IndexBytes(s.g)
    ensures var img := Sealed(s.data, header, EncodeIndex(index));
      Holds(s.g, img, s.hist, s.offs, s.next) && SealedStore(s, img).Ok()
  {
    var table := EncodeIndex(index);
    var img := Sealed(s.data, header, table);
    SealKeepsLog(s.g, s.data, header, table, s.next);
    SealedHeader(s.g, s.data, header, table, s.next);
    RepresentsStable(s.g, s.log, Padded(img, s.next), s.hist, s.offs);
    forall b | 0 <= b < s.g.blocks ensures IndexEntry(img, b) == HeadOff(s.hist, s.offs, |s.hist|, b, Now) {
      HeadsAreSmall(s, index, b);
      SealedEntry(s.data, header, index, b);
    }
    StoreOpened(s.g, img, s.hist, s.offs, s.next);
  }

  /** After the header write, with any part of the index entries written, the image holds a history in
      which every block is at its last finalized or at its newest version. */
  lemma CrashAfterHeader(s: OpenStore, index: seq<nat>, img: seq<byte>)
    returns (h: seq<Version>, o: seq<nat>)
    requires AllFlushed(s) && |s.offs| == |s.hist| && IndexOk(s.g, index, s.hist, s.offs)
    requires |img| >= |s.data| && HasHeader(s.g, img, s.next)
    requires forall k :: DataStart(s.g) <= k < s.next ==> Padded(s.data, s.next)[k] == Padded(img, s.next)[k]
    requires forall b :: 0 <= b < s.g.blocks ==> IndexEntry(img, b) == IndexEntry(s.data, b) || IndexEntry(img, b) == index[b]
    ensures s.saved <= |s.hist| && WellFormed(s.g, s.hist) && WellFormed(s.g, s.hist[..s.saved])
    ensures Holds(s.g, img, h, o, s.next)
    ensures forall b :: 0 <= b < s.g.blocks ==>
      BlockOf(s.g, h, b, Now) == BlockOf(s.g, s.hist[..s.saved], b, Now) || BlockOf(s.g, h, b, Now) == BlockOf(s.g, s.hist, b, Now)
  {
    RepresentsPrefix(s.g, s.log, s.hist, s.offs, s.saved);
    CrashInFinalize(s.g, s.data, img, s.hist, s.offs, s.next, s.saved);
    h, o := TornImageHolds(s.g, img, s.hist, s.offs, s.next, s.saved);
  }

  // ----- the two writes -----

  lemma HeaderWords(g: Geometry, img: seq<byte>, next: nat)
    ensures HasHeader(g, img, next) <==>
      |img| >= 24 && WordAt(img, 0) == ToLe(g.DiskSize(), 8) && WordAt(img, 1) == ToLe(g.BlockSize(), 8) && WordAt(img, 2) == ToLe(next, 8)
  {
    hide ToLe;
    if |img| >= 24 {
      assert img[..24] == WordAt(img, 0) + WordAt(img, 1) + WordAt(img, 2);
    }
  }

  /** Bytes that a write does not reach. */
  lemma Unreached(data: seq<byte>, pos: nat, bytes: seq<byte>, k: nat)
    requires 8 * k + 8 <= pos || pos + |bytes| <= 8 * k
    ensures WordAt(Written(data, pos, bytes), k) == WordAt(data, k)
  {
  }

  /** Two files with the same words from `from` on. */
  lemma SameBehind(g: Geometry, img: seq<byte>, data: seq<byte>, next: nat)
    requires next % 512 == 0 && forall k: nat :: DataStart(g) <= 8 * k ==> WordAt(img, k) == WordAt(data, k)
    ensures forall k :: DataStart(g) <= k < next ==> Padded(data, next)[k] == Padded(img, next)[k]
  {
    WholeWords(DataStart(g));
    WholeWords(next);
    BytesOfWords(img, data, DataStart(g), next);
  }

  /** What is left of an interrupted header write: the old header or the new one, and the rest of the file. */
  lemma TornHeader(s: OpenStore, header: seq<byte>, img: seq<byte>)
    requires HeaderFor(s.g, header, s.next) && Torn(FileStep(s.data, Written(s.data, 0, header)), img)
    ensures HasHeader(s.g, img, s.savedNext) || HasHeader(s.g, img, s.next)
    ensures forall k: nat :: 512 <= 8 * k ==> WordAt(img, k) == WordAt(s.data, k)
  {
    var after := Written(s.data, 0, header);
    forall k: nat | 512 <= 8 * k ensures WordAt(img, k) == WordAt(s.data, k) {
      Unreached(s.data, 0, header, k);
    }
    assert after[..24] == header[..24];
    HeaderWords(s.g, s.data, s.savedNext);
    HeaderWords(s.g, after, s.next);
    HeaderWords(s.g, img, s.savedNext);
    HeaderWords(s.g, img, s.next);
  }

  /** A crash during the header write. */
  lemma HeaderStep(s: OpenStore, header: seq<byte>, index: seq<nat>)
    requires AllFlushed(s) && |s.offs| == |s.hist| && IndexOk(s.g, index, s.hist, s.offs) && HeaderFor(s.g, header, s.next)
    ensures StepRecovers(s.g, FileStep(s.data, Written(s.data, 0, header)), s.hist, s.saved, s.next)
  {
    var step := FileStep(s.data, Written(s.data, 0, header));
    forall img | Torn(step, img) ensures Recovers(s.g, img, s.hist, s.saved, s.next) {
      TornHeader(s, header, img);
      SameEntries(s.g, img, s.data);
      StoreParts(s);
      if HasHeader(s.g, img, s.savedNext) {
        SameBehind(s.g, img, s.data, s.savedNext);
        OldHeader(s, img);
      } else {
        SameBehind(s.g, img, s.data, s.next);
        NewHeader(s, index, img);
      }
    }
  }

  lemma StoreParts(s: OpenStore)
    ensures s.next % 512 == 0 && s.savedNext % 512 == 0
  {
  }

  lemma SameEntries(g: Geometry, img: seq<byte>, data: seq<byte>)
    requires forall k: nat :: 512 <= 8 * k ==> WordAt(img, k) == WordAt(data, k)
    ensures forall b :: 0 <= b < g.blocks ==> IndexEntry(img, b) == IndexEntry(data, b)
  {
    forall b | 0 <= b < g.blocks ensures IndexEntry(img, b) == IndexEntry(data, b) {
      EntryWord(img, b);
      EntryWord(data, b);
    }
  }

  lemma EntryWord(img: seq<byte>, b: nat)
    ensures IndexEntry(img, b) == FromLe(WordAt(img, 64 + b))
  {
    hide FromLe;
  }

  lemma OldHeader(s: OpenStore, img: seq<byte>)
    requires |img| >= |s.data| && HasHeader(s.g, img, s.savedNext)
    requires forall b :: 0 <= b < s.g.blocks ==> IndexEntry(img, b) == IndexEntry(s.data, b)
    requires forall k :: DataStart(s.g) <= k < s.savedNext ==> Padded(s.data, s.savedNext)[k] == Padded(img, s.savedNext)[k]
    ensures Recovers(s.g, img, s.hist, s.saved, s.next)
  {
    var h, o := s.hist[..s.saved], s.offs[..s.saved];
    RepresentsStable(s.g, Padded(s.data, s.savedNext), Padded(img, s.savedNext), h, o);
    assert Holds(s.g, img, h, o, s.savedNext);
    assert OldOrNew(s.g, h, s.hist, s.saved);
  }

  lemma NewHeader(s: OpenStore, index: seq<nat>, img: seq<byte>)
    requires AllFlushed(s) && |s.offs| == |s.hist| && IndexOk(s.g, index, s.hist, s.offs)
    requires |img| >= |s.data| && HasHeader(s.g, img, s.next)
    requires forall k :: DataStart(s.g) <= k < s.next ==> Padded(s.data, s.next)[k] == Padded(img, s.next)[k]
    requires forall b :: 0 <= b < s.g.blocks ==> IndexEntry(img, b) == IndexEntry(s.data, b) || IndexEntry(img, b) == index[b]
    ensures Recovers(s.g, img, s.hist, s.saved, s.next)
  {
    hide Holds, HasHeader, IndexEntry, IndexOk, AllFlushed;
    var h, o := CrashAfterHeader(s, index, img);
    HoldsWellFormed(s.g, img, h, o, s.next);
    assert OldOrNew(s.g, h, s.hist, s.saved);
  }

  lemma HoldsWellFormed(g: Geometry, img: seq<byte>, h: seq<Version>, o: seq<nat>, next: nat)
    requires Holds(g, img, h, o, next)
    ensures WellFormed(g, h)
  {
  }

  /** The index write, behind a header write. */
  function TableWrite(data: seq<byte>, header: seq<byte>, index: seq<nat>): FileStep {
    var one := Written(data, 0, header);
    FileStep(one, Written(one, INDEX_START, EncodeIndex(index)))
  }

  /** What is left of an interrupted index write: the new header, and every entry old or new. */
  lemma TornTable(s: OpenStore, header: seq<byte>, index: seq<nat>, img: seq<byte>)
    requires |s.offs| == |s.hist| && IndexOk(s.g, index, s.hist, s.offs) && |s.log| < LIMIT
    requires HeaderFor(s.g, header, s.next) && 8 * |index| == IndexBytes(s.g)
    requires Torn(TableWrite(s.data, header, index), img)
    ensures HasHeader(s.g, img, s.next) && |img| >= |s.data|
    ensures forall k: nat :: DataStart(s.g) <= 8 * k ==> WordAt(img, k) == WordAt(s.data, k)
    ensures forall b :: 0 <= b < s.g.blocks ==> IndexEntry(img, b) == IndexEntry(s.data, b) || IndexEntry(img, b) == index[b]
  {
    hide TableWrite, Torn, IndexOk, HasHeader, IndexEntry, HeaderFor;
    TornTableHeader(s.g, s.data, header, index, s.next, img);
    forall k: nat | DataStart(s.g) <= 8 * k ensures WordAt(img, k) == WordAt(s.data, k) {
      TornTableBehind(s.g, s.data, header, index, s.next, img, k);
    }
    forall b | 0 <= b < s.g.blocks ensures IndexEntry(img, b) == IndexEntry(s.data, b) || IndexEntry(img, b) == index[b] {
      HeadsAreSmall(s, index, b);
      TornTableEntry(s.g, s.data, header, index, s.next, img, b);
    }
  }

  lemma TornTableHeader(g: Geometry, data: seq<byte>, header: seq<byte>, index: seq<nat>, next: nat, img: seq<byte>)
    requires HeaderFor(g, header, next) && Torn(TableWrite(data, header, index), img)
    ensures HasHeader(g, img, next) && |img| >= |data|
  {
    hide EncodeIndex, ToLe, WordAt;
    var one, table := Written(data, 0, header), EncodeIndex(index);
    assert one[..24] == header[..24];
    Unreached(one, INDEX_START, table, 0);
    Unreached(one, INDEX_START, table, 1);
    Unreached(one, INDEX_START, table, 2);
    HeaderWords(g, one, next);
    HeaderWords(g, img, next);
  }

  lemma TornTableBehind(g: Geometry, data: seq<byte>, header: seq<byte>, index: seq<nat>, next: nat, img: seq<byte>, k: nat)
    requires HeaderFor(g, header, next) && 8 * |index| == IndexBytes(g) && Torn(TableWrite(data, header, index), img)
    requires DataStart(g) <= 8 * k
    ensures WordAt(img, k) == WordAt(data, k)
  {
    hide EncodeIndex, WordAt;
    Unreached(Written(data, 0, header), INDEX_START, EncodeIndex(index), k);
    Unreached(data, 0, header, k);
  }

  lemma TornTableEntry(g: Geometry, data: seq<byte>, header: seq<byte>, index: seq<nat>, next: nat, img: seq<byte>, b: nat)
    requires HeaderFor(g, header, next) && Torn(TableWrite(data, header, index), img)
    requires b < |index| && index[b] < LIMIT
    ensures IndexEntry(img, b) == IndexEntry(data, b) || IndexEntry(img, b) == index[b]
  {
    hide EncodeIndex, WordAt, FromLe, IndexEntry;
    SealedEntry(data, header, index, b);
    EntryWord(img, b);
    EntryWord(Sealed(data, header, EncodeIndex(index)), b);
    EntryWord(data, b);
    Unreached(data, 0, header, 64 + b);
  }

  /** A crash during the index write. */
  lemma TableStep(s: OpenStore, header: seq<byte>, index: seq<nat>)
    requires AllFlushed(s) && |s.offs| == |s.hist| && IndexOk(s.g, index, s.hist, s.offs) && |s.log| < LIMIT
    requires HeaderFor(s.g, header, s.next) && 8 * |index| == IndexBytes(s.g)
    ensures StepRecovers(s.g, TableWrite(s.data, header, index), s.hist, s.saved, s.next)
  {
    hide IndexOk, HeaderFor, IndexEntry, TableWrite;
    forall img | Torn(TableWrite(s.data, header, index), img) ensures Recovers(s.g, img, s.hist, s.saved, s.next) {
      TornTable(s, header, index, img);
      StoreParts(s);
      SameBehind(s.g, img, s.data, s.next);
      NewHeader(s, index, img);
    }
  }

  /** Steps that have kept the image can be recovered from. */
  lemma StepsRecover(s: OpenStore, steps: seq<FileStep>, base: nat)
    requires base <= |steps| && |s.offs| == |s.hist| && s.saved <= |s.hist|
    requires forall k :: base <= k < |steps| ==> StepKeeps(s.g, steps[k], s.hist[..s.saved], s.offs[..s.saved], s.savedNext)
    ensures forall k :: base <= k < |steps| ==> StepRecovers(s.g, steps[k], s.hist, s.saved, s.next)
  {
    RecordUnder(s, 0, Now);
    forall k | base <= k < |steps| ensures StepRecovers(s.g, steps[k], s.hist, s.saved, s.next) {
      KeptRecovers(s.g, steps[k], s.hist, s.saved, s.offs[..s.saved], s.savedNext, s.next);
    }
  }

  /** A flush endangers nothing, and neither did the writes before it. */
  lemma StepsKept(s: OpenStore, data: seq<byte>, next: nat, steps: seq<FileStep>, steps': seq<FileStep>, base: nat)
    requires Grown(s, data, next) && OneStep(steps, steps', s.data, data)
    requires base <= |steps| && |s.offs| == |s.hist| && s.saved <= |s.hist|
    requires forall k :: base <= k < |steps| ==> StepKeeps(s.g, steps[k], s.hist[..s.saved], s.offs[..s.saved], s.savedNext)
    ensures forall k :: base <= k < |steps'| ==> StepKeeps(s.g, steps'[k], s.hist[..s.saved], s.offs[..s.saved], s.savedNext)
  {
    assert Padded(data, s.savedNext) == Padded(data, s.next)[..s.savedNext];
    assert Padded(s.data, s.savedNext) == Padded(s.data, s.next)[..s.savedNext];
    AppendKeeps(s.g, FileStep(s.data, data), s.hist[..s.saved], s.offs[..s.saved], s.savedNext);
  }
}
