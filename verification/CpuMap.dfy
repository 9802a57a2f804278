/** print_bitmap and the argument parser of vcpupin in xl_cmdimpl.c: CPU maps as text and back. */
module CpuMap {
  import opened Bits
  import opened Numbers

  // ----- runs of set bits -----

  datatype Run = Run(first: nat, last: nat)

  /** Closed runs among the first `i` bits, and where a run is still open (-1: nowhere). */
  datatype Scan = Scan(runs: seq<Run>, open: int)

  /** One more bit, bit `i`. */
  function ScanBit(s: Scan, i: nat, bit: bool): Scan
    requires -1 <= s.open < i
  {
    if bit then (if s.open < 0 then Scan(s.runs, i) else s)
    else if s.open >= 0 then Scan(s.runs + [Run(s.open, i - 1)], -1)
    else s
  }

  function ScanBits(bits: seq<bool>, i: nat): (r: Scan)
    requires i <= |bits|
    ensures -1 <= r.open < i
  {
    if i == 0 then Scan([], -1) else ScanBit(ScanBits(bits, i - 1), i - 1, bits[i - 1])
  }

  function Runs(bits: seq<bool>): seq<Run> {
    var s := ScanBits(bits, |bits|);
    if s.open >= 0 then s.runs + [Run(s.open, |bits| - 1)] else s.runs
  }

  /** `k` lies in one of the runs. */
  ghost predicate Covered(runs: seq<Run>, k: nat) {
    exists j :: 0 <= j < |runs| && runs[j].first <= k <= runs[j].last
  }

  /** Increasing runs with at least one clear bit between any two. */
  ghost predicate Separated(runs: seq<Run>, end: int) {
    && (forall j :: 0 <= j < |runs| ==> runs[j].first <= runs[j].last < end)
    && (forall i, j :: 0 <= i < j < |runs| ==> runs[i].last + 1 < runs[j].first)
  }

  lemma CoveredByMore(runs: seq<Run>, r: Run, k: nat)
    ensures Covered(runs + [r], k) <==> Covered(runs, k) || r.first <= k <= r.last
  {
    var all := runs + [r];
    if Covered(runs, k) {
      var j :| 0 <= j < |runs| && runs[j].first <= k <= runs[j].last;
      assert all[j] == runs[j];
    }
    if r.first <= k <= r.last {
      assert all[|runs|] == r;
    }
    if Covered(all, k) {
      var j :| 0 <= j < |all| && all[j].first <= k <= all[j].last;
      if j < |runs| { assert runs[j] == all[j]; }
    }
  }

  /** The shape of the runs closed so far, and of the open one. */
  ghost predicate ScanShape(bits: seq<bool>, i: nat, s: Scan)
    requires i <= |bits|
  {
    && -1 <= s.open < i
    && Separated(s.runs, if s.open < 0 then i else s.open)
    && (s.open < 0 && i > 0 ==> !bits[i - 1])
    && (s.runs != [] && s.open < 0 ==> s.runs[|s.runs| - 1].last < i - 1)
    && (s.runs != [] && s.open >= 0 ==> s.runs[|s.runs| - 1].last + 1 < s.open)
  }

  lemma {:induction false} ScanHasShape(bits: seq<bool>, i: nat)
    requires i <= |bits|
    ensures ScanShape(bits, i, ScanBits(bits, i))
  {
    if i > 0 {
      ScanHasShape(bits, i - 1);
      var s := ScanBits(bits, i - 1);
      if !bits[i - 1] && s.open >= 0 {
        OneMoreRun(s.runs, Run(s.open, i - 2), i);
      }
    }
  }

  lemma OneMoreRun(runs: seq<Run>, r: Run, end: int)
    requires Separated(runs, r.first) && r.first <= r.last < end
    requires runs != [] ==> runs[|runs| - 1].last + 1 < r.first
    ensures Separated(runs + [r], end)
  {
  }

  lemma {:induction false} ScanCovers(bits: seq<bool>, i: nat, k: nat)
    requires k < i <= |bits|
    ensures var s := ScanBits(bits, i);
      bits[k] <==> Covered(s.runs, k) || 0 <= s.open <= k
  {
    var p := ScanBits(bits, i - 1);
    ScanHasShape(bits, i - 1);
    if k < i - 1 {
      ScanCovers(bits, i - 1, k);
    } else {
      NotCoveredBeyond(p.runs, if p.open < 0 then i - 1 else p.open, k);
    }
    if !bits[i - 1] && p.open >= 0 {
      CoveredByMore(p.runs, Run(p.open, i - 2), k);
    }
  }

  lemma NotCoveredBeyond(runs: seq<Run>, end: int, k: nat)
    requires Separated(runs, end) && k >= end
    ensures !Covered(runs, k)
  {
  }

  /** The printed runs cover exactly the set bits; they are in increasing order, disjoint and maximal. */
  lemma RunsAre(bits: seq<bool>)
    ensures Separated(Runs(bits), |bits|)
    ensures forall k :: 0 <= k < |bits| ==> (bits[k] <==> Covered(Runs(bits), k))
    ensures forall k: nat :: Covered(Runs(bits), k) ==> k < |bits|
  {
    hide Covered, ScanBits;
    var n, s := |bits|, ScanBits(bits, |bits|);
    ScanHasShape(bits, n);
    forall k | 0 <= k < n ensures bits[k] <==> Covered(Runs(bits), k) {
      ScanCovers(bits, n, k);
      if s.open >= 0 { CoveredByMore(s.runs, Run(s.open, n - 1), k); }
    }
    forall k: nat | Covered(Runs(bits), k) ensures k < n {
      if k >= n { NotCoveredBeyond(Runs(bits), n, k); }
    }
  }

  // ----- printing -----

  /** `%d` or `%d-%d`. */
  function RunText(r: Run): string {
    if r.last > r.first then Decimal(r.first) + "-" + Decimal(r.last) else Decimal(r.first)
  }

  /** The runs, with commas between them. */
  function RunsText(runs: seq<Run>): string {
    if runs == [] then ""
    else RunsText(runs[..|runs| - 1]) + (if |runs| > 1 then "," else "") + RunText(runs[|runs| - 1])
  }

  function BitsOf(cpus: seq<bv8>, n: nat): (r: seq<bool>)
    requires n <= 8 * |cpus|
    ensures |r| == n
  {
    seq(n, i requires 0 <= i < n => Bit(cpus, i))
  }

  predicate NoneSet(bits: seq<bool>) { forall i :: 0 <= i < |bits| ==> !bits[i] }

  predicate AllSet(bits: seq<bool>) { forall i :: 0 <= i < |bits| ==> bits[i] }

  /** What print_bitmap prints. */
  function Printed(bits: seq<bool>): string {
    if NoneSet(bits) then "none" else if AllSet(bits) then "any cpu" else RunsText(Runs(bits))
  }

  /** The switch variable of print_bitmap. */
  function StateOf(s: Scan): nat {
    (if s.runs == [] then 0 else 2) + (if s.open >= 0 then 1 else 0)
  }

  /** What the two fprintf calls that end a run print. */
  function Piece(state: nat, firstset: nat, last: nat): string {
    (if state > 1 then "," else "") + RunText(Run(firstset, last))
  }

  /** The variables of print_bitmap behind the bits that `s` has seen. */
  ghost predicate Prints(s: Scan, state: nat, firstset: nat, stream: string) {
    state == StateOf(s) && stream == RunsText(s.runs) && (s.open >= 0 ==> firstset == s.open)
  }

  lemma PrintStep(s: Scan, i: nat, bit: bool, state: nat, firstset: nat, stream: string)
    requires -1 <= s.open < i && Prints(s, state, firstset, stream)
    ensures state <= 3 && (s.open >= 0 <==> state == 1 || state == 3)
    ensures s.open < 0 && bit ==> Prints(ScanBit(s, i, bit), state + 1, i, stream)
    ensures (s.open >= 0) == bit ==> ScanBit(s, i, bit) == s
    ensures s.open >= 0 && !bit ==> Prints(ScanBit(s, i, bit), 2, firstset, stream + Piece(state, firstset, i - 1))
  {
    if s.open >= 0 && !bit {
      RunsTextGrows(s.runs, Run(s.open, i - 1));
    }
  }

  /** The runs with the one that is still open. */
  lemma RunsAtEnd(s: Scan, last: nat)
    requires s.open >= -1
    ensures s.open >= 0 ==> RunsText(s.runs + [Run(s.open, last)]) == RunsText(s.runs) + Piece(StateOf(s), s.open, last)
  {
    hide RunsText, Piece;
    if s.open >= 0 {
      RunsTextGrows(s.runs, Run(s.open, last));
    }
  }

  lemma PrintEnd(bits: seq<bool>, state: nat, firstset: nat, stream: string, piece: string)
    requires Prints(ScanBits(bits, |bits|), state, firstset, stream)
    requires state == 1 || state == 3 ==> |bits| > 0 && piece == Piece(state, firstset, |bits| - 1)
    ensures Printed(bits) ==
      if state == 0 then "none" else if state == 1 && firstset == 0 then "any cpu"
      else if state == 2 then stream else stream + piece
  {
    hide ScanBits, RunsText, Piece, AllSet;
    PrintedBy(bits);
    if bits != [] { RunsAtEnd(ScanBits(bits, |bits|), |bits| - 1); }
  }

  /** The bit that pmap and bitmask select. */
  ghost predicate Selects(cpus: seq<bv8>, i: nat, pmap: bv8, bitmask: bv8)
    requires i / 8 < |cpus|
  {
    pmap == cpus[i / 8] && bitmask == Mask(i % 8)
  }

  lemma NextInByte(i: nat)
    requires i % 8 != 0
    ensures (i - 1) / 8 == i / 8 && (i - 1) % 8 == i % 8 - 1
  {
  }

  method PrintBitmap(cpus: array<bv8>, maplen: nat) returns (stream: string)
    requires maplen <= 8 * cpus.Length
    ensures stream == Printed(BitsOf(cpus[..], maplen))
  {
    ghost var bits := BitsOf(cpus[..], maplen);
    stream := "";
    var pmap: bv8, bitmask: bv8 := 0, 0;
    var firstset: nat, state: nat := 0, 0;
    var i: nat := 0;
    while i < maplen
      invariant i <= maplen && (i > 0 ==> Selects(cpus[..], i - 1, pmap, bitmask))
      invariant Prints(ScanBits(bits, i), state, firstset, stream)
    {
      pmap, bitmask := Advance(cpus, i, pmap, bitmask);
      assert bits[i] == (pmap & bitmask != 0);
      state, firstset, stream := Switch(ScanBits(bits, i), i, pmap, bitmask, state, firstset, stream);
      i := i + 1;
    }
    stream := Close(bits, i, state, firstset, stream);
  }

  /** The switch in the loop body. */
  method Switch(ghost s: Scan, i: nat, pmap: bv8, bitmask: bv8, state: nat, firstset: nat, stream: string)
    returns (state': nat, firstset': nat, stream': string)
    requires -1 <= s.open < i && Prints(s, state, firstset, stream)
    ensures Prints(ScanBit(s, i, pmap & bitmask != 0), state', firstset', stream')
  {
    state', firstset', stream' := state, firstset, stream;
    PrintStep(s, i, pmap & bitmask != 0, state, firstset, stream);
    if state == 0 || state == 2 {
      if pmap & bitmask != 0 {
        firstset', state' := i, state + 1;
      }
    } else if pmap & bitmask == 0 {
      stream', state' := stream + Piece(state, firstset, i - 1), 2;
    }
  }

  /** The switch behind the loop. */
  method Close(ghost bits: seq<bool>, i: nat, state: nat, firstset: nat, stream: string) returns (stream': string)
    requires i == |bits| && Prints(ScanBits(bits, i), state, firstset, stream)
    ensures stream' == Printed(bits)
  {
    stream' := stream;
    PrintEnd(bits, state, firstset, stream, Piece(state, firstset, if i > 0 then i - 1 else 0));
    if state == 0 {
      stream' := stream + "none";
    } else if state == 1 && firstset == 0 {
      stream' := stream + "any cpu";
    } else if state == 1 || state == 3 {
      stream' := stream + Piece(state, firstset, i - 1);
    }
  }

  /** The start of the loop body: the next byte every eight bits, the mask shifted otherwise. */
  method Advance(cpus: array<bv8>, i: nat, pmap: bv8, bitmask: bv8) returns (pmap': bv8, bitmask': bv8)
    requires i / 8 < cpus.Length && (i > 0 ==> Selects(cpus[..], i - 1, pmap, bitmask))
    ensures Selects(cpus[..], i, pmap', bitmask')
  {
    if i % 8 == 0 {
      pmap', bitmask' := cpus[i / 8], 1;
    } else {
      NextInByte(i);
      MaskShifts(i % 8 - 1);
      pmap', bitmask' := pmap, bitmask << 1;
    }
  }

  lemma RunsTextGrows(runs: seq<Run>, r: Run)
    ensures RunsText(runs + [r]) == RunsText(runs) + Piece(if runs == [] then 1 else 3, r.first, r.last)
  {
    hide RunText;
    var all, text := runs + [r], RunText(r);
    assert all[..|runs|] == runs;
    var before, comma := RunsText(runs), if runs == [] then "" else ",";
    assert RunsText(all) == before + comma + text;
    assert before + comma + text == before + (comma + text);
  }

  /** The final state tells the two special cases apart. */
  lemma PrintedBy(bits: seq<bool>)
    ensures var s := ScanBits(bits, |bits|);
      && (StateOf(s) == 0 <==> NoneSet(bits))
      && (s.runs == [] && s.open == 0 <==> AllSet(bits) && bits != [])
  {
    var n, s := |bits|, ScanBits(bits, |bits|);
    ScanHasShape(bits, n);
    forall k | 0 <= k < n ensures bits[k] <==> Covered(s.runs, k) || 0 <= s.open <= k {
      ScanCovers(bits, n, k);
    }
    if s.runs != [] {
      var r := s.runs[|s.runs| - 1];
      assert Covered(s.runs, r.first);
      assert bits[r.first];
      NotCoveredBeyond(s.runs, r.last + 1, r.last + 1);
      assert !bits[r.last + 1];
    } else if s.open > 0 {
      assert !bits[0];
      assert bits[s.open];
    } else if s.open == 0 && n > 0 {
      assert bits[0];
    }
  }

  // ----- the text -----

  /** The two words. */
  lemma PrintsWords(bits: seq<bool>)
    ensures (forall k :: 0 <= k < |bits| ==> !bits[k]) ==> Printed(bits) == "none"
    ensures bits != [] && (forall k :: 0 <= k < |bits| ==> bits[k]) ==> Printed(bits) == "any cpu"
  {
    if bits != [] && AllSet(bits) { assert bits[0]; }
  }

  /** Where the last run lies, in terms of what is covered. */
  lemma LastRunIs(runs: seq<Run>, end: int)
    requires Separated(runs, end) && runs != []
    ensures var r := runs[|runs| - 1];
      && (forall k: nat :: r.first <= k <= r.last ==> Covered(runs, k))
      && (forall k: nat :: k > r.last || k + 1 == r.first ==> !Covered(runs, k))
      && (forall k: nat :: k < r.first ==> (Covered(runs, k) <==> Covered(runs[..|runs| - 1], k)))
  {
    var front, r := runs[..|runs| - 1], runs[|runs| - 1];
    forall k: nat ensures Covered(runs, k) <==> Covered(front, k) || r.first <= k <= r.last {
      assert front + [r] == runs;
      CoveredByMore(front, r, k);
    }
    forall k: nat | k > r.last || k + 1 == r.first ensures !Covered(front, k) {
      forall j | 0 <= j < |front| ensures !(front[j].first <= k <= front[j].last) { assert front[j] == runs[j]; }
    }
  }

  /** Separated runs are determined by what they cover. */
  lemma {:induction false} RunsUnique(a: seq<Run>, b: seq<Run>, end: int)
    requires Separated(a, end) && Separated(b, end) && forall k: nat :: Covered(a, k) <==> Covered(b, k)
    ensures a == b
    decreases |a|
  {
    hide Covered, Separated;
    if a == [] || b == [] {
      EmptyCovers(a, end);
      EmptyCovers(b, end);
    } else {
      LastRunIs(a, end);
      LastRunIs(b, end);
      SameLast(a, b, end);
      var p, q := a[..|a| - 1], b[..|b| - 1];
      FrontSeparated(a, end);
      FrontSeparated(b, end);
      forall k: nat ensures Covered(p, k) <==> Covered(q, k) {
        if k < a[|a| - 1].first { assert Covered(a, k) <==> Covered(b, k); }
      }
      RunsUnique(p, q, a[|a| - 1].first);
    }
  }

  lemma EmptyCovers(runs: seq<Run>, end: int)
    requires Separated(runs, end)
    ensures runs == [] <==> forall k: nat :: !Covered(runs, k)
  {
    if runs != [] { assert Covered(runs, runs[0].first); }
  }

  lemma SameLast(a: seq<Run>, b: seq<Run>, end: int)
    requires Separated(a, end) && Separated(b, end) && a != [] && b != []
    requires forall k: nat :: Covered(a, k) <==> Covered(b, k)
    ensures a[|a| - 1] == b[|b| - 1]
  {
    hide Covered;
    LastRunIs(a, end);
    LastRunIs(b, end);
    var r, q := a[|a| - 1], b[|b| - 1];
    assert Covered(a, r.last) && Covered(b, q.last);
    assert Covered(a, r.first) && Covered(b, q.first);
    if q.first > 0 { assert !Covered(b, q.first - 1) && !Covered(a, q.first - 1); }
    if r.first > 0 { assert !Covered(a, r.first - 1) && !Covered(b, r.first - 1); }
  }

  lemma FrontSeparated(runs: seq<Run>, end: int)
    requires Separated(runs, end) && runs != []
    ensures var front, first := runs[..|runs| - 1], runs[|runs| - 1].first;
      Separated(front, first) && forall k: nat :: Covered(front, k) ==> k < first
  {
    var front := runs[..|runs| - 1];
    forall j | 0 <= j < |front| ensures front[j].last + 1 < runs[|runs| - 1].first { assert front[j] == runs[j]; }
  }

  /** A bitmap whose set bits are those of one run or of two, with clear bits around, is printed as these, a lone CPU as
      its number. */
  lemma PrintsRuns(bits: seq<bool>, runs: seq<Run>)
    requires Separated(runs, |bits|) && runs != [] && exists k :: 0 <= k < |bits| && !bits[k]
    requires forall k: nat :: Covered(runs, k) <==> k < |bits| && bits[k]
    ensures |runs| == 1 ==>
      Printed(bits) == if runs[0].last == runs[0].first then Decimal(runs[0].first) else Decimal(runs[0].first) + "-" + Decimal(runs[0].last)
    ensures Printed(bits) == (if |runs| == 1 then "" else RunsText(runs[..|runs| - 1]) + ",") + RunText(runs[|runs| - 1])
  {
    hide Covered;
    RunsAre(bits);
    RunsUnique(Runs(bits), runs, |bits|);
    EmptyCovers(runs, |bits|);
    if |runs| == 1 { assert runs[..0] == [] && RunsText(runs) == RunText(runs[0]); }
  }

  /** Two runs and a lone CPU. */
  lemma PrintsLike(bits: seq<bool>)
    requires bits == [false, true, true, false, true, false]
    ensures Printed(bits) == "1-2,4"
  {
    hide ScanBits, Printed, RunsText, RunText;
    var runs := [Run(1, 2), Run(4, 4)];
    assert runs[0] == Run(1, 2) && runs[1] == Run(4, 4);
    forall k: nat ensures Covered(runs, k) <==> k < |bits| && bits[k] {
      if k == 1 || k == 2 { assert runs[0].first <= k <= runs[0].last; }
      if k == 4 { assert runs[1].first <= k <= runs[1].last; }
    }
    assert !bits[0];
    PrintsRuns(bits, runs);
    SmallText(runs);
  }

  lemma SmallText(runs: seq<Run>)
    requires runs == [Run(1, 2), Run(4, 4)]
    ensures RunsText(runs[..1]) + "," + RunText(runs[1]) == "1-2,4"
  {
    assert runs[..1] == [Run(1, 2)] && runs[..1][..0] == [];
    assert Decimal(1) == "1" && Decimal(2) == "2" && Decimal(4) == "4";
  }
}
