/** Writable sessions with the bytes of the log left out: the history, where its records lie, and how buffer
    and window stand are determined by the requests, and so is whether a read goes stale. */
module Traces {
  import opened Bytes
  import opened Flat
  import opened Rounding
  import opened Trim
  import opened Versions
  import opened Requests
  import opened Log
  import opened Windows

  /** Lost: a read has been served by a stale window. */
  datatype Trace = Lost | Trace(hist: seq<Version>, offs: seq<nat>, window: Window)

  predicate Sound(g: Geometry, t: Trace) {
    t.Trace? ==> WellFormed(g, t.hist) && |t.offs| == |t.hist| && t.window.Window?
  }

  function Seen(hist: seq<Version>, offs: seq<nat>, w: Window): Trace {
    if w.Stale? then Lost else Trace(hist, offs, w)
  }

  // ----- one block -----

  /** A record is read as its header and then, unless it is empty, its data. */
  function RecordWindow(w: Window, off: nat, size: nat): Window {
    var h := AfterRead(w, off, HEADER);
    if size == 0 then h else AfterRead(h, off + HEADER, size)
  }

  /** read_latest_block. */
  function BlockWindow(hist: seq<Version>, offs: seq<nat>, w: Window, b: nat): Window
    requires |offs| == |hist|
  {
    var i := Newest(hist, |hist|, b, Now);
    if i < 0 then w else RecordWindow(w, offs[i], TrimSize(hist[i].data))
  }

  /** bio_write of a record. */
  function Logged(hist: seq<Version>, offs: seq<nat>, w: Window, v: Version, clears: bool): Trace
    requires w.Window?
  {
    var size := HEADER + TrimSize(v.data);
    var w' := AfterWrite(w, size, clears);
    Trace(hist + [v], offs + [w'.next + w'.buffered - size], w')
  }

  lemma LoggedIs(hist: seq<Version>, offs: seq<nat>, w: Window, w': Window, v: Version, off: nat, clears: bool)
    requires w' == AfterWrite(w, HEADER + TrimSize(v.data), clears)
    requires w'.Window? ==> off == w'.next + w'.buffered - HEADER - TrimSize(v.data)
    ensures w.Window? == w'.Window?
    ensures Seen(hist + [v], offs + [off], w') == if w.Stale? then Lost else Logged(hist, offs, w, v, clears)
  {
    hide TrimSize, Up512;
  }

  /** One round of pd_write. */
  function Patched(g: Geometry, t: Trace, ts: Time, b: nat, o: nat, data: seq<byte>, clears: bool): (r: Trace)
    requires Sound(g, t) && b < g.blocks && o * SECTOR + |data| <= g.BlockSize()
    ensures Sound(g, r)
  {
    if t.Lost? then Lost
    else
      var w := BlockWindow(t.hist, t.offs, t.window, b);
      if w.Stale? then Lost
      else
        var v := Version(b, ts, Splice(BlockOf(g, t.hist, b, Now), o * SECTOR, data));
        if Recorded(t.hist, v) == t.hist then Trace(t.hist, t.offs, w) else Logged(t.hist, t.offs, w, v, clears)
  }

  // ----- requests -----

  /** The first piece of a request. */
  function Stepped(g: Geometry, t: Trace, w: Write, clears: bool): (r: Trace)
    requires g.Valid() && Sound(g, t) && Pending(g, w)
    ensures Sound(g, r)
  {
    SectorBlock(g, w.sector, |w.data|);
    Patched(g, t, w.ts, g.BlockNo(w.sector), g.InBlock(w.sector), w.data[..FirstPiece(g, w.sector, |w.data|)], clears)
  }

  /** pd_write. */
  function Committed(g: Geometry, t: Trace, w: Write, clears: bool): (r: Trace)
    requires g.Valid() && Sound(g, t) && Fits(g, w)
    ensures Sound(g, r)
    decreases |w.data|
  {
    if w.data == [] then t else Committed(g, Stepped(g, t, w, clears), Rest(g, w), clears)
  }

  /** With the trace at `t`, the rest `w` of request `w0` leads to where `w0` leads from `t0`. */
  ghost predicate Following(g: Geometry, t0: Trace, w0: Write, t: Trace, w: Write, clears: bool) {
    && g.Valid() && Sound(g, t0) && Sound(g, t) && Fits(g, w0) && Fits(g, w)
    && Committed(g, t, w, clears) == Committed(g, t0, w0, clears)
  }

  lemma FollowingStep(g: Geometry, t0: Trace, w0: Write, t: Trace, w: Write, clears: bool)
    requires Following(g, t0, w0, t, w, clears) && w.data != []
    ensures Following(g, t0, w0, Stepped(g, t, w, clears), Rest(g, w), clears)
  {
  }

  /** The round in pd_write's own terms. */
  lemma SteppedIs(g: Geometry, t: Trace, w: Write, secs: nat, clears: bool)
    requires g.Valid() && Sound(g, t) && Pending(g, w) && |w.data| == secs * SECTOR
    ensures var b, o, n := g.BlockNo(w.sector), g.InBlock(w.sector), FirstSectors(g, w.sector, secs);
      && b < g.blocks && n * SECTOR <= |w.data| && o * SECTOR + n * SECTOR <= g.BlockSize()
      && Stepped(g, t, w, clears) == Patched(g, t, w.ts, b, o, w.data[..n * SECTOR], clears)
  {
    hide Patched;
    SectorBlock(g, w.sector, |w.data|);
  }

  /** The history of a trace is the history of its writes. */
  lemma {:induction false} CommittedHistory(g: Geometry, t: Trace, w: Write, clears: bool)
    requires g.Valid() && Sound(g, t) && Fits(g, w)
    ensures Committed(g, t, w, clears).Trace? ==> t.Trace? && Committed(g, t, w, clears).hist == Commit(g, t.hist, w)
    decreases |w.data|
  {
    if t.Lost? {
      CommittedLost(g, w, clears);
    } else if w.data != [] {
      var u := Stepped(g, t, w, clears);
      SteppedHistory(g, t, w, clears);
      CommittedHistory(g, u, Rest(g, w), clears);
    }
  }

  lemma SteppedHistory(g: Geometry, t: Trace, w: Write, clears: bool)
    requires g.Valid() && Sound(g, t) && t.Trace? && Pending(g, w)
    ensures Stepped(g, t, w, clears).Trace? ==> Stepped(g, t, w, clears).hist == Step(g, t.hist, w)
  {
    hide BlockWindow, AfterWrite, TrimSize;
  }

  lemma FollowingEnds(g: Geometry, t0: Trace, w0: Write, secs: nat, sector: nat, remain: nat, t: Trace, w: Write, clears: bool)
    requires LoopAt(g, w0, secs, sector, remain, w) && sector >= w0.sector + secs
    requires Following(g, t0, w0, t, w, clears)
    ensures t == Committed(g, t0, w0, clears)
  {
  }

  /** `n` blocks are read one after the other. */
  function StretchWindow(hist: seq<Version>, offs: seq<nat>, w: Window, first: nat, n: nat): Window
    requires |offs| == |hist|
  {
    if n == 0 then w else BlockWindow(hist, offs, StretchWindow(hist, offs, w, first, n - 1), first + n - 1)
  }

  lemma StretchNext(hist: seq<Version>, offs: seq<nat>, w: Window, first: nat, i: nat)
    requires |offs| == |hist|
    ensures StretchWindow(hist, offs, w, first, 0) == w
    ensures StretchWindow(hist, offs, w, first, i + 1) == BlockWindow(hist, offs, StretchWindow(hist, offs, w, first, i), first + i)
  {
    hide BlockWindow;
  }

  lemma {:induction false} StretchLost(hist: seq<Version>, offs: seq<nat>, w: Window, first: nat, i: nat, n: nat)
    requires |offs| == |hist| && i <= n && StretchWindow(hist, offs, w, first, i).Stale?
    ensures StretchWindow(hist, offs, w, first, n).Stale?
  {
    if i < n {
      StretchLost(hist, offs, w, first, i, n - 1);
    }
  }

  lemma {:induction false} CommittedLost(g: Geometry, w: Write, clears: bool)
    requires g.Valid() && Fits(g, w)
    ensures Committed(g, Lost, w, clears) == Lost
    decreases |w.data|
  {
    if w.data != [] {
      CommittedLost(g, Rest(g, w), clears);
    }
  }

  /** How many blocks pd_read reads. */
  function BlocksRead(g: Geometry, sec: nat, secs: nat): nat
    requires g.Valid()
  {
    if WholeBlocks(g, sec, secs) then g.BlockNo(secs) else if secs == 0 then 0 else Touched(g, sec, secs)
  }

  /** pd_read. */
  function Fetched(g: Geometry, t: Trace, sec: nat, secs: nat): (r: Trace)
    requires g.Valid() && Sound(g, t)
    ensures Sound(g, r)
  {
    if t.Lost? then Lost
    else Seen(t.hist, t.offs, StretchWindow(t.hist, t.offs, t.window, g.BlockNo(sec), BlocksRead(g, sec, secs)))
  }

  /** pd_finalize, then pd_initialize: header and index table make the file reach at least up to the records. */
  function Renewed(g: Geometry, t: Trace): (r: Trace)
    requires Sound(g, t)
    ensures Sound(g, r)
  {
    if t.Lost? then Lost
    else
      var w := AfterFlush(t.window, false);
      Trace(t.hist, t.offs, Opened(w.next, Most(w.len, DataStart(g))))
  }

  lemma RenewedIs(g: Geometry, t: Trace, w: Window, clears: bool)
    requires Sound(g, t) && t.Trace? && w == AfterFlush(t.window, clears)
    ensures w.Window? && Renewed(g, t) == Trace(t.hist, t.offs, Opened(w.next, Most(w.len, DataStart(g))))
  {
  }

  // ----- traces that are never lost -----

  /** The window has been filled since the last flush, if at all. */
  predicate Calm(w: Window) {
    w.Window? && (w.filled ==> w.end == w.next)
  }

  /** Every record lies wholly in the file or wholly in the buffer. */
  predicate Laid(g: Geometry, t: Trace) {
    && t.Trace? && Sound(g, t) && Calm(t.window)
    && forall i :: 0 <= i < |t.hist| ==> LaidAt(t.window, t.offs[i], TrimSize(t.hist[i].data))
  }

  predicate LaidAt(w: Window, off: nat, size: nat)
    requires w.Window?
  {
    && off + HEADER + size <= w.next + w.buffered
    && (off < w.next ==> off + HEADER + size <= w.next <= w.len)
  }

  /** Log, buffer and file are the same. */
  predicate SamePlace(w: Window, w': Window) {
    w.Window? && w'.Window? && w'.next == w.next && w'.buffered == w.buffered && w'.len == w.len
  }

  lemma RecordCalm(w: Window, off: nat, size: nat)
    requires Calm(w) && LaidAt(w, off, size)
    ensures Calm(RecordWindow(w, off, size)) && SamePlace(w, RecordWindow(w, off, size))
  {
    hide Down512;
  }

  lemma BlockCalm(g: Geometry, t: Trace, w: Window, b: nat)
    requires Laid(g, t) && Calm(w) && SamePlace(t.window, w)
    ensures var w' := BlockWindow(t.hist, t.offs, w, b); Calm(w') && SamePlace(t.window, w')
  {
    hide RecordWindow, TrimSize;
    var i := Newest(t.hist, |t.hist|, b, Now);
    if i >= 0 {
      RecordCalm(w, t.offs[i], TrimSize(t.hist[i].data));
    }
  }

  lemma {:induction false} StretchCalm(g: Geometry, t: Trace, first: nat, n: nat)
    requires Laid(g, t)
    ensures var w' := StretchWindow(t.hist, t.offs, t.window, first, n); Calm(w') && SamePlace(t.window, w')
  {
    hide BlockWindow, Laid;
    LaidParts(g, t);
    if n > 0 {
      StretchCalm(g, t, first, n - 1);
      BlockCalm(g, t, StretchWindow(t.hist, t.offs, t.window, first, n - 1), first + n - 1);
    }
  }

  lemma LaidParts(g: Geometry, t: Trace)
    requires Laid(g, t)
    ensures t.Trace? && Sound(g, t) && Calm(t.window)
  {
  }

  lemma LaidElsewhere(g: Geometry, t: Trace, w: Window)
    requires Laid(g, t) && Calm(w) && SamePlace(t.window, w)
    ensures Laid(g, Trace(t.hist, t.offs, w))
  {
  }

  lemma FetchedLaid(g: Geometry, t: Trace, sec: nat, secs: nat)
    requires g.Valid() && Laid(g, t)
    ensures var r := Fetched(g, t, sec, secs); Laid(g, r) && r.window.buffered == t.window.buffered
  {
    hide Laid, BlocksRead, StretchWindow;
    LaidParts(g, t);
    StretchCalm(g, t, g.BlockNo(sec), BlocksRead(g, sec, secs));
    LaidElsewhere(g, t, StretchWindow(t.hist, t.offs, t.window, g.BlockNo(sec), BlocksRead(g, sec, secs)));
  }

  /** A write that fits into the buffer, or a flush that clears the window, keeps the window calm. */
  lemma WriteCalm(w: Window, size: nat, clears: bool)
    requires Calm(w) && (clears || w.buffered + size <= BUFFER_SIZE)
    ensures var w' := AfterWrite(w, size, clears);
      && Calm(w') && w'.next + w'.buffered >= w.next + w.buffered + size && w'.buffered <= w.buffered + size
      && w'.next >= w.next && (w' == w.(buffered := w.buffered + size) || (w.next + w.buffered <= w'.next <= w'.len && w'.buffered == size))
  {
    hide Up512;
  }

  lemma LoggedLaid(g: Geometry, t: Trace, w: Window, v: Version, clears: bool)
    requires Laid(g, t) && Calm(w) && SamePlace(t.window, w) && v.block < g.blocks && |v.data| == g.BlockSize()
    requires clears || w.buffered + HEADER + TrimSize(v.data) <= BUFFER_SIZE
    ensures var r := Logged(t.hist, t.offs, w, v, clears); Laid(g, r) && r.window.buffered <= w.buffered + HEADER + TrimSize(v.data)
  {
    hide TrimSize, AfterWrite;
    WriteCalm(w, HEADER + TrimSize(v.data), clears);
    var r := Logged(t.hist, t.offs, w, v, clears);
    forall i | 0 <= i < |r.hist| ensures LaidAt(r.window, r.offs[i], TrimSize(r.hist[i].data)) {
      if i < |t.hist| { assert LaidAt(t.window, t.offs[i], TrimSize(t.hist[i].data)); }
    }
  }

  lemma PatchedLaid(g: Geometry, t: Trace, ts: Time, b: nat, o: nat, data: seq<byte>, clears: bool)
    requires g.Valid() && Laid(g, t) && b < g.blocks && o * SECTOR + |data| <= g.BlockSize()
    requires clears || t.window.buffered + HEADER + g.BlockSize() <= BUFFER_SIZE
    ensures var r := Patched(g, t, ts, b, o, data, clears);
      Laid(g, r) && r.window.buffered <= t.window.buffered + HEADER + g.BlockSize()
  {
    hide Laid, BlockWindow, TrimSize, Logged, Recorded;
    LaidParts(g, t);
    BlockCalm(g, t, t.window, b);
    var w := BlockWindow(t.hist, t.offs, t.window, b);
    LaidElsewhere(g, t, w);
    var v := Version(b, ts, Splice(BlockOf(g, t.hist, b, Now), o * SECTOR, data));
    BlockSizeAligned(g);
    TrimIsLossless(v.data);
    if Recorded(t.hist, v) != t.hist {
      LoggedLaid(g, t, w, v, clears);
    }
  }

  /** What a request may put into the buffer: a header and a whole block for every block that it touches. */
  function FillOf(g: Geometry, w: Write): nat
    requires g.Valid() && Fits(g, w)
    decreases |w.data|
  {
    if w.data == [] then 0 else HEADER + g.BlockSize() + FillOf(g, Rest(g, w))
  }

  lemma {:induction false} CommittedLaid(g: Geometry, t: Trace, w: Write, clears: bool)
    requires g.Valid() && Laid(g, t) && Fits(g, w) && (clears || t.window.buffered + FillOf(g, w) <= BUFFER_SIZE)
    ensures Sound(g, t)
    ensures var r := Committed(g, t, w, clears); Laid(g, r) && r.window.buffered <= t.window.buffered + FillOf(g, w)
    decreases |w.data|
  {
    hide Laid, Patched;
    LaidParts(g, t);
    if w.data != [] {
      SectorBlock(g, w.sector, |w.data|);
      PatchedLaid(g, t, w.ts, g.BlockNo(w.sector), g.InBlock(w.sector), w.data[..FirstPiece(g, w.sector, |w.data|)], clears);
      CommittedLaid(g, Stepped(g, t, w, clears), Rest(g, w), clears);
    }
  }

  lemma RenewedLaid(g: Geometry, t: Trace)
    requires Laid(g, t)
    ensures Sound(g, t) && Laid(g, Renewed(g, t)) && Renewed(g, t).window.buffered == 0
  {
    hide TrimSize, DataStart;
    var r := Renewed(g, t);
    forall i | 0 <= i < |r.hist| ensures LaidAt(r.window, r.offs[i], TrimSize(r.hist[i].data)) {
      assert LaidAt(t.window, t.offs[i], TrimSize(t.hist[i].data));
    }
  }
}
