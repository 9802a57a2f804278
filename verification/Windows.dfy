/** How the write buffer and the read window of utils.c stand, without the bytes: enough to say which read is
    served by a stale window. */
module Windows {
  import opened Rounding

  const READ_BUFFER_SIZE := 8192
  const BUFFER_SIZE := (4096 / 32 + 1) * 4096

  /** `next`, `buffered`: the fields next_offset and buffer_pos. `len`: the length of the file. `filled`, `at`:
      read_buffer_enable and read_buffer_pos. `end`: where the flushed log ended when the window was filled.
      `touched`: how much of the window has ever been filled. Stale: a read has gone past `end`. */
  datatype Window = Stale | Window(next: nat, buffered: nat, len: nat, filled: bool, at: nat, end: nat, touched: nat)

  /** bio_init. */
  function Opened(next: nat, len: nat): Window {
    Window(next, 0, len, false, 0, 0, 0)
  }

  function Least(a: nat, b: nat): nat { if a < b then a else b }

  function Most(a: nat, b: nat): nat { if a < b then b else a }

  /** The test in bio_read: the window can serve the read. */
  predicate Hits(w: Window, pos: nat, size: nat)
    requires w.Window?
  {
    w.filled && pos >= w.at && pos - w.at + size < READ_BUFFER_SIZE
  }

  /** read() into the window from the sector that holds `pos`. */
  function Refilled(w: Window, pos: nat): Window
    requires w.Window?
  {
    var p := Down512(pos);
    w.(filled := true, at := p, end := Least(w.next, w.len),
       touched := Most(w.touched, if p < w.len then Least(w.len - p, READ_BUFFER_SIZE) else 0))
  }

  /** bio_read. */
  function AfterRead(w: Window, pos: nat, size: nat): Window {
    if w.Stale? || pos >= w.next then w
    else if Hits(w, pos, size) then (if pos + size > w.end then Stale else w)
    else Refilled(w, pos)
  }

  /** bio_flush; `clears` if it also clears read_buffer_enable. */
  function AfterFlush(w: Window, clears: bool): Window {
    if w.Stale? || w.buffered == 0 then w
    else
      var next := w.next + Up512(w.buffered);
      w.(next := next, buffered := 0, len := Most(w.len, next), filled := w.filled && !clears)
  }

  /** bio_write. */
  function AfterWrite(w: Window, size: nat, clears: bool): Window {
    if w.Stale? then w
    else
      var f := if w.buffered + size > BUFFER_SIZE then AfterFlush(w, clears) else w;
      f.(buffered := f.buffered + size)
  }

  /** A read that would end with the window is not served by it; one byte less is. */
  lemma WindowEdge(w: Window, pos: nat)
    requires w.Window? && w.filled && w.at <= pos && pos + 32 <= w.next == w.end
    ensures pos == w.at + 8160 ==> AfterRead(w, pos, 32) == Refilled(w, pos)
    ensures pos == w.at + 8159 ==> AfterRead(w, pos, 32) == w
  {
    hide Refilled;
  }

  /** The buffer takes 528384 bytes, and is flushed when they would be exceeded. */
  lemma BufferEdge(w: Window, size: nat)
    requires w.Window? && size <= 528384
    ensures w.buffered + size == 528384 ==> AfterWrite(w, size, false) == w.(buffered := 528384)
    ensures w.buffered > 0 && w.buffered + size == 528385 ==>
      AfterWrite(w, size, false).buffered == size && AfterWrite(w, size, false).next == w.next + Up512(w.buffered)
  {
    hide Up512;
  }
}
