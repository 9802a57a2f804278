/** utils.c: an append-only log behind a write buffer, read back through a small window.
    The log is the file up to `nextOffset` followed by what the write buffer holds; it only ever grows. */
module BufferedIo {
  import opened Bytes
  import opened Files
  import opened Rounding
  import opened Widths
  import opened Windows


  /** The log: the first `next` bytes of the file, then the bytes still in the buffer. */
  function LogOf(data: seq<byte>, next: nat, buffered: seq<byte>): (r: seq<byte>)
    ensures |r| == next + |buffered|
  {
    Padded(data, next) + buffered
  }

  /** The window shows the file from `at` on, as far as `validEnd`. */
  ghost predicate WindowAgrees(window: seq<byte>, at: nat, validEnd: nat, data: seq<byte>) {
    validEnd <= |data| && forall k :: 0 <= k < |window| && at + k < validEnd ==> window[k] == data[at + k]
  }

  lemma FlushKeepsLog(data: seq<byte>, next: nat, buf: seq<byte>, used: nat, size: nat)
    requires 0 < used <= size <= |buf|
    ensures var data' := Written(data, next, buf[..size]);
      && LogOf(data, next, buf[..used]) <= LogOf(data', next + size, [])
      && Padded(data', next) == Padded(data, next)
      && |data'| >= next + size && |data'| >= |data|
  {
    var data' := Written(data, next, buf[..size]);
    var was, now := LogOf(data, next, buf[..used]), LogOf(data', next + size, []);
    forall k | 0 <= k < |was| ensures was[k] == now[k] {
      if k >= next { assert now[k] == buf[..size][k - next]; }
    }
  }

  lemma FlushKeepsWindow(window: seq<byte>, at: nat, validEnd: nat, data: seq<byte>, next: nat, bytes: seq<byte>)
    requires WindowAgrees(window, at, validEnd, data) && validEnd <= next
    ensures WindowAgrees(window, at, validEnd, Written(data, next, bytes))
  {
  }

  lemma AppendBuffered(data: seq<byte>, next: nat, buf: seq<byte>, used: nat, more: seq<byte>)
    requires used + |more| <= |buf|
    ensures var log := LogOf(data, next, buf[..used]);
      LogOf(data, next, Splice(buf, used, more)[..used + |more|]) == log + more
  {
    assert Splice(buf, used, more)[..used + |more|] == buf[..used] + more;
  }

  lemma Aligned(next: nat, used: nat, size: nat)
    requires next % 512 == 0
    ensures used % 16 == 0 && size % 16 == 0 ==> (next + used) % 16 == 0 && (used + size) % 16 == 0
  {
    var a, b, c := next / 512, used / 16, size / 16;
    if used % 16 == 0 && size % 16 == 0 {
      assert next + used == 16 * (32 * a + b);
      assert used + size == 16 * (b + c);
    }
  }

  lemma LogTail(data: seq<byte>, next: nat, buf: seq<byte>, used: nat, pos: nat, size: nat)
    requires used <= |buf| && next <= pos && pos + size <= next + used
    ensures LogOf(data, next, buf[..used])[pos..pos + size] == buf[pos - next..pos - next + size]
  {
    var log, i := LogOf(data, next, buf[..used]), pos - next;
    var l, r := log[pos..pos + size], buf[i..i + size];
    forall k | 0 <= k < size ensures l[k] == r[k] {
      assert log[pos + k] == buf[..used][i + k];
    }
  }

  lemma LogFront(data: seq<byte>, next: nat, buffered: seq<byte>, pos: nat, size: nat)
    requires pos + size <= next <= |data|
    ensures LogOf(data, next, buffered)[pos..pos + size] == data[pos..pos + size]
  {
  }

  lemma WindowServes(window: seq<byte>, at: nat, validEnd: nat, data: seq<byte>, pos: nat, size: nat)
    requires WindowAgrees(window, at, validEnd, data)
    requires at <= pos && pos - at + size <= |window| && pos + size <= validEnd
    ensures window[pos - at..pos - at + size] == data[pos..pos + size]
  {
  }

  /** A window is right for every log that agrees with it up to `validEnd` exactly if the read stays
      below `validEnd`. */
  lemma WindowRightIff(window: seq<byte>, at: nat, validEnd: nat, pos: nat, size: nat)
    requires at <= pos && pos - at + size <= |window| && 0 < size
    ensures pos + size <= validEnd <==>
      forall data: seq<byte> :: WindowAgrees(window, at, validEnd, data) && pos + size <= |data| ==>
        data[pos..pos + size] == window[pos - at..pos - at + size]
  {
    if pos + size <= validEnd {
      forall data: seq<byte> | WindowAgrees(window, at, validEnd, data) && pos + size <= |data|
        ensures data[pos..pos + size] == window[pos - at..pos - at + size]
      {
        WindowServes(window, at, validEnd, data, pos, size);
      }
    } else {
      var last := pos + size - 1;
      var data: seq<byte> := seq(pos + size, i requires 0 <= i < pos + size =>
        if i < at || i == last then 0 else window[i - at]);
      var wrong := data[last := if window[last - at] == 0 then 1 else 0];
      assert WindowAgrees(window, at, validEnd, wrong);
      assert wrong[pos..pos + size][size - 1] != window[pos - at..pos - at + size][size - 1];
    }
  }

  class BufferedIo {
    const file: ImageFile
    const readOnly: bool
    /** False for the bio_flush of the source; true for a bio_flush that also clears `read_buffer_enable`. */
    const clearsWindow: bool
    const readBuffer: array<byte>
    const buffer: array<byte>
    var readBufferPos: nat
    var readBufferEnable: bool
    var bufferPos: nat
    var nextOffset: nat
    /** End of the flushed log when the window was filled; what the window shows beyond it may be stale. */
    ghost var validEnd: nat
    /** Whether any read so far was served from beyond `validEnd`. */
    ghost var stale: bool
    /** What the memory of the window held at first, and how much of the window has been filled since. */
    ghost const memory: seq<byte>
    ghost var touched: nat
    /** Everything written so far, by offset. */
    ghost var log: seq<byte>

    ghost predicate Valid()
      reads this, file, readBuffer, buffer
    {
      && readBuffer != buffer
      && readBuffer.Length == READ_BUFFER_SIZE
      && (if readOnly then bufferPos == 0 else bufferPos <= buffer.Length == BUFFER_SIZE)
      && nextOffset % 512 == 0
      && nextOffset + bufferPos <= LIMIT
      && log == LogOf(file.data, nextOffset, buffer[..bufferPos])
      && (readBufferEnable ==>
            validEnd <= nextOffset && WindowAgrees(readBuffer[..], readBufferPos, validEnd, file.data))
      && |memory| == READ_BUFFER_SIZE && forall k :: touched <= k < READ_BUFFER_SIZE ==> readBuffer[k] == memory[k]
    }

    /** Where this object stands. */
    ghost function State(): Window
      reads this, file
    {
      if stale then Stale else Window(nextOffset, bufferPos, |file.data|, readBufferEnable, readBufferPos, validEnd, touched)
    }

    predicate Hit(pos: nat, size: nat)
      reads this
    {
      readBufferEnable && pos >= readBufferPos && pos - readBufferPos + size < READ_BUFFER_SIZE
    }

    /** The read is served by a window filled before its last byte was flushed. */
    ghost predicate StaleHit(pos: nat, size: nat)
      reads this
    {
      pos < nextOffset && Hit(pos, size) && pos + size > validEnd
    }

    /** Such a read, with nothing but zeros where the window has no business. */
    ghost predicate BlankHit(pos: nat, size: nat)
      reads this, readBuffer
      requires readBuffer.Length == READ_BUFFER_SIZE
    {
      && !stale && StaleHit(pos, size)
      && forall k :: pos - readBufferPos <= k < pos - readBufferPos + size ==> readBuffer[k] == 0
    }

    /** No flush since the window was filled. */
    ghost predicate WindowFresh()
      reads this
    {
      readBufferEnable ==> validEnd == nextOffset
    }

    /** The bytes are in the log, all of them in the file or all of them in the buffer. */
    ghost predicate Whole(pos: nat, size: nat)
      reads this, file
    {
      if pos < nextOffset then pos + size <= nextOffset <= |file.data| else pos + size <= nextOffset + bufferPos
    }

    constructor (fd: ImageFile, ro: bool, next: nat, clears: bool)
      requires next % 512 == 0 && next <= LIMIT
      ensures Valid() && fresh(readBuffer) && fresh(buffer)
      ensures file == fd && readOnly == ro && clearsWindow == clears && nextOffset == next && bufferPos == 0
      ensures !readBufferEnable && !stale && log == Padded(fd.data, next)
      ensures State() == Opened(next, |fd.data|)
    {
      file := fd;
      readOnly := ro;
      clearsWindow := clears;
      readBufferPos := 0;
      readBufferEnable := false;
      bufferPos := 0;
      nextOffset := next;
      var window := new byte[READ_BUFFER_SIZE];
      readBuffer, memory := window, window[..];
      buffer := new byte[if ro then 0 else BUFFER_SIZE];
      validEnd := 0;
      stale := false;
      log := Padded(fd.data, next);
      touched := 0;
    }

    /** bio_flush: the buffer goes to the end of the log, padded to whole sectors. The window is kept, unless
        `clearsWindow`. */
    method Flush()
      requires Valid()
      requires nextOffset + Up512(bufferPos) <= LIMIT
      modifies this`bufferPos, this`nextOffset, this`log, this`readBufferEnable, file
      ensures Valid()
      ensures bufferPos == 0
      ensures readBufferEnable == (old(readBufferEnable) && !(clearsWindow && !readOnly && old(bufferPos) > 0))
      ensures nextOffset == old(nextOffset) + Up512(old(bufferPos))
      ensures old(log) <= log
      ensures !readOnly ==> State() == AfterFlush(old(State()), clearsWindow)
      ensures OneStep(old(file.steps), file.steps, old(file.data), file.data)
      ensures readOnly ==> file.steps == old(file.steps)
      ensures old(bufferPos) == 0 ==> file.data == old(file.data)
      ensures old(bufferPos) > 0 ==> |file.data| >= nextOffset
      ensures |file.data| >= |old(file.data)|
      ensures Padded(file.data, old(nextOffset)) == Padded(old(file.data), old(nextOffset))
    {
      if readOnly {
        return;
      }
      if bufferPos != 0 {
        var size := RoundUp512(bufferPos);
        FlushSectors(size);
      }
    }

    /** The write of a non-empty buffer. */
    method FlushSectors(size: nat)
      requires Valid() && !readOnly && 0 < bufferPos <= size <= BUFFER_SIZE && size % 512 == 0
      requires nextOffset + size <= LIMIT
      modifies this`bufferPos, this`nextOffset, this`log, this`readBufferEnable, file
      ensures Valid() && bufferPos == 0 && nextOffset == old(nextOffset) + size
      ensures readBufferEnable == (old(readBufferEnable) && !clearsWindow)
      ensures |file.data| == Most(|old(file.data)|, nextOffset) && file.steps == old(file.steps) + [FileStep(old(file.data), file.data)]
      ensures old(log) <= log && |file.data| >= nextOffset && |file.data| >= |old(file.data)|
      ensures Padded(file.data, old(nextOffset)) == Padded(old(file.data), old(nextOffset))
    {
      ghost var buf := buffer[..];
      FlushKeepsLog(file.data, nextOffset, buf, bufferPos, size);
      if readBufferEnable {
        FlushKeepsWindow(readBuffer[..], readBufferPos, validEnd, file.data, nextOffset, buf[..size]);
      }
      assert buf[..bufferPos] == buffer[..bufferPos] && buf[..size] == buffer[..size];
      file.WriteAt(nextOffset, buffer[..size]);
      nextOffset := nextOffset + size;
      bufferPos := 0;
      if clearsWindow {
        readBufferEnable := false;
      }
      assert buffer[..0] == [];
      log := LogOf(file.data, nextOffset, []);
    }

    /** The copy into a buffer with enough room. */
    method Append(buf: array<byte>, size: nat) returns (off: nat)
      requires Valid() && !readOnly && buf != buffer && buf != readBuffer
      requires size <= buf.Length && bufferPos + size <= BUFFER_SIZE
      requires nextOffset + bufferPos + size <= LIMIT
      modifies this`bufferPos, this`log, buffer
      ensures Valid()
      ensures off == |old(log)| && log == old(log) + buf[..size]
      ensures old(bufferPos % 16 == 0) && size % 16 == 0 ==> off % 16 == 0 && bufferPos % 16 == 0
      ensures bufferPos == old(bufferPos) + size
    {
      hide LogOf;
      label Copy:
      ghost var data := buf[..size];
      CopyIn(buffer, bufferPos, buf[..size]);
      AppendBuffered(file.data, nextOffset, old@Copy(buffer[..]), bufferPos, data);
      Aligned(nextOffset, bufferPos, size);
      bufferPos := bufferPos + size;
      log := LogOf(file.data, nextOffset, buffer[..bufferPos]);
      assert log == old@Copy(log) + data;
      off := nextOffset + bufferPos - size;
    }

    /** bio_write: returns the offset of the `size` bytes in the log. A writable log always keeps the
        bytes of one call together, all of them in the buffer. */
    method Write(buf: array<byte>, size: nat) returns (off: nat)
      requires Valid() && buf != buffer && buf != readBuffer
      requires size <= buf.Length && size <= BUFFER_SIZE
      requires nextOffset + Up512(bufferPos) + size <= LIMIT
      modifies this`bufferPos, this`nextOffset, this`log, this`readBufferEnable, file, buffer
      ensures Valid()
      ensures readOnly ==> off == 0 && log == old(log) && nextOffset == old(nextOffset)
      ensures !readOnly ==> State() == AfterWrite(old(State()), size, clearsWindow)
      ensures OneStep(old(file.steps), file.steps, old(file.data), file.data)
      ensures !readOnly ==>
        && old(log) <= log && |old(log)| <= off && (old(bufferPos % 16 == 0) && size % 16 == 0 ==> off % 16 == 0 && bufferPos % 16 == 0)
        && nextOffset <= off && |log| == off + size
        && log[off..] == buf[..size]
        && off == if old(bufferPos) + size <= BUFFER_SIZE then |old(log)| else old(nextOffset) + Up512(old(bufferPos))
      ensures nextOffset + Up512(bufferPos) <= old(nextOffset + Up512(bufferPos)) + size + 512
      ensures (nextOffset == old(nextOffset) && file.data == old(file.data))
        || (nextOffset == old(nextOffset) + Up512(old(bufferPos)) && |file.data| >= nextOffset)
      ensures |file.data| >= |old(file.data)|
      ensures Padded(file.data, old(nextOffset)) == Padded(old(file.data), old(nextOffset))
    {
      if readOnly {
        return 0;
      }
      if bufferPos + size > BUFFER_SIZE {
        Flush();
      }
      off := Append(buf, size);
    }

    /** The window was filled from the sector that holds `pos`, and nothing has been flushed since. */
    ghost predicate Loaded(pos: nat)
      reads this, file
    {
      readBufferEnable && readBufferPos == Down512(pos) && validEnd == Least(nextOffset, |file.data|)
    }

    /** Refills the window from the sector that holds `pos`. */
    method Load(pos: nat)
      requires Valid() && pos < nextOffset
      modifies this`readBufferPos, this`readBufferEnable, this`validEnd, this`touched, readBuffer
      ensures Valid()
      ensures Loaded(pos)
      ensures !stale ==> State() == Refilled(old(State()), pos)
    {
      var p := RoundDown512(pos);
      readBufferEnable := true;
      readBufferPos := p;
      var n := file.ReadAt(p, readBuffer, READ_BUFFER_SIZE);
      validEnd := Least(nextOffset, |file.data|);
      touched := Most(touched, n);
    }

    /** `memcpy(buf, read_buffer + (pos - read_buffer_pos), size)`. */
    method CopyFromWindow(pos: nat, dst: array<byte>, at: nat, size: nat)
      requires Valid() && dst != buffer && dst != readBuffer && at + size <= dst.Length
      requires readBufferEnable && readBufferPos <= pos && pos - readBufferPos + size <= READ_BUFFER_SIZE
      modifies dst
      ensures Valid()
      ensures dst[..at] == old(dst[..at]) && dst[at + size..] == old(dst[at + size..])
      ensures dst[at..at + size] == readBuffer[..][pos - readBufferPos..pos - readBufferPos + size]
      ensures pos + size <= validEnd ==> dst[at..at + size] == file.data[pos..pos + size]
    {
      var i := pos - readBufferPos;
      if pos + size <= validEnd {
        WindowServes(readBuffer[..], readBufferPos, validEnd, file.data, pos, size);
      }
      CopyIn(dst, at, readBuffer[i..i + size]);
    }

    /** The window is made to hold `pos`, unless the test in bio_read says that it can serve the read. */
    method Cover(pos: nat, size: nat)
      requires Valid() && pos < nextOffset && size <= 4096
      modifies this`readBufferPos, this`readBufferEnable, this`validEnd, this`stale, this`touched, readBuffer
      ensures Valid()
      ensures readBufferEnable && readBufferPos <= pos && pos - readBufferPos + size <= READ_BUFFER_SIZE
      ensures State() == AfterRead(old(State()), pos, size)
      ensures stale == (old(stale) || old(StaleHit(pos, size)))
      ensures !old(StaleHit(pos, size)) && pos + size <= nextOffset <= |file.data| ==> pos + size <= validEnd
      ensures old(Hit(pos, size)) ==> readBuffer[..] == old(readBuffer[..]) && readBufferPos == old(readBufferPos)
      ensures old(WindowFresh()) && nextOffset <= |file.data| ==> WindowFresh()
      ensures !old(Hit(pos, size)) ==> Loaded(pos)
    {
      stale := stale || StaleHit(pos, size);
      if !readBufferEnable || !(pos >= readBufferPos && pos - readBufferPos + size < READ_BUFFER_SIZE) {
        Load(pos);
      }
    }

    /** The second half of bio_read: a position in the file is served through the window. */
    method ReadWindow(pos: nat, dst: array<byte>, at: nat, size: nat)
      requires Valid() && dst != buffer && dst != readBuffer
      requires at + size <= dst.Length && pos < nextOffset && size <= 4096
      modifies this`readBufferPos, this`readBufferEnable, this`validEnd, this`stale, this`touched, readBuffer, dst
      ensures Valid()
      ensures State() == AfterRead(old(State()), pos, size)
      ensures stale == (old(stale) || old(StaleHit(pos, size)))
      ensures dst[..at] == old(dst[..at]) && dst[at + size..] == old(dst[at + size..])
      ensures !old(StaleHit(pos, size)) && pos + size <= nextOffset <= |file.data|
        ==> dst[at..at + size] == file.data[pos..pos + size]
      ensures old(StaleHit(pos, size)) ==>
        dst[at..at + size] == old(readBuffer[..])[pos - old(readBufferPos)..pos - old(readBufferPos) + size]
      ensures old(WindowFresh()) && nextOffset <= |file.data| ==> WindowFresh()
      ensures !old(Hit(pos, size)) ==> Loaded(pos)
    {
      hide AfterRead, WindowAgrees, LogOf;
      Cover(pos, size);
      CopyFromWindow(pos, dst, at, size);
    }

    /** bio_read: `size` bytes of the log from `pos` on go to `dst` from `at` on. */
    method Read(pos: nat, dst: array<byte>, at: nat, size: nat)
      requires Valid() && dst != buffer && dst != readBuffer
      requires at + size <= dst.Length
      requires pos < nextOffset ==> size <= 4096
      requires pos >= nextOffset ==> pos - nextOffset + size <= buffer.Length
      modifies this`readBufferPos, this`readBufferEnable, this`validEnd, this`stale, this`touched, readBuffer, dst
      ensures Valid()
      ensures State() == AfterRead(old(State()), pos, size)
      ensures stale == (old(stale) || old(StaleHit(pos, size)))
      ensures dst[..at] == old(dst[..at]) && dst[at + size..] == old(dst[at + size..])
      ensures !old(StaleHit(pos, size)) && Whole(pos, size) ==> dst[at..at + size] == log[pos..pos + size]
      ensures old(StaleHit(pos, size)) ==>
        dst[at..at + size] == old(readBuffer[..])[pos - old(readBufferPos)..pos - old(readBufferPos) + size]
      ensures old(WindowFresh()) && (pos < nextOffset ==> nextOffset <= |file.data|) ==> WindowFresh()
      ensures pos < nextOffset && !old(Hit(pos, size)) ==> Loaded(pos)
    {
      if pos >= nextOffset {
        CopyIn(dst, at, buffer[pos - nextOffset..pos - nextOffset + size]);
        if Whole(pos, size) {
          LogTail(file.data, nextOffset, buffer[..], bufferPos, pos, size);
        }
      } else {
        ReadWindow(pos, dst, at, size);
        if Whole(pos, size) {
          LogFront(file.data, nextOffset, buffer[..bufferPos], pos, size);
        }
      }
    }
  }
}
