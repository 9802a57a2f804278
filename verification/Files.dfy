/** Files, and what a crash in the middle of a write leaves of them. */
module Files {
  import opened Bytes

  /** A write to a file: its bytes before and after. */
  datatype FileStep = FileStep(before: seq<byte>, after: seq<byte>)

  /** An open file: a growable array of bytes whose holes read as zero. */
  class ImageFile {
    var data: seq<byte>
    /** Every write so far, in the order in which they reach the disk. */
    var steps: seq<FileStep>
    /** What the file held at first. */
    ghost const origin: seq<byte>

    /** The recorded writes are all there is: they lead from the first contents to the present ones. */
    ghost predicate Valid()
      reads this
    {
      Chained(origin, steps, data)
    }

    constructor (contents: seq<byte>)
      ensures Valid() && data == contents && steps == [] && origin == contents
    {
      data := contents;
      steps := [];
      origin := contents;
    }

    /** `lseek(fd, pos); read(fd, dst, len)`: what lies past the end of the file is not touched. */
    method ReadAt(pos: nat, dst: array<byte>, len: nat) returns (n: nat)
      requires len <= dst.Length
      modifies dst
      ensures n == if pos >= |data| then 0 else if |data| - pos < len then |data| - pos else len
      ensures forall k :: 0 <= k < n ==> dst[k] == data[pos + k]
      ensures forall k :: n <= k < dst.Length ==> dst[k] == old(dst[k])
    {
      n := if pos >= |data| then 0 else if |data| - pos < len then |data| - pos else len;
      forall k | 0 <= k < n {
        dst[k] := data[pos + k];
      }
    }

    /** `lseek(fd, pos); write(fd, bytes)`. */
    method WriteAt(pos: nat, bytes: seq<byte>)
      modifies this
      ensures data == Written(old(data), pos, bytes)
      ensures steps == old(steps) + [FileStep(old(data), data)]
    {
      steps := steps + [FileStep(data, Written(data, pos, bytes))];
      data := Written(data, pos, bytes);
    }
  }

  /** At most one write, from `before` to `after`. */
  predicate OneStep(steps: seq<FileStep>, steps': seq<FileStep>, before: seq<byte>, after: seq<byte>) {
    (steps' == steps && before == after) || steps' == steps + [FileStep(before, after)]
  }

  /** Each write starts from what the one before has left, and no write shortens the file. */
  ghost predicate Chained(first: seq<byte>, steps: seq<FileStep>, last: seq<byte>) {
    if steps == [] then first == last
    else
      var s := steps[|steps| - 1];
      s.after == last && |s.before| <= |s.after| && Chained(first, steps[..|steps| - 1], s.before)
  }

  lemma ChainedOn(first: seq<byte>, steps: seq<FileStep>, steps': seq<FileStep>, before: seq<byte>, after: seq<byte>)
    requires Chained(first, steps, before) && OneStep(steps, steps', before, after) && |before| <= |after|
    ensures Chained(first, steps', after)
  {
    if steps' != steps {
      assert steps'[..|steps'| - 1] == steps;
    }
  }

  /** What the file held when it had seen `n` writes. */
  function ContentsAt(first: seq<byte>, steps: seq<FileStep>, n: nat): seq<byte>
    requires n <= |steps|
  {
    if n == 0 then first else steps[n - 1].after
  }

  /** A chain is whole at every link. */
  lemma {:induction false} ChainedAt(first: seq<byte>, steps: seq<FileStep>, last: seq<byte>, k: nat)
    requires Chained(first, steps, last) && k < |steps|
    ensures ContentsAt(first, steps, |steps|) == last
    ensures steps[k].before == ContentsAt(first, steps, k) && |steps[k].before| <= |steps[k].after|
  {
    var front, s := steps[..|steps| - 1], steps[|steps| - 1];
    if k < |front| {
      ChainedAt(first, front, s.before, k);
    } else {
      LastContents(first, front, s.before);
    }
  }

  lemma LastContents(first: seq<byte>, steps: seq<FileStep>, last: seq<byte>)
    requires Chained(first, steps, last)
    ensures ContentsAt(first, steps, |steps|) == last
  {
  }

  function Written(data: seq<byte>, pos: nat, bytes: seq<byte>): (r: seq<byte>)
    ensures bytes != [] ==> |r| == if pos + |bytes| > |data| then pos + |bytes| else |data|
    ensures forall k :: 0 <= k < |bytes| ==> r[pos + k] == bytes[k]
    ensures forall k :: 0 <= k < |r| && !(pos <= k < pos + |bytes|) ==> r[k] == if k < |data| then data[k] else 0
  {
    if bytes == [] then data
    else
      var len := if pos + |bytes| > |data| then pos + |bytes| else |data|;
      Splice(Padded(data, len), pos, bytes)
  }

  // ----- crashes -----

  /** The `k`-th eight bytes of a file. */
  function WordAt(data: seq<byte>, k: nat): (r: seq<byte>)
    ensures |r| == 8
  {
    Padded(data, 8 * k + 8)[8 * k..]
  }

  /** What a crash during a write may leave: any part of it, in units of eight aligned bytes, and any length
      in between. */
  ghost predicate Torn(s: FileStep, img: seq<byte>) {
    && |s.before| <= |img| <= |s.after|
    && forall k: nat :: WordAt(img, k) == WordAt(s.before, k) || WordAt(img, k) == WordAt(s.after, k)
  }

  /** Whatever words of a write have reached the disk: no choice of them is ruled out. */
  lemma AnyWords(s: FileStep, renewed: set<nat>) returns (img: seq<byte>)
    requires |s.before| <= |s.after|
    ensures |img| == |s.after| && Torn(s, img)
    ensures forall i :: 0 <= i < |img| ==> img[i] == if i / 8 in renewed then s.after[i] else if i < |s.before| then s.before[i] else 0
  {
    img := seq(|s.after|, i requires 0 <= i < |s.after| => if i / 8 in renewed then s.after[i] else if i < |s.before| then s.before[i] else 0);
    forall k: nat ensures WordAt(img, k) == WordAt(if k in renewed then s.after else s.before, k) {
      forall j | 0 <= j < 8 ensures WordAt(img, k)[j] == WordAt(if k in renewed then s.after else s.before, k)[j] {
        assert (8 * k + j) / 8 == k;
      }
    }
  }

  lemma WordBytes(a: seq<byte>, b: seq<byte>, k: nat, n: nat)
    requires 8 * k + 8 <= n && Padded(a, n) == Padded(b, n)
    ensures WordAt(a, k) == WordAt(b, k)
  {
    assert Padded(a, 8 * k + 8) == Padded(a, n)[..8 * k + 8];
    assert Padded(b, 8 * k + 8) == Padded(b, n)[..8 * k + 8];
  }

  /** Files with the same words have the same bytes. */
  lemma BytesOfWords(a: seq<byte>, b: seq<byte>, from: nat, n: nat)
    requires from % 8 == 0 && n % 8 == 0
    requires forall k: nat :: from <= 8 * k < n ==> WordAt(a, k) == WordAt(b, k)
    ensures forall i :: from <= i < n ==> Padded(a, n)[i] == Padded(b, n)[i]
  {
    forall i | from <= i < n ensures Padded(a, n)[i] == Padded(b, n)[i] {
      var k := i / 8;
      assert WordAt(a, k)[i - 8 * k] == WordAt(b, k)[i - 8 * k];
    }
  }

  /** A write that keeps the first `n` bytes keeps them whatever is left of it. */
  lemma TornKeeps(s: FileStep, img: seq<byte>, n: nat)
    requires Torn(s, img) && n % 8 == 0 && Padded(s.before, n) == Padded(s.after, n)
    ensures Padded(img, n) == Padded(s.before, n)
  {
    forall k: nat | 0 <= 8 * k < n ensures WordAt(img, k) == WordAt(s.before, k) {
      WordBytes(s.before, s.after, k, n);
    }
    BytesOfWords(img, s.before, 0, n);
  }
}
