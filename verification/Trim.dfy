/** Zero trimming of blocks: `get_actual_data_size` of preservation.c and the zero-extension that undoes it. */
module Trim {
  import opened Bytes

  /** Length of `s` without its trailing zero bytes. */
  function TrimLen(s: seq<byte>): (r: nat)
    ensures r <= |s| && IsZero(s[r..])
    ensures r > 0 ==> s[r - 1] != 0
  {
    if s == [] then 0
    else if s[|s| - 1] != 0 then |s|
    else
      var r := TrimLen(s[..|s| - 1]);
      assert s[r..] == s[..|s| - 1][r..] + [0];
      r
  }

  /** The next multiple of 16. */
  function Up16(n: nat): nat {
    if n == 0 then 0 else if n <= 16 then 16 else 16 + Up16(n - 16)
  }

  lemma {:induction false} Up16Is(n: nat)
    ensures Up16(n) % 16 == 0 && n <= Up16(n) < n + 16
    ensures Up16(n) == if n % 16 == 0 then n else n + (16 - n % 16)
  {
    if n > 16 {
      Up16Is(n - 16);
    }
  }

  /** TrimLen brought up to the next multiple of 16. */
  function TrimSize(s: seq<byte>): nat {
    Up16(TrimLen(s))
  }

  /** The least multiple of 16 beyond which every byte is zero. */
  lemma TrimIsLeast(s: seq<byte>, m: nat)
    requires |s| % 16 == 0
    ensures TrimSize(s) % 16 == 0 && TrimSize(s) <= |s| && IsZero(s[TrimSize(s)..])
    ensures m % 16 == 0 && m <= |s| && IsZero(s[m..]) ==> TrimSize(s) <= m
    ensures TrimSize(s) == 0 <==> IsZero(s)
  {
    hide TrimLen, Up16;
    var r := TrimLen(s);
    Up16Is(r);
    assert IsZero(s[TrimSize(s)..]) by {
      forall i | 0 <= i < |s| - TrimSize(s) ensures s[TrimSize(s)..][i] == 0 {
        assert s[TrimSize(s)..][i] == s[r..][TrimSize(s) - r + i];
      }
    }
    if m < r {
      assert s[m..][r - 1 - m] == s[r - 1];
    }
    assert s == s[0..];
    if r > 0 { assert s[r - 1] != 0; }
  }

  /** Zero-extending the trimmed block restores it. */
  lemma TrimIsLossless(s: seq<byte>)
    requires |s| % 16 == 0
    ensures TrimSize(s) <= |s| && Padded(s[..TrimSize(s)], |s|) == s
    ensures s[..TrimSize(s)] + Zeros(|s| - TrimSize(s)) == s
  {
    TrimIsLeast(s, 0);
    var n := TrimSize(s);
    forall i | 0 <= i < |s| ensures Padded(s[..n], |s|)[i] == s[i] {
      if i >= n { assert s[i] == s[n..][i - n]; }
    }
  }

  /** get_actual_data_size: the block lies in `buf` from `base` on. */
  method GetActualDataSize(buf: array<byte>, base: nat, blockSize: nat) returns (result: nat)
    requires base + blockSize <= buf.Length && blockSize % 16 == 0
    ensures result == TrimSize(buf[base..base + blockSize])
  {
    ghost var s := buf[base..base + blockSize];
    assert s[..blockSize] == s;
    result := blockSize;
    var i := 0;
    while i < blockSize
      invariant 0 <= i <= blockSize && result == blockSize - i
      invariant TrimLen(s) == TrimLen(s[..result])
    {
      assert s[result - 1] == buf[base + result - 1];
      if buf[base + result - 1] != 0 {
        assert TrimLen(s) == result;
        Up16Is(result);
        if result % 16 != 0 {
          result := result + (16 - result % 16);
        }
        return;
      }
      assert s[..result][..result - 1] == s[..result - 1];
      result := result - 1;
      i := i + 1;
    }
    assert s[..0] == [];
    return 0;
  }
}
