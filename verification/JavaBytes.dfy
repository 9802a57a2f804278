/** The byte-accumulating loops of the Java tools, with the widths of `long`, `int` and `BigDecimal`. */
module JavaBytes {
  import opened Bytes
  import opened Widths

  /** The `long` that holds `x` modulo 2^64. */
  function Wrap64(x: int): (r: int)
    ensures -TWO63 <= r < TWO63
    ensures 0 <= x < TWO63 ==> r == x
  {
    var m := x % TWO64;
    if m >= TWO63 then m - TWO64 else m
  }

  /** Wrapping early or late makes no difference. */
  lemma WrapStep(x: int, b: int)
    ensures Wrap64(Wrap64(x) * 256 + b) == Wrap64(x * 256 + b)
  {
    var k := (x - Wrap64(x)) / TWO64;
    assert x == Wrap64(x) + k * TWO64;
    Periodic(Wrap64(x) * 256 + b, 256 * k);
  }

  lemma Periodic(x: int, k: int)
    ensures Wrap64(x + k * TWO64) == Wrap64(x)
  {
    assert (x + k * TWO64) % TWO64 == x % TWO64;
  }

  /** The `int` that holds `x` modulo 2^32. */
  function Wrap32(x: int): (r: int)
    ensures -0x8000_0000 <= r < 0x8000_0000
    ensures 0 <= x < 0x8000_0000 ==> r == x
  {
    var m := x % TWO32;
    if m >= 0x8000_0000 then m - TWO32 else m
  }

  lemma WrapStep32(x: int, b: int)
    ensures Wrap32(Wrap32(x) * 256 + b) == Wrap32(x * 256 + b)
  {
    var k := (x - Wrap32(x)) / TWO32;
    assert x == Wrap32(x) + k * TWO32;
    Periodic32(Wrap32(x) * 256 + b, 256 * k);
  }

  lemma Periodic32(x: int, k: int)
    ensures Wrap32(x + k * TWO32) == Wrap32(x)
  {
    assert (x + k * TWO32) % TWO32 == x % TWO32;
  }

  /** `for (i = from + n - 1; i >= from; i--) s = (s << 8) + (in[i] & 0xff)` on an `int`. */
  method DecodeInt(bytes: array<byte>, from: nat, n: nat) returns (s: int)
    requires from + n <= bytes.Length
    ensures s == Wrap32(FromLe(bytes[from..from + n]))
  {
    s := 0;
    var i := from + n - 1;
    while i >= from
      invariant from - 1 <= i <= from + n - 1
      invariant s == Wrap32(FromLe(bytes[i + 1..from + n]))
    {
      assert bytes[i..from + n][1..] == bytes[i + 1..from + n];
      WrapStep32(FromLe(bytes[i + 1..from + n]), bytes[i]);
      s := Wrap32(s * 256 + bytes[i]);
      i := i - 1;
    }
  }

  /** The same loop on a `long`. */
  method DecodeLong(bytes: array<byte>, from: nat, n: nat) returns (s: int)
    requires from + n <= bytes.Length
    ensures s == Wrap64(FromLe(bytes[from..from + n]))
  {
    s := 0;
    var i := from + n - 1;
    while i >= from
      invariant from - 1 <= i <= from + n - 1
      invariant s == Wrap64(FromLe(bytes[i + 1..from + n]))
    {
      assert bytes[i..from + n][1..] == bytes[i + 1..from + n];
      WrapStep(FromLe(bytes[i + 1..from + n]), bytes[i]);
      s := Wrap64(s * 256 + bytes[i]);
      i := i - 1;
    }
  }

  /** The same loop on a `BigDecimal`. */
  method DecodeBig(bytes: array<byte>, from: nat, n: nat) returns (s: nat)
    requires from + n <= bytes.Length
    ensures s == FromLe(bytes[from..from + n])
  {
    s := 0;
    var i := from + n - 1;
    while i >= from
      invariant from - 1 <= i <= from + n - 1
      invariant s == FromLe(bytes[i + 1..from + n])
    {
      assert bytes[i..from + n][1..] == bytes[i + 1..from + n];
      s := s * 256 + bytes[i];
      i := i - 1;
    }
  }

  /** `Arrays.copyOfRange(in, 0, n)`: a longer copy is filled up with zeros. */
  function CopyOfRange(s: seq<byte>, n: nat): (r: seq<byte>)
    ensures |r| == n
  {
    Padded(s, n)
  }
}
