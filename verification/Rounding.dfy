/** `round_down` and `round_up` of utils.c: rounding by masking, on 64-bit numbers. */
module Rounding {
  import opened Widths

  function Pow2(k: nat): (p: nat)
    ensures p > 0
  {
    if k == 0 then 1 else 2 * Pow2(k - 1)
  }

  /** Bitwise and of two numbers, bit by bit. */
  function And(a: nat, b: nat): nat
    decreases a
  {
    if a == 0 then 0 else 2 * And(a / 2, b / 2) + (a % 2) * (b % 2)
  }

  /** `n & ~(unit - 1)` on uint64_t. */
  function MaskDown(n: nat, unit: nat): nat
    requires n < TWO64 && 0 < unit <= TWO64
  {
    And(n, TWO64 - 1 - (unit - 1))
  }

  /** `(n + unit - 1) & ~(unit - 1)` on uint64_t: the sum wraps around. */
  function MaskUp(n: nat, unit: nat): nat
    requires n < TWO64 && 0 < unit <= TWO64
  {
    MaskDown((n + unit - 1) % TWO64, unit)
  }

  lemma {:induction false} AndOnes(n: nat, w: nat)
    requires n < Pow2(w)
    ensures And(n, Pow2(w) - 1) == n
  {
    if w > 0 && n > 0 {
      var p := Pow2(w - 1);
      AndOnes(n / 2, w - 1);
      HalfOnes(p);
      assert And(n, Pow2(w) - 1) == 2 * And(n / 2, p - 1) + n % 2;
    }
  }

  lemma HalfOnes(p: nat)
    requires p > 0
    ensures (2 * p - 1) / 2 == p - 1 && (2 * p - 1) % 2 == 1
  {
  }

  /** Masking with the `w - k` high bits clears the `k` low bits and nothing else. */
  lemma {:induction false} AndHigh(n: nat, k: nat, w: nat)
    requires k <= w && n < Pow2(w)
    ensures Pow2(k) <= Pow2(w)
    ensures And(n, Pow2(w) - Pow2(k)) == n - n % Pow2(k)
  {
    if k == 0 {
      AndOnes(n, w);
    } else {
      AndHigh(n / 2, k - 1, w - 1);
      var p := Pow2(k - 1);
      assert (Pow2(w) - Pow2(k)) / 2 == Pow2(w - 1) - p;
      assert (Pow2(w) - Pow2(k)) % 2 == 0;
      ModDouble(n, p);
    }
  }

  lemma ModDouble(n: nat, p: nat)
    requires p > 0
    ensures n % (2 * p) == 2 * ((n / 2) % p) + n % 2
  {
    var q, r := (n / 2) / p, (n / 2) % p;
    assert n / 2 == q * p + r;
    assert n == q * (2 * p) + (2 * r + n % 2);
    DivModUnique(n, 2 * p, q, 2 * r + n % 2);
  }

  lemma WholeWords(n: nat)
    requires n % 512 == 0
    ensures n % 8 == 0
  {
    var q := n / 512;
    assert n == 64 * q * 8;
    DivModUnique(n, 8, 64 * q, 0);
  }

  lemma DivModUnique(n: int, d: int, q: int, r: int)
    requires d > 0 && 0 <= r < d && n == q * d + r
    ensures n / d == q && n % d == r
  {
    var e := n / d - q;
    assert e * d == (n / d) * d - q * d;
    OnlyZeroMultiple(e, d);
  }

  lemma OnlyZeroMultiple(e: int, d: int)
    requires d > 0 && -d < e * d < d
    ensures e == 0
  {
    NonzeroMultiple(e, d);
  }

  lemma NonzeroMultiple(e: int, d: int)
    requires d > 0
    ensures e > 0 ==> e * d >= d
    ensures e < 0 ==> e * d <= -d
  {
    if e > 0 {
      assert (e - 1) * d >= 0;
    } else if e < 0 {
      assert (-e - 1) * d >= 0;
    }
  }

  lemma Pow2At64()
    ensures Pow2(64) == TWO64 && Pow2(4) == 16 && Pow2(9) == 512 && Pow2(3) == 8
  {
    assert Pow2(9) == 2 * 256;
    assert Pow2(16) == 0x1_0000;
    assert Pow2(24) == 0x100_0000;
    assert Pow2(32) == 0x1_0000_0000;
    assert Pow2(40) == 0x100_0000_0000;
    assert Pow2(48) == 0x1_0000_0000_0000;
    assert Pow2(56) == 0x100_0000_0000_0000;
  }

  /** For every power-of-two unit, masking down is the greatest multiple of the unit not above n,
      and masking up is the least multiple not below n as long as the sum fits in 64 bits. */
  lemma MaskIsArithmetic(n: nat, k: nat)
    requires k <= 64 && n < TWO64
    ensures Pow2(k) <= TWO64
    ensures MaskDown(n, Pow2(k)) == n / Pow2(k) * Pow2(k)
    ensures n + Pow2(k) - 1 < TWO64 ==> MaskUp(n, Pow2(k)) == (n + Pow2(k) - 1) / Pow2(k) * Pow2(k)
    ensures n + Pow2(k) - 1 >= TWO64 ==> MaskUp(n, Pow2(k)) == 0
  {
    hide Pow2, MaskDown;
    var p := Pow2(k);
    MaskDownIsArithmetic(n, k);
    var m := (n + p - 1) % TWO64;
    MaskDownIsArithmetic(m, k);
    assert MaskUp(n, p) == MaskDown(m, p);
    if n + p - 1 >= TWO64 {
      WrappedIsSmall(n, p);
    } else {
      FitsUnwrapped(n + p - 1);
    }
  }

  lemma FitsUnwrapped(n: nat)
    requires n < TWO64
    ensures n % TWO64 == n
  {
  }

  lemma MaskDownIsArithmetic(n: nat, k: nat)
    requires k <= 64 && n < TWO64
    ensures Pow2(k) <= TWO64
    ensures MaskDown(n, Pow2(k)) == n / Pow2(k) * Pow2(k)
  {
    assert Pow2(64) == TWO64 by { Pow2At64(); }
    AndHigh(n, k, 64);
    DivTimes(n, Pow2(k));
  }

  lemma DivTimes(n: nat, p: nat)
    requires p > 0
    ensures n - n % p == n / p * p
  {
  }

  lemma WrappedIsSmall(n: nat, p: nat)
    requires n < TWO64 && 0 < p <= TWO64 && n + p - 1 >= TWO64
    ensures (n + p - 1) % TWO64 / p * p == 0
  {
    var m := (n + p - 1) % TWO64;
    DivModUnique(n + p - 1, TWO64, 1, n + p - 1 - TWO64);
    assert m < p;
    DivModUnique(m, p, 0, m);
  }

  /** The least multiple of 512 not below `n`, as mkimage.rb computes it. */
  function Up512(n: nat): (r: nat)
    ensures r % 512 == 0 && n <= r < n + 512
  {
    (n + 511) / 512 * 512
  }

  function Down512(n: nat): (r: nat)
    ensures r % 512 == 0 && r <= n < r + 512
  {
    n / 512 * 512
  }

  /** `round_up(n, DEFAULT_SECTOR_SIZE)`. */
  method RoundUp512(n: nat) returns (r: nat)
    requires n + 511 < TWO64
    ensures r == Up512(n)
  {
    MaskIsArithmetic(n, 9);
    assert Pow2(9) == 512 by { Pow2At64(); }
    r := MaskUp(n, 512);
  }

  /** `round_down(n, DEFAULT_SECTOR_SIZE)`. */
  method RoundDown512(n: nat) returns (r: nat)
    requires n < TWO64
    ensures r == Down512(n)
  {
    MaskIsArithmetic(n, 9);
    assert Pow2(9) == 512 by { Pow2At64(); }
    r := MaskDown(n, 512);
  }
}
