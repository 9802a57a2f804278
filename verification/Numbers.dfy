/** Decimal numbers in text: `fprintf("%d")` and `strtoul(…, 10)`. */
module Numbers {

  const ULONG_MAX := 0xFFFF_FFFF_FFFF_FFFF

  predicate IsDigit(c: char) { '0' <= c <= '9' }

  predicate IsSpace(c: char) { c == ' ' || '\t' <= c <= '\r' }

  function DigitOf(c: char): (d: nat)
    requires IsDigit(c)
    ensures d < 10
  {
    (c - '0') as int
  }

  function CharOf(d: nat): (c: char)
    requires d < 10
    ensures IsDigit(c) && DigitOf(c) == d
  {
    '0' + d as char
  }

  /** `%d` of a number that is not negative. */
  function Decimal(n: nat): (s: string)
    ensures |s| > 0 && forall i :: 0 <= i < |s| ==> IsDigit(s[i])
    ensures n > 0 ==> s[0] != '0'
  {
    if n < 10 then [CharOf(n)] else Decimal(n / 10) + [CharOf(n % 10)]
  }

  /** How many digits `s` starts with. */
  function DigitRun(s: string): (k: nat)
    ensures k <= |s| && (forall i :: 0 <= i < k ==> IsDigit(s[i])) && (k < |s| ==> !IsDigit(s[k]))
  {
    if s == [] || !IsDigit(s[0]) then 0 else 1 + DigitRun(s[1..])
  }

  /** The number that digits stand for. */
  function Value(s: string): nat
    requires forall i :: 0 <= i < |s| ==> IsDigit(s[i])
  {
    if s == [] then 0 else 10 * Value(s[..|s| - 1]) + DigitOf(s[|s| - 1])
  }

  function Spaces(s: string): (k: nat)
    ensures k <= |s|
  {
    if s == [] || !IsSpace(s[0]) then 0 else 1 + Spaces(s[1..])
  }

  /** What strtoul returns, and how many characters it has used: none if there is no number. */
  datatype Parsed = Parsed(value: nat, used: nat)

  /** strtoul(s, &end, 10) on 64 bits: white space, a sign, digits; too large saturates, minus negates modulo 2^64. */
  function Strtoul(s: string): (r: Parsed)
    ensures r.used <= |s| && r.value <= ULONG_MAX
  {
    var skipped := Spaces(s);
    var signed := skipped < |s| && (s[skipped] == '-' || s[skipped] == '+');
    var start := if signed then skipped + 1 else skipped;
    var k := DigitRun(s[start..]);
    if k == 0 then Parsed(0, 0)
    else
      var v := Value(s[start..][..k]);
      var u := if v > ULONG_MAX then ULONG_MAX else v;
      Parsed(if v <= ULONG_MAX && signed && s[skipped] == '-' && u > 0 then ULONG_MAX + 1 - u else u, start + k)
  }

  lemma {:induction false} ValueOfDecimal(n: nat)
    ensures Value(Decimal(n)) == n
  {
    if n >= 10 {
      ValueOfDecimal(n / 10);
      assert Decimal(n)[..|Decimal(n)| - 1] == Decimal(n / 10);
    }
  }

  lemma {:induction false} DigitRunStops(s: string, rest: string)
    requires forall i :: 0 <= i < |s| ==> IsDigit(s[i])
    requires rest == [] || !IsDigit(rest[0])
    ensures DigitRun(s + rest) == |s|
  {
    if s == [] {
      assert s + rest == rest;
    } else {
      assert (s + rest)[1..] == s[1..] + rest;
      DigitRunStops(s[1..], rest);
    }
  }

  lemma DecimalLooks(n: nat)
    requires n == 51712
    ensures Decimal(n) == "51712"
  {
  }

  /** strtoul reads back what `%d` printed, and stops behind it. */
  lemma StrtoulOfDecimal(n: nat, rest: string)
    requires n <= ULONG_MAX && (rest == [] || !IsDigit(rest[0]))
    ensures Strtoul(Decimal(n) + rest) == Parsed(n, |Decimal(n)|)
  {
    var d := Decimal(n);
    var s := d + rest;
    assert s[0] == d[0] && IsDigit(d[0]);
    assert s[0..] == s;
    DigitRunStops(d, rest);
    assert s[..|d|] == d;
    ValueOfDecimal(n);
  }

  lemma {:induction false} SpacesOf(spaces: string, rest: string)
    requires forall i :: 0 <= i < |spaces| ==> IsSpace(spaces[i])
    requires rest == [] || !IsSpace(rest[0])
    ensures Spaces(spaces + rest) == |spaces|
  {
    if spaces == [] {
      assert spaces + rest == rest;
    } else {
      assert (spaces + rest)[1..] == spaces[1..] + rest;
      SpacesOf(spaces[1..], rest);
    }
  }

  lemma StrtoulParts(s: string, skipped: nat, sign: string, digits: string)
    requires Spaces(s) == skipped && skipped + |sign| <= |s| && (sign == "" || sign == "+" || sign == "-")
    requires if sign == "" then skipped < |s| && s[skipped] != '+' && s[skipped] != '-' else s[skipped] == sign[0]
    requires digits != [] && (forall i :: 0 <= i < |digits| ==> IsDigit(digits[i]))
    requires DigitRun(s[skipped + |sign|..]) == |digits| && digits <= s[skipped + |sign|..]
    ensures var v := Value(digits);
      Strtoul(s) == Parsed(if v > ULONG_MAX then ULONG_MAX else if sign == "-" && v > 0 then ULONG_MAX + 1 - v else v,
                           skipped + |sign| + |digits|)
  {
    hide Spaces, DigitRun, Value;
    assert s[skipped + |sign|..][..|digits|] == digits;
  }

  lemma SignedParts(spaces: string, sign: string, t: string)
    requires (forall i :: 0 <= i < |spaces| ==> IsSpace(spaces[i])) && (sign == "" || sign == "+" || sign == "-")
    requires t != "" && IsDigit(t[0])
    ensures var s := spaces + (sign + t);
      && Spaces(s) == |spaces| && s[|spaces| + |sign|..] == t && |spaces| < |s|
      && if sign == "" then s[|spaces|] == t[0] else s[|spaces|] == sign[0]
  {
    hide Spaces;
    var number := sign + t;
    assert number[0] == if sign == "" then t[0] else sign[0];
    SpacesOf(spaces, number);
    assert (spaces + number)[|spaces|] == number[0];
  }

  /** What strtoul makes of a printed number behind white space and a sign: a number above 2^64 - 1 is cut down to
      that, whatever its sign, and a minus negates modulo 2^64. */
  lemma StrtoulOfSigned(spaces: string, sign: string, n: nat, rest: string)
    requires forall i :: 0 <= i < |spaces| ==> spaces[i] == ' ' || 9 <= spaces[i] as int <= 13
    requires sign == "" || sign == "+" || sign == "-"
    requires rest == [] || !('0' <= rest[0] <= '9')
    ensures Strtoul(spaces + (sign + (Decimal(n) + rest))) == Parsed(
      if n >= 0x1_0000_0000_0000_0000 then 0xFFFF_FFFF_FFFF_FFFF
      else if sign == "-" && n > 0 then 0x1_0000_0000_0000_0000 - n else n,
      |spaces| + |sign| + |Decimal(n)|)
  {
    hide Value, Decimal, Spaces, DigitRun, Strtoul;
    var d := Decimal(n);
    var t := d + rest;
    assert t[0] == d[0] && d <= t;
    SignedParts(spaces, sign, t);
    DigitRunStops(d, rest);
    ValueOfDecimal(n);
    StrtoulParts(spaces + (sign + t), |spaces|, sign, d);
  }

  /** Without a digit where the number should start nothing is used. */
  lemma StrtoulOfNone(spaces: string, sign: string, rest: string)
    requires forall i :: 0 <= i < |spaces| ==> spaces[i] == ' ' || 9 <= spaces[i] as int <= 13
    requires sign == "" || sign == "+" || sign == "-"
    requires rest == [] || (!('0' <= rest[0] <= '9') && (sign == "" ==> !IsSpace(rest[0]) && rest[0] != '+' && rest[0] != '-'))
    ensures Strtoul(spaces + (sign + rest)) == Parsed(0, 0)
  {
    hide Spaces, Value;
    var number := sign + rest;
    var s := spaces + number;
    assert number != [] ==> number[0] == if sign == "" then rest[0] else sign[0];
    SpacesOf(spaces, number);
    assert number != [] ==> s[|spaces|] == number[0];
    assert s[|spaces| + |sign|..] == rest;
  }
}
