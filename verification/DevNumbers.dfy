/** The device numbers of virtual disk names and numbers, by what is written. */
module DevNumbers {
  import opened Wrappers
  import opened Numbers
  import opened VirtDisk
  import opened Widths

  const REFUSED := 0xFFFF_FFFF  // the 32 bits of -1

  // ----- names -----

  /** "xvd", "hd" and "sd" with drive letters and a partition (0: none): the number, or -1 beyond the bounds of the family. */
  lemma NamesNumbered(d: nat, p: nat)
    requires p < 0x8000_0000_0000_0000
    ensures var tail := Letters(d) + if p == 0 then "" else Decimal(p);
      && DevNumber("xvd" + tail) == (if d < 0x10_0000 && p < 256
                                     then (if d <= 15 && p <= 15 then 51712 + 16 * d + p else 0x1000_0000 + 256 * d + p) else REFUSED)
      && DevNumber("hd" + tail) == (if d <= 3 && p <= 63
                                    then (if d < 2 then 768 + 64 * d + p else 5632 + 64 * (d - 2) + p) else REFUSED)
      && DevNumber("sd" + tail) == (if d <= 15 && p <= 15 then 2048 + 16 * d + p else REFUSED)
  {
    hide DevNumber, Letters, Decimal;
    NameNumbered(Name(Xvd, d, p));
    NameNumbered(Name(Hd, d, p));
    NameNumbered(Name(Sd, d, p));
  }

  lemma NameNumbered(n: Name)
    requires n.partition < TWO63
    ensures Text(n) == Prefix(n.family) + (Letters(n.disk) + if n.partition == 0 then "" else Decimal(n.partition))
    ensures var d, p := n.disk, n.partition;
      DevNumber(Text(n)) == match n.family
        case Xvd => (if d < 0x10_0000 && p < 256
                     then (if d <= 15 && p <= 15 then 51712 + 16 * d + p else 0x1000_0000 + 256 * d + p) else REFUSED)
        case Hd => (if d <= 3 && p <= 63 then (if d < 2 then 768 + 64 * d + p else 5632 + 64 * (d - 2) + p) else REFUSED)
        case Sd => (if d <= 15 && p <= 15 then 2048 + 16 * d + p else REFUSED)
  {
    hide ScanInt, NumberOf, Letters, Decimal, MatchIn;
    if VirtDisk.Valid(n) {
      DevNumberOf(n);
      NumberIs(n);
    } else {
      var s := Text(n);
      assert s[0] == Prefix(n.family)[0];
      NotANumber(s);
      NoOtherFamily(n);
      NoMatchBeyond(n);
    }
  }

  lemma PartitionBeyond(p: nat, max: nat)
    requires max < p < TWO63
    ensures PartitionText(p) != "" && !IsLetter(PartitionText(p)[0]) && PartitionOf(PartitionText(p), max) == None
  {
    hide Strtoul, Decimal;
    StrtoulOfDecimal(p, "");
    assert Decimal(p) + "" == Decimal(p);
  }

  /** Beyond the bounds nothing matches. */
  lemma NoMatchBeyond(n: Name)
    requires n.partition < TWO63 && !VirtDisk.Valid(n)
    ensures MatchIn(Text(n), n.family).NoMatch?
  {
    hide LetterRun, IndexOf, PartitionOf, Letters, PartitionText;
    var tail, max := PartitionText(n.partition), MaxPartition(n.family);
    assert Text(n)[|Prefix(n.family)|..] == Letters(n.disk) + tail;
    if n.partition <= max { PartitionIs(n.partition, max); } else { PartitionBeyond(n.partition, max); }
    LetterRunOf(Letters(n.disk), tail);
    IndexOfLetters(n.disk);
  }

  /** The letters count a, …, z, aa, ab and so on. */
  lemma LettersLook(n: nat)
    ensures n == 0 ==> Letters(n) == "a"
    ensures n == 25 ==> Letters(n) == "z"
    ensures n == 26 ==> Letters(n) == "aa"
    ensures n == 701 ==> Letters(n) == "zz"
    ensures n == 702 ==> Letters(n) == "aaa"
  {
  }

  // ----- numbers -----

  /** A digit of a base up to sixteen. */
  function DigitText(d: nat, upper: bool): (c: char)
    requires d < 16
    ensures c == if d < 10 then "0123456789"[d] else if upper then "ABCDEF"[d - 10] else "abcdef"[d - 10]
    ensures Digit(c) == d
  {
    if d < 10 then '0' + d as char else if upper then 'A' + (d - 10) as char else 'a' + (d - 10) as char
  }

  predicate IsBase(base: nat) { base == 8 || base == 10 || base == 16 }

  function Quotient(n: nat, base: nat): (q: nat)
    requires IsBase(base)
    ensures q <= n && (n >= base ==> 0 < q < n)
  {
    if base == 8 then n / 8 else if base == 10 then n / 10 else n / 16
  }

  function Remainder(n: nat, base: nat): (r: nat)
    requires IsBase(base)
    ensures r < base && base * Quotient(n, base) + r == n
  {
    if base == 8 then n % 8 else if base == 10 then n % 10 else n % 16
  }

  function InBase(n: nat, base: nat, upper: bool): (s: string)
    requires IsBase(base)
    ensures s != "" && (n > 0 ==> s[0] != '0') && forall i :: 0 <= i < |s| ==> Digit(s[i]) < base
    decreases n
  {
    if n < base then [DigitText(n, upper)] else InBase(Quotient(n, base), base, upper) + [DigitText(Remainder(n, base), upper)]
  }

  lemma {:induction false} ValueInBase(n: nat, base: nat, upper: bool)
    requires IsBase(base)
    ensures ValueIn(InBase(n, base, upper), base) == n
    decreases n
  {
    hide Quotient, Remainder;
    var s := InBase(n, base, upper);
    if n >= base {
      ValueInBase(Quotient(n, base), base, upper);
      assert s[..|s| - 1] == InBase(Quotient(n, base), base, upper);
    } else {
      assert s[..0] == "";
    }
  }

  lemma {:induction false} DigitsInOf(s: string, rest: string, base: nat)
    requires (forall i :: 0 <= i < |s| ==> Digit(s[i]) < base) && (rest == "" || Digit(rest[0]) >= base)
    ensures DigitsIn(s + rest, base) == |s|
  {
    if s == "" {
      assert s + rest == rest;
    } else {
      assert (s + rest)[1..] == s[1..] + rest;
      DigitsInOf(s[1..], rest, base);
    }
  }

  lemma {:induction false} LeadingZero(s: string, base: nat)
    requires base >= 2
    ensures ValueIn("0" + s, base) == ValueIn(s, base)
  {
    if s != "" {
      LeadingZero(s[..|s| - 1], base);
      assert ("0" + s)[..|s|] == "0" + s[..|s| - 1];
    } else {
      assert "0" + s == "0" && "0"[..0] == "";
    }
  }

  /** The digits of a number: decimal, octal behind "0", hexadecimal behind "0x" or "0X". */
  function Digits(n: nat, base: nat, upper: bool): (s: string)
    requires IsBase(base)
  {
    (if base == 10 then "" else if base == 8 then "0" else if upper then "0X" else "0x") + InBase(n, base, upper)
  }

  /** White space, a sign, and the digits, with nothing or no digit behind. */
  predicate Written(spaces: string, sign: string, n: nat, base: nat, rest: string) {
    && (forall i :: 0 <= i < |spaces| ==> spaces[i] == ' ' || 9 <= spaces[i] as int <= 13)
    && (sign == "" || sign == "+" || sign == "-")
    && IsBase(base) && (base == 10 ==> n > 0)
    && (rest == "" || Digit(rest[0]) >= 16)
  }

  /** How the scan starts. */
  lemma ScanParts(s: string, skipped: nat, sign: string, body: string, base: nat, digits: string)
    requires Spaces(s) == skipped && skipped + |sign| <= |s| && (sign == "" || sign == "+" || sign == "-")
    requires if sign == "" then skipped < |s| && s[skipped] != '+' && s[skipped] != '-' else skipped < |s| && s[skipped] == sign[0]
    requires var t := s[skipped + |sign|..];
      && body == (if HexAhead(t) then t[2..] else t) && base == (if HexAhead(t) then 16 else if t != "" && t[0] == '0' then 8 else 10)
    requires digits != "" && digits <= body && DigitsIn(body, base) == |digits|
    ensures ScanInt(s) == Some(Number(ValueIn(digits, base), sign == "-", |s| - |body| + |digits|))
  {
    hide Spaces, HexAhead, DigitsIn, ValueIn;
    assert body[..|digits|] == digits;
  }

  lemma ScanOfWritten(spaces: string, sign: string, n: nat, base: nat, upper: bool, rest: string)
    requires Written(spaces, sign, n, base, rest)
    ensures var text := spaces + (sign + Digits(n, base, upper));
      ScanInt(text + rest) == Some(Number(n, sign == "-", |text|))
  {
    hide ScanInt, Digits, HexAhead, DigitsIn, ValueIn;
    var d := Digits(n, base, upper);
    AheadOf(n, base, upper, rest);
    var body, digits := BodyOf(n, base, upper, rest);
    ScanBehind(spaces, sign, d + rest, body, base, digits);
    Regrouped(spaces, sign, d, rest);
  }

  lemma Regrouped(a: string, b: string, c: string, e: string)
    ensures a + (b + c) + e == a + (b + (c + e))
  {
  }

  /** White space and a sign before `t`. */
  lemma ScanBehind(spaces: string, sign: string, t: string, body: string, base: nat, digits: string)
    requires (forall i :: 0 <= i < |spaces| ==> IsSpace(spaces[i])) && (sign == "" || sign == "+" || sign == "-")
    requires t != "" && t[0] != '+' && t[0] != '-' && !IsSpace(t[0])
    requires body == (if HexAhead(t) then t[2..] else t) && base == (if HexAhead(t) then 16 else if t[0] == '0' then 8 else 10)
    requires digits != "" && digits <= body && DigitsIn(body, base) == |digits|
    ensures ScanInt(spaces + (sign + t)) ==
      Some(Number(ValueIn(digits, base), sign == "-", |spaces| + |sign| + |t| - |body| + |digits|))
  {
    hide Spaces, HexAhead, DigitsIn, ValueIn, ScanInt;
    var number := sign + t;
    assert number[0] == if sign == "" then t[0] else sign[0];
    SpacesOf(spaces, number);
    assert (spaces + number)[|spaces|] == number[0];
    Behind(spaces, sign, t);
    ScanParts(spaces + number, |spaces|, sign, body, base, digits);
  }

  /** What the scan takes for the number. */
  lemma BodyOf(n: nat, base: nat, upper: bool, rest: string) returns (body: string, digits: string)
    requires Written("", "", n, base, rest)
    ensures var t := Digits(n, base, upper) + rest;
      && body == (if HexAhead(t) then t[2..] else t) && base == (if HexAhead(t) then 16 else if t != "" && t[0] == '0' then 8 else 10)
      && digits != "" && digits <= body && DigitsIn(body, base) == |digits| && ValueIn(digits, base) == n
      && |t| - |body| + |digits| == |t| - |rest|
  {
    hide DigitsIn, ValueIn, InBase, HexAhead;
    var d, e := Digits(n, base, upper), InBase(n, base, upper);
    body, digits := if base == 16 then e + rest else d + rest, if base == 8 then "0" + e else e;
    AheadOf(n, base, upper, rest);
    DigitsInOf(digits, rest, base);
    FrontOf(digits, rest);
    assert body == digits + rest;
    ValueInBase(n, base, upper);
    LeadingZero(e, 8);
  }

  lemma FrontOf(a: string, b: string)
    ensures a <= a + b
  {
  }

  lemma Behind(a: string, b: string, c: string)
    ensures (a + (b + c))[|a| + |b|..] == c
  {
  }

  lemma AheadOf(n: nat, base: nat, upper: bool, rest: string)
    requires Written("", "", n, base, rest)
    ensures var t := Digits(n, base, upper) + rest;
      && (HexAhead(t) <==> base == 16) && (base == 16 ==> t[2..] == InBase(n, base, upper) + rest)
      && (base == 8 ==> t[0] == '0') && (base == 10 ==> t[0] != '0')
      && t != "" && t[0] != '+' && t[0] != '-' && !IsSpace(t[0])
  {
    hide InBase;
    var e := InBase(n, base, upper);
    var t := Digits(n, base, upper) + rest;
    if base == 16 {
      assert t[2..] == e + rest && t[2] == e[0];
    } else if base == 8 {
      assert t[1] == e[0];
    } else {
      assert t[0] == e[0];
    }
  }

  /** A text that starts like a number, and not like a name. */
  lemma NumberFirst(s: string)
    requires s != "" && s[0] != 'd' && !("xvd" <= s) && !("hd" <= s) && !("sd" <= s)
    ensures DevNumber(s) == if PlainNumber(s).Some? then PlainNumber(s).value else REFUSED
  {
    hide PlainNumber, PartitionOf, LetterRun, IndexOf;
  }

  /** A written number is its own device number if it fits an int; a minus negates modulo 2^64, and a number that does
      not fit an unsigned long is refused. */
  lemma NumbersNumbered(spaces: string, sign: string, n: nat, base: nat, upper: bool)
    requires Written(spaces, sign, n, base, "")
    ensures DevNumber(spaces + (sign + Digits(n, base, upper))) ==
      if n >= 0x1_0000_0000_0000_0000 then REFUSED
      else
        var v := if sign == "-" && n > 0 then 0x1_0000_0000_0000_0000 - n else n;
        if v <= 0x7FFF_FFFF then v else REFUSED
  {
    hide ScanInt, DevNumber, InBase;
    var s := spaces + (sign + Digits(n, base, upper));
    ScanOfWritten(spaces, sign, n, base, upper, "");
    assert s + "" == s;
    FirstOfWritten(spaces, sign, n, base, upper, "");
    NumberFirst(s);
  }

  /** Anything behind the number is refused. */
  lemma TrailingRefused(spaces: string, sign: string, n: nat, base: nat, upper: bool, rest: string)
    requires Written(spaces, sign, n, base, rest) && rest != ""
    ensures DevNumber(spaces + (sign + Digits(n, base, upper)) + rest) == REFUSED
  {
    hide ScanInt, DevNumber, InBase;
    ScanOfWritten(spaces, sign, n, base, upper, rest);
    FirstOfWritten(spaces, sign, n, base, upper, rest);
    NumberFirst(spaces + (sign + Digits(n, base, upper)) + rest);
  }

  lemma FirstOfWritten(spaces: string, sign: string, n: nat, base: nat, upper: bool, rest: string)
    requires Written(spaces, sign, n, base, rest)
    ensures var s := spaces + (sign + Digits(n, base, upper)) + rest;
      s != "" && s[0] != 'd' && s[0] != 'x' && s[0] != 'h' && s[0] != 's'
  {
    hide InBase;
    var d := Digits(n, base, upper);
    AheadOf(n, base, upper, rest);
    var e := InBase(n, base, upper);
    assert (d + rest)[0] == d[0];
    assert d[0] == if base == 10 then e[0] else '0';
    var s := spaces + (sign + d) + rest;
    assert s[0] == if spaces != "" then spaces[0] else if sign != "" then sign[0] else d[0];
  }

  /** "%d" of a number: itself, or -1 if it does not fit an int. The empty text is 0. */
  lemma DecimalNumbered(n: nat)
    ensures DevNumber(Decimal(n)) == if n <= 0x7FFF_FFFF then n else REFUSED
    ensures DevNumber("") == 0
  {
    hide ScanInt, DevNumber, Decimal;
    var d := Decimal(n);
    ScanOfDecimal(n, "");
    assert d + "" == d && IsDigit(d[0]);
    NumberFirst(d);
    EmptyNumbered();
  }

  lemma EmptyNumbered()
    ensures DevNumber("") == 0
  {
    hide ScanInt, PartitionOf, LetterRun, IndexOf;
  }

  /** A text that starts neither like a number nor like a name gets -1. */
  lemma WordRefused(s: string)
    requires s != "" && s[0] != 'd' && !("xvd" <= s) && !("hd" <= s) && !("sd" <= s)
    requires !('0' <= s[0] <= '9') && !IsSpace(s[0]) && s[0] != '+' && s[0] != '-'
    ensures DevNumber(s) == REFUSED
  {
    hide DevNumber;
    assert s[0..] == s;
    NumberFirst(s);
  }

  // ----- "d<disk>p<partition>" -----

  /** Within the bounds of xvd names the number of that name, beyond them -1. */
  lemma SpellingNumbered(disk: nat, partition: nat)
    requires disk <= 0x7FFF_FFFF && partition <= 0x7FFF_FFFF
    ensures DevNumber("d" + Decimal(disk) + "p" + Decimal(partition)) ==
      if disk < 0x10_0000 && partition < 256
      then (if disk <= 15 && partition <= 15 then 51712 + 16 * disk + partition else 0x1000_0000 + 256 * disk + partition)
      else REFUSED
  {
    hide ScanDisk, ScanInt, NumberOf, Decimal, Text, MatchIn, XvdNumber, HdNumber, SdNumber;
    var n := Name(Xvd, disk, partition);
    if VirtDisk.Valid(n) {
      NumericSpelling(disk, partition);
      DevNumberOf(n);
      NumberIs(n);
    } else {
      ScansSpelling(disk, partition);
      NoNumberInD("d" + Decimal(disk) + "p" + Decimal(partition));
    }
  }

  lemma NoNumberInD(s: string)
    requires s != "" && s[0] == 'd'
    ensures ScanInt(s) == None && forall f :: MatchIn(s, f).NoMatch?
  {
    hide PartitionOf, IndexOf, LetterRun;
    assert s[0..] == s;
  }

  /** The numbers may be written in any way: what an int makes of them decides. */
  lemma SpellingScanned(spaces: string, sign: string, n: nat, base: nat, upper: bool,
                        spaces': string, sign': string, n': nat, base': nat, upper': bool, rest: string)
    requires Written(spaces, sign, n, base, "p") && Written(spaces', sign', n', base', rest)
    ensures var first, second := spaces + (sign + Digits(n, base, upper)), spaces' + (sign' + Digits(n', base', upper'));
      ScanDisk("d" + (first + ("p" + (second + rest)))) == if rest != "" then NoMatch
        else Match(StoredInt(Number(n, sign == "-", |first|)), StoredInt(Number(n', sign' == "-", |second|)))
  {
    hide ScanInt, StoredInt, Digits;
    var first, second := spaces + (sign + Digits(n, base, upper)), spaces' + (sign' + Digits(n', base', upper'));
    var tail := "p" + (second + rest);
    WrittenBefore(spaces, sign, n, base, tail);
    ScanOfWritten(spaces, sign, n, base, upper, tail);
    ScanOfWritten(spaces', sign', n', base', upper', rest);
    ScanTwo(first, second, rest);
  }

  lemma WrittenBefore(spaces: string, sign: string, n: nat, base: nat, tail: string)
    requires Written(spaces, sign, n, base, "p") && tail != "" && tail[0] == 'p'
    ensures Written(spaces, sign, n, base, tail)
  {
  }

  lemma ScanTwo(first: string, second: string, rest: string)
    requires ScanInt(first + ("p" + (second + rest))).Some? && ScanInt(first + ("p" + (second + rest))).value.used == |first|
    requires ScanInt(second + rest).Some? && ScanInt(second + rest).value.used == |second|
    ensures ScanDisk("d" + (first + ("p" + (second + rest)))) == if rest != "" then NoMatch
      else Match(StoredInt(ScanInt(first + ("p" + (second + rest))).value), StoredInt(ScanInt(second + rest).value))
  {
    hide ScanInt, StoredInt;
    var tail := "p" + (second + rest);
    var s := "d" + (first + tail);
    assert s[1..] == first + tail;
    assert s[1 + |first|..] == tail && tail[1..] == second + rest;
  }

  /** Text behind such a name is refused. */
  lemma SpellingTrailing(disk: nat, partition: nat, rest: string)
    requires disk > 0 && partition > 0 && rest != "" && Digit(rest[0]) >= 16
    ensures DevNumber("d" + (Decimal(disk) + ("p" + (Decimal(partition) + rest)))) == REFUSED
  {
    hide ScanDisk, ScanInt, Decimal, MatchIn, XvdNumber, HdNumber, SdNumber;
    SpellingOfDecimals(disk, partition, rest);
    NoNumberInD("d" + (Decimal(disk) + ("p" + (Decimal(partition) + rest))));
  }

  lemma SpellingOfDecimals(disk: nat, partition: nat, rest: string)
    requires disk > 0 && partition > 0 && rest != "" && Digit(rest[0]) >= 16
    ensures ScanDisk("d" + (Decimal(disk) + ("p" + (Decimal(partition) + rest)))) == NoMatch
  {
    hide ScanDisk, ScanInt, Decimal, InBase;
    DecimalIsBaseTen(disk);
    DecimalIsBaseTen(partition);
    SpellingScanned("", "", disk, 10, false, "", "", partition, 10, false, rest);
    assert "" + ("" + ("" + Decimal(disk))) == Decimal(disk) && "" + ("" + ("" + Decimal(partition))) == Decimal(partition);
  }

  lemma {:induction false} DecimalIsBaseTen(n: nat)
    ensures Decimal(n) == InBase(n, 10, false)
  {
    if n >= 10 { DecimalIsBaseTen(n / 10); }
  }

  /** What `%i` stores: the number, cut down to the range of a long, modulo 2^32 in the range of an int. */
  lemma StoredIntIs(n: Number)
    ensures var x: int := if n.minus then (if n.magnitude > 0x8000_0000_0000_0000 then -0x8000_0000_0000_0000 else 0 - n.magnitude)
                          else if n.magnitude >= 0x8000_0000_0000_0000 then 0x7FFF_FFFF_FFFF_FFFF else n.magnitude;
      -0x8000_0000 <= StoredInt(n) <= 0x7FFF_FFFF && (x - StoredInt(n)) % 0x1_0000_0000 == 0
  {
  }

  // ----- partitions that wrap around -----

  /** A partition of 2^63 or more is negative as a long, and accepted: what an int makes of it is taken, from 2^64 on -1. */
  lemma WrappedAccepted(n: Name)
    requires n.disk <= MaxDisk(n.family) && n.partition >= 0x8000_0000_0000_0000
    ensures var m, p := MatchIn(Text(n), n.family), if n.partition > 0xFFFF_FFFF_FFFF_FFFF then 0xFFFF_FFFF_FFFF_FFFF else n.partition;
      && m.Match? && m.index == n.disk
      && -0x8000_0000 <= m.partition <= 0x7FFF_FFFF && (p - m.partition) % 0x1_0000_0000 == 0
  {
    hide LetterRun, IndexOf, PartitionOf, Letters, PartitionText;
    var tail := PartitionText(n.partition);
    assert Text(n)[|Prefix(n.family)|..] == Letters(n.disk) + tail;
    WrappedPartition(n.partition, MaxPartition(n.family));
    LetterRunOf(Letters(n.disk), tail);
    IndexOfLetters(n.disk);
  }

  lemma WrappedPartition(n: nat, max: nat)
    requires n >= 0x8000_0000_0000_0000
    ensures PartitionText(n) != "" && !IsLetter(PartitionText(n)[0]) && PartitionOf(PartitionText(n), max).Some?
    ensures var r, p := PartitionOf(PartitionText(n), max).value, if n > 0xFFFF_FFFF_FFFF_FFFF then 0xFFFF_FFFF_FFFF_FFFF else n;
      -0x8000_0000 <= r <= 0x7FFF_FFFF && (p - r) % 0x1_0000_0000 == 0
  {
    hide Strtoul, Decimal;
    StrtoulOfSigned("", "", n, "");
    assert "" + ("" + (Decimal(n) + "")) == Decimal(n);
  }
}
