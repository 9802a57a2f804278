/** Virtual disk names and device numbers: device_virtdisk_matches and libxl__device_disk_dev_number
    of libxl_device.c. */
module VirtDisk {
  import opened Wrappers
  import opened Numbers
  import opened Rounding
  import opened Widths

  // ----- drive letters: bijective base 26 -----

  predicate IsLetter(c: char) { 'a' <= c <= 'z' }

  predicate AllLetters(s: string) { forall i :: 0 <= i < |s| ==> IsLetter(s[i]) }

  function LetterRun(s: string): (k: nat)
    ensures k <= |s| && AllLetters(s[..k]) && (k < |s| ==> !IsLetter(s[k]))
  {
    if s == [] || !IsLetter(s[0]) then 0 else 1 + LetterRun(s[1..])
  }

  /** The index that letters stand for; -1 if there are none. */
  function IndexOf(letters: string): (n: int)
    requires AllLetters(letters)
    ensures -1 <= n && (n == -1 <==> letters == "")
  {
    if letters == "" then -1
    else 26 * (IndexOf(letters[..|letters| - 1]) + 1) + (letters[|letters| - 1] - 'a') as int
  }

  function Letter(d: nat): (c: char)
    requires d < 26
    ensures IsLetter(c) && (c - 'a') as int == d
  {
    'a' + d as char
  }

  function Letters(n: nat): (s: string)
    ensures s != "" && AllLetters(s)
  {
    if n < 26 then [Letter(n)] else Letters(n / 26 - 1) + [Letter(n % 26)]
  }

  lemma {:induction false} IndexOfLetters(n: nat)
    ensures IndexOf(Letters(n)) == n
  {
    var s := Letters(n);
    if n >= 26 {
      IndexOfLetters(n / 26 - 1);
      assert s[..|s| - 1] == Letters(n / 26 - 1);
    } else {
      assert s[..0] == "";
    }
  }

  lemma {:induction false} LettersOfIndex(s: string)
    requires s != "" && AllLetters(s)
    ensures Letters(IndexOf(s)) == s
  {
    var front, c := s[..|s| - 1], s[|s| - 1];
    assert s == front + [c];
    assert Letter((c - 'a') as int) == c;
    if front != "" {
      LettersOfIndex(front);
    }
  }

  lemma {:induction false} IndexGrows(s: string, k: nat)
    requires AllLetters(s) && k <= |s|
    ensures IndexOf(s[..k]) <= IndexOf(s)
  {
    if k < |s| {
      IndexGrows(s[..|s| - 1], k);
      assert s[..|s| - 1][..k] == s[..k];
    } else {
      assert s[..k] == s;
    }
  }

  // ----- device_virtdisk_matches -----

  datatype Match = NoMatch | Match(index: int, partition: int)

  /** The `int` in a `long`. */
  function ToInt(x: int): (r: int)
    ensures 0 <= x <= INT_MAX ==> r == x
  {
    var m := x % TWO32;
    if m > INT_MAX then m - TWO32 else m
  }

  /** The `long` in an `unsigned long`. */
  function ToLong(x: nat): int {
    if x >= TWO63 then x - TWO64 else x
  }

  /** The text behind the letters: nothing, or a number without leading zeroes. */
  function PartitionOf(s: string, max: nat): Option<int> {
    if s == "" then Some(0)
    else if s[0] == '0' then None
    else
      var n := Strtoul(s);
      if ToLong(n.value) > max || n.used < |s| then None else Some(ToInt(ToLong(n.value)))
  }

  function Matches(virtpath: string, devtype: string, maxIndex: nat, maxPartition: nat): Match {
    if !(devtype <= virtpath) then NoMatch
    else
      var s := virtpath[|devtype|..];
      var k := LetterRun(s);
      var partition := PartitionOf(s[k..], maxPartition);
      if IndexOf(s[..k]) > maxIndex || partition.None? then NoMatch else Match(IndexOf(s[..k]), partition.value)
  }

  lemma NoLetters(s: string)
    ensures s[..0] == "" && IndexOf("") == -1
  {
  }

  /** The index never leaves `int` on the way. */
  method DeviceVirtdiskMatches(virtpath: string, devtype: string, maxIndex: nat, maxPartition: nat) returns (r: Match)
    requires maxIndex < 0x10_0000
    ensures r == Matches(virtpath, devtype, maxIndex, maxPartition)
  {
    hide PartitionOf, IndexOf, LetterRun;
    var tl := |devtype|;
    if !(devtype <= virtpath) {
      return NoMatch;
    }
    var index, p := -1, tl;
    ghost var s := virtpath[tl..];
    NoLetters(s);
    while p < |virtpath| && IsLetter(virtpath[p])
      invariant tl <= p <= |virtpath| && p - tl <= LetterRun(s)
      invariant AllLetters(s[..p - tl]) && index == IndexOf(s[..p - tl]) <= maxIndex
    {
      var c := (virtpath[p] - 'a') as int;
      LettersOn(s, p - tl);
      assert (index + 1) * 26 + c <= INT_MAX;
      p := p + 1;
      index := index + 1;
      index := index * 26;
      index := index + c;
      if index > maxIndex {
        IndexGrows(s[..LetterRun(s)], p - tl);
        assert s[..LetterRun(s)][..p - tl] == s[..p - tl];
        return NoMatch;
      }
    }
    assert p - tl == LetterRun(s);
    assert s[p - tl..] == virtpath[p..];
    var partition := PartitionOf(virtpath[p..], maxPartition);
    r := if partition.None? then NoMatch else Match(index, partition.value);
  }

  lemma {:induction false} LettersOn(s: string, k: nat)
    requires k < |s| && k <= LetterRun(s) && IsLetter(s[k])
    ensures k < LetterRun(s) && AllLetters(s[..k + 1])
    ensures IndexOf(s[..k + 1]) == 26 * (IndexOf(s[..k]) + 1) + (s[k] - 'a') as int
  {
    assert s[..k + 1][..k] == s[..k];
  }

  // ----- names -----

  datatype Family = Xvd | Hd | Sd

  datatype Name = Name(family: Family, disk: nat, partition: nat)

  function Prefix(f: Family): string {
    match f
    case Xvd => "xvd"
    case Hd => "hd"
    case Sd => "sd"
  }

  function MaxDisk(f: Family): nat {
    match f
    case Xvd => 0xF_FFFF
    case Hd => 3
    case Sd => 15
  }

  function MaxPartition(f: Family): nat {
    match f
    case Xvd => 255
    case Hd => 63
    case Sd => 15
  }

  predicate Valid(n: Name) { n.disk <= MaxDisk(n.family) && n.partition <= MaxPartition(n.family) }

  function PartitionText(p: nat): string { if p == 0 then "" else Decimal(p) }

  function Text(n: Name): string { Prefix(n.family) + (Letters(n.disk) + PartitionText(n.partition)) }

  function MatchIn(s: string, f: Family): Match { Matches(s, Prefix(f), MaxDisk(f), MaxPartition(f)) }

  lemma {:induction false} LetterRunOf(a: string, b: string)
    requires AllLetters(a) && (b == "" || !IsLetter(b[0]))
    ensures LetterRun(a + b) == |a| && (a + b)[..|a|] == a && (a + b)[|a|..] == b
  {
    if a == "" {
      assert a + b == b;
    } else {
      assert (a + b)[1..] == a[1..] + b;
      LetterRunOf(a[1..], b);
    }
  }

  lemma PartitionIs(p: nat, max: nat)
    requires p <= max <= INT_MAX
    ensures PartitionOf(PartitionText(p), max) == Some(p)
    ensures PartitionText(p) == "" || !IsLetter(PartitionText(p)[0])
  {
    hide Strtoul;
    if p > 0 {
      StrtoulOfDecimal(p, "");
      assert Decimal(p) + "" == Decimal(p);
    }
  }

  /** Every valid name decodes to its own disk and partition. */
  lemma MatchesText(n: Name)
    requires Valid(n)
    ensures MatchIn(Text(n), n.family) == Match(n.disk, n.partition)
  {
    hide LetterRun, IndexOf, PartitionOf, Letters, PartitionText;
    var s := Letters(n.disk) + PartitionText(n.partition);
    assert Text(n)[|Prefix(n.family)|..] == s;
    PartitionIs(n.partition, MaxPartition(n.family));
    LetterRunOf(Letters(n.disk), PartitionText(n.partition));
    IndexOfLetters(n.disk);
  }

  lemma OneDigit(d: nat)
    requires d < 10
    ensures Decimal(d) == [CharOf(d)]
  {
  }

  lemma DecimalEnds(n: nat, d: nat)
    requires n > 0 && d < 10
    ensures Decimal(10 * n + d) == Decimal(n) + [CharOf(d)]
  {
  }

  lemma {:induction false} DecimalOfValue(s: string)
    requires s != "" && s[0] != '0' && forall i :: 0 <= i < |s| ==> IsDigit(s[i])
    ensures Value(s) > 0 && Decimal(Value(s)) == s
  {
    hide Decimal;
    var front, c := s[..|s| - 1], s[|s| - 1];
    assert s == front + [c] && CharOf(DigitOf(c)) == c;
    if front != "" {
      DecimalOfValue(front);
      DecimalEnds(Value(front), DigitOf(c));
    } else {
      OneDigit(DigitOf(c));
    }
  }

  /** The partition text that the name of a valid partition ends with. */
  predicate IsCanonical(s: string) {
    s == "" || (IsDigit(s[0]) && DigitRun(s) == |s| && Value(s) < TWO63)
  }

  lemma DigitsOf(s: string)
    requires s != "" && IsDigit(s[0])
    ensures DigitRun(s) > 0
    ensures Strtoul(s).used == DigitRun(s)
    ensures Strtoul(s).value == var v := Value(s[..DigitRun(s)]); if v > ULONG_MAX then ULONG_MAX else v
  {
    assert s[0..] == s;
  }

  lemma CanonicalPartition(s: string, max: nat)
    requires PartitionOf(s, max).Some? && max <= INT_MAX
    ensures IsCanonical(s) ==> 0 <= PartitionOf(s, max).value <= max && s == PartitionText(PartitionOf(s, max).value)
    ensures (exists p: nat :: s == PartitionText(p) && p <= max) ==> IsCanonical(s)
  {
    hide Strtoul;
    if IsCanonical(s) && s != "" {
      DigitsOf(s);
      assert s[..|s|] == s;
      DecimalOfValue(s);
    }
    if p: nat :| s == PartitionText(p) && p <= max {
      if p > 0 {
        DigitRunStops(s, "");
        assert s + "" == s;
        ValueOfDecimal(p);
      }
    }
  }

  /** What follows the family's prefix: its letters, and the rest. */
  function Drive(s: string, f: Family): string
    requires Prefix(f) <= s
  {
    var t := s[|Prefix(f)|..];
    t[..LetterRun(t)]
  }

  function Tail(s: string, f: Family): string
    requires Prefix(f) <= s
  {
    var t := s[|Prefix(f)|..];
    t[LetterRun(t)..]
  }

  /**
   * A text that is accepted is the text of a valid name if and only if it has a drive letter and
   * its partition is plain digits below 2^63. The others are accepted all the same: no letter gives
   * disk -1, and strtoul also takes signs, white space and numbers that wrap around in a long.
   */
  lemma AcceptedIsName(s: string, f: Family)
    requires MatchIn(s, f).Match?
    ensures (exists n :: Valid(n) && n.family == f && s == Text(n)) <==> Drive(s, f) != "" && IsCanonical(Tail(s, f))
    ensures Drive(s, f) != "" && IsCanonical(Tail(s, f)) ==>
      var m := MatchIn(s, f); m.index >= 0 && m.partition >= 0 && s == Text(Name(f, m.index, m.partition))
  {
    hide PartitionOf, IndexOf, LetterRun, Letters, PartitionText, IsCanonical;
    var m, drive, tail := MatchIn(s, f), Drive(s, f), Tail(s, f);
    CanonicalPartition(tail, MaxPartition(f));
    if drive != "" && IsCanonical(tail) {
      LettersOfIndex(drive);
      assert s == Prefix(f) + (drive + tail);
      assert Valid(Name(f, m.index, m.partition));
    }
    forall n | Valid(n) && n.family == f && s == Text(n) ensures drive != "" && IsCanonical(tail) {
      PartitionIs(n.partition, MaxPartition(f));
      assert s[|Prefix(f)|..] == Letters(n.disk) + PartitionText(n.partition);
      LetterRunOf(Letters(n.disk), PartitionText(n.partition));
    }
  }

  // ----- libxl__device_disk_dev_number -----

  /** A number of sscanf's `%i` or of strtoul(…, 0): the base is in the text. */
  function Digit(c: char): nat {
    if '0' <= c <= '9' then (c - '0') as int
    else if 'a' <= c <= 'f' then 10 + (c - 'a') as int
    else if 'A' <= c <= 'F' then 10 + (c - 'A') as int
    else 99
  }

  function DigitsIn(s: string, base: nat): (k: nat)
    ensures k <= |s|
  {
    if s == "" || Digit(s[0]) >= base then 0 else 1 + DigitsIn(s[1..], base)
  }

  function ValueIn(s: string, base: nat): nat {
    if s == "" then 0 else base * ValueIn(s[..|s| - 1], base) + Digit(s[|s| - 1])
  }

  /** `0x` and a hexadecimal digit. */
  predicate HexAhead(s: string) { |s| > 2 && s[0] == '0' && (s[1] == 'x' || s[1] == 'X') && Digit(s[2]) < 16 }

  /** The magnitude, the sign and the characters used. */
  datatype Number = Number(magnitude: nat, minus: bool, used: nat)

  function ScanInt(s: string): (r: Option<Number>)
    ensures r.Some? ==> 0 < r.value.used <= |s|
  {
    var skipped := Spaces(s);
    var sign := skipped < |s| && (s[skipped] == '-' || s[skipped] == '+');
    var digits := if sign then s[skipped + 1..] else s[skipped..];
    var hex := HexAhead(digits);
    var base := if hex then 16 else if digits != "" && digits[0] == '0' then 8 else 10;
    var body := if hex then digits[2..] else digits;
    var k := DigitsIn(body, base);
    if k == 0 then None
    else Some(Number(ValueIn(body[..k], base), sign && s[skipped] == '-', |s| - |body| + k))
  }

  /** What `%i` stores: a long that saturates, cut down to an int. */
  function StoredInt(n: Number): int {
    var signed: int := if n.minus then 0 - n.magnitude else n.magnitude;
    ToInt(if signed < -TWO63 then -TWO63 else if signed >= TWO63 then TWO63 - 1 else signed)
  }

  /** sscanf(s, "d%ip%i%n", …) if it uses up the whole text. */
  function ScanDisk(s: string): Match {
    if s == "" || s[0] != 'd' then NoMatch
    else
      var disk := ScanInt(s[1..]);
      var rest := if disk.None? then "" else s[1 + disk.value.used..];
      if rest == "" || rest[0] != 'p' then NoMatch
      else
        var partition := ScanInt(rest[1..]);
        if partition.None? || partition.value.used < |rest| - 1 then NoMatch
        else Match(StoredInt(disk.value), StoredInt(partition.value))
  }

  /** strtoul(s, &ep, 0) if it uses up the text, does not overflow and fits an int; the empty text is 0. */
  function PlainNumber(s: string): Option<nat> {
    var n := ScanInt(s);
    if s == "" then Some(0)
    else if n.None? || n.value.used < |s| || n.value.magnitude > ULONG_MAX then None
    else
      var ul := if n.value.minus && n.value.magnitude > 0 then ULONG_MAX + 1 - n.value.magnitude else n.value.magnitude;
      if ul <= INT_MAX then Some(ul) else None
  }

  /** The 32 bits of an int. */
  function Word(x: int): (w: nat)
    ensures w < TWO32 && (0 <= x < TWO32 ==> w == x)
  {
    x % TWO32
  }

  /** Bitwise or of two numbers, bit by bit. */
  function Or(a: nat, b: nat): nat
    decreases a + b
  {
    if a == 0 && b == 0 then 0 else 2 * Or(a / 2, b / 2) + (if a % 2 == 1 || b % 2 == 1 then 1 else 0)
  }

  /** The shifts and ors, on 32 bits. */
  function XvdNumber(disk: int, partition: int): nat {
    if disk <= 15 && partition <= 15 then Or(Or(202 * 0x100, Word(Word(disk) * 0x10)), Word(partition))
    else Or(Or(0x1000_0000, Word(Word(disk) * 0x100)), Word(partition))
  }

  function HdNumber(disk: int, partition: int): nat {
    Or(Or((if disk < 2 then 3 else 22) * 0x100, Word(disk) % 2 * 0x40), Word(partition))
  }

  function SdNumber(disk: int, partition: int): nat {
    Or(Or(8 * 0x100, Word(Word(disk) * 0x10)), Word(partition))
  }

  function DevNumber(virtpath: string): nat {
    var d := ScanDisk(virtpath);
    var x := if d.Match? && d.index < 0x10_0000 && d.partition < 256 then d else MatchIn(virtpath, Xvd);
    if x.Match? then XvdNumber(x.index, x.partition)
    else
      var ul := PlainNumber(virtpath);
      if ul.Some? then ul.value
      else
        var h := MatchIn(virtpath, Hd);
        if h.Match? then HdNumber(h.index, h.partition)
        else
          var s := MatchIn(virtpath, Sd);
          if s.Match? then SdNumber(s.index, s.partition) else TWO32 - 1
  }

  function NumberOf(n: Name): nat {
    match n.family
    case Xvd => XvdNumber(n.disk, n.partition)
    case Hd => HdNumber(n.disk, n.partition)
    case Sd => SdNumber(n.disk, n.partition)
  }

  /** The same with the loop of device_virtdisk_matches; the result is the 32 bits of the int. */
  method DiskDevNumber(virtpath: string) returns (r: nat)
    ensures r == DevNumber(virtpath)
  {
    hide Matches, ScanDisk, PlainNumber, XvdNumber, HdNumber, SdNumber;
    var d := ScanDisk(virtpath);
    if !(d.Match? && d.index < 0x10_0000 && d.partition < 256) {
      d := DeviceVirtdiskMatches(virtpath, "xvd", 0xF_FFFF, 255);
    }
    if d.Match? {
      return XvdNumber(d.index, d.partition);
    }
    var ul := PlainNumber(virtpath);
    if ul.Some? {
      return ul.value;
    }
    d := DeviceVirtdiskMatches(virtpath, "hd", 3, 63);
    if d.Match? {
      return HdNumber(d.index, d.partition);
    }
    d := DeviceVirtdiskMatches(virtpath, "sd", 15, 15);
    if d.Match? {
      return SdNumber(d.index, d.partition);
    }
    r := TWO32 - 1;
  }

  lemma NotANumber(s: string)
    requires s != "" && (s[0] == 'x' || s[0] == 'h' || s[0] == 's')
    ensures ScanInt(s) == None
  {
    assert s[0..] == s;
  }

  /** A valid name gets the number of its own family. */
  lemma DevNumberOf(n: Name)
    requires Valid(n)
    ensures DevNumber(Text(n)) == NumberOf(n)
  {
    hide ScanInt, XvdNumber, HdNumber, SdNumber, Letters, PartitionText;
    var s := Text(n);
    assert s[0] == Prefix(n.family)[0];
    NotANumber(s);
    MatchesText(n);
    NoOtherFamily(n);
  }

  lemma NoOtherFamily(n: Name)
    ensures forall f :: f != n.family ==> MatchIn(Text(n), f).NoMatch?
  {
    hide PartitionOf, IndexOf, Letters, PartitionText;
    forall f | f != n.family ensures MatchIn(Text(n), f).NoMatch? {
      assert Text(n)[0] == Prefix(n.family)[0];
      assert Prefix(f)[0] != Prefix(n.family)[0];
    }
  }

  // ----- the numbers are different -----

  lemma {:induction false} OrZero(a: nat)
    ensures Or(a, 0) == a
  {
    if a > 0 {
      OrZero(a / 2);
    }
  }

  /** Or of bit fields that do not overlap is their sum. */
  lemma {:induction false} OrAbove(a: nat, b: nat, k: nat)
    requires b < Pow2(k)
    ensures Or(a * Pow2(k), b) == a * Pow2(k) + b
  {
    if k == 0 {
      OrZero(a);
    } else {
      var high := a * Pow2(k - 1);
      assert a * Pow2(k) == 2 * high;
      OrAbove(a, b / 2, k - 1);
      OrDoubles(high, b);
    }
  }

  lemma OrDoubles(high: nat, b: nat)
    ensures Or(2 * high, b) == 2 * Or(high, b / 2) + b % 2
  {
  }

  lemma OrBytes(a: nat, b: nat)
    ensures b < 0x10 ==> Or(0x10 * a, b) == 0x10 * a + b
    ensures b < 0x40 ==> Or(0x40 * a, b) == 0x40 * a + b
    ensures b < 0x100 ==> Or(0x100 * a, b) == 0x100 * a + b
    ensures b < 0x1000_0000 ==> Or(0x1000_0000 * a, b) == 0x1000_0000 * a + b
  {
    hide Or;
    Pow2At64();
    assert Pow2(6) == 0x40 && Pow2(8) == 0x100 && Pow2(16) == 0x1_0000 && Pow2(24) == 0x100_0000 && Pow2(28) == 0x1000_0000;
    if b < 0x10 { OrAbove(a, b, 4); }
    if b < 0x40 { OrAbove(a, b, 6); }
    if b < 0x100 { OrAbove(a, b, 8); }
    if b < 0x1000_0000 { OrAbove(a, b, 28); }
  }

  /** The numbers of the four layouts: the fields are added up, so they can be read back. */
  lemma NumberIs(n: Name)
    requires Valid(n)
    ensures var d, p := n.disk, n.partition;
      NumberOf(n) == match n.family
        case Xvd => if d <= 15 && p <= 15 then 51712 + 16 * d + p else 0x1000_0000 + 256 * d + p
        case Hd => if d < 2 then 768 + 64 * d + p else 5632 + 64 * (d - 2) + p
        case Sd => 2048 + 16 * d + p
  {
    hide Or;
    var d, p := n.disk, n.partition;
    match n.family {
      case Xvd =>
        if d <= 15 && p <= 15 {
          OrBytes(202, 0x10 * d);
          OrBytes(3232 + d, p);
        } else {
          OrBytes(1, 0x100 * d);
          OrBytes(0x10_0000 + d, p);
        }
      case Hd =>
        var c := if d < 2 then 3 else 22;
        OrBytes(c, d % 2 * 0x40);
        OrBytes(4 * c + d % 2, p);
      case Sd =>
        OrBytes(8, 0x10 * d);
        OrBytes(128 + d, p);
    }
  }

  /** No two valid names, of one family or of different ones, share a device number. */
  lemma NumbersAreDifferent(a: Name, b: Name)
    requires Valid(a) && Valid(b) && DevNumber(Text(a)) == DevNumber(Text(b))
    ensures a == b
  {
    hide DevNumber, Text, NumberOf;
    DevNumberOf(a);
    DevNumberOf(b);
    NumberIs(a);
    NumberIs(b);
  }

  // ----- the other spellings -----

  lemma {:induction false} DigitsOfDecimal(s: string, rest: string)
    requires (forall i :: 0 <= i < |s| ==> IsDigit(s[i])) && (rest == "" || Digit(rest[0]) >= 10)
    ensures DigitsIn(s + rest, 10) == |s|
  {
    if s == "" {
      assert s + rest == rest;
    } else {
      assert (s + rest)[1..] == s[1..] + rest;
      DigitsOfDecimal(s[1..], rest);
    }
  }

  lemma {:induction false} ValueInTen(s: string)
    requires forall i :: 0 <= i < |s| ==> IsDigit(s[i])
    ensures ValueIn(s, 10) == Value(s)
  {
    if s != "" {
      ValueInTen(s[..|s| - 1]);
    }
  }

  /** `%i` reads what `%d` prints; zero is octal, with the same value. */
  lemma ScanOfDecimal(n: nat, rest: string)
    requires rest == "" || rest[0] == 'p'
    ensures ScanInt(Decimal(n) + rest) == Some(Number(n, false, |Decimal(n)|))
  {
    hide DigitsIn, ValueIn, Value, Spaces;
    var d := Decimal(n);
    var s := d + rest;
    assert s[0] == d[0] && IsDigit(d[0]);
    NoSpaces(s);
    assert s[0..] == s;
    if n == 0 {
      ZeroIsOctal(s);
    } else {
      DigitsOfDecimal(d, rest);
      assert s[..|d|] == d;
      ValueInTen(d);
      ValueOfDecimal(n);
    }
  }

  lemma NoSpaces(s: string)
    requires s != "" && IsDigit(s[0])
    ensures Spaces(s) == 0
  {
  }

  lemma ZeroIsOctal(s: string)
    requires s != "" && s[0] == '0' && (|s| == 1 || s[1] == 'p')
    ensures DigitsIn(s, 8) == 1 && ValueIn(s[..1], 8) == 0 && !HexAhead(s)
  {
    assert s[..1] == ['0'] && s[..1][..0] == "";
  }

  /** "d<disk>p<partition>" is another spelling of the xvd name with the same fields. */
  lemma NumericSpelling(disk: nat, partition: nat)
    requires Valid(Name(Xvd, disk, partition))
    ensures DevNumber("d" + Decimal(disk) + "p" + Decimal(partition)) == DevNumber(Text(Name(Xvd, disk, partition)))
  {
    hide ScanDisk, XvdNumber, HdNumber, SdNumber, Decimal, Text, PlainNumber, MatchIn;
    DevNumberOf(Name(Xvd, disk, partition));
    ScansSpelling(disk, partition);
  }

  lemma ScansSpelling(disk: nat, partition: nat)
    requires disk <= INT_MAX && partition <= INT_MAX
    ensures ScanDisk("d" + Decimal(disk) + "p" + Decimal(partition)) == Match(disk, partition)
  {
    hide ScanInt, Decimal, StoredInt;
    var d, p := Decimal(disk), Decimal(partition);
    SpellingParts(d, p);
    ScanOfDecimal(disk, "p" + p);
    ScanOfDecimal(partition, "");
    StoredSmall(disk, |d|);
    StoredSmall(partition, |p|);
  }

  lemma SpellingParts(d: string, p: string)
    ensures var s := "d" + d + "p" + p;
      s[0] == 'd' && s[1..] == d + ("p" + p) && s[1 + |d|..] == "p" + p && ("p" + p)[1..] == p && p + "" == p
  {
  }

  lemma StoredSmall(n: nat, used: nat)
    requires n <= INT_MAX
    ensures StoredInt(Number(n, false, used)) == n
  {
  }

  /** A drive letter is missing, yet the name is accepted: "hd" gets the number of "hdb". */
  lemma BareHd()
    ensures DevNumber("hd") == DevNumber("hdb") == 832
  {
    hide ScanInt, HdNumber;
    NotANumber("hd");
    assert "hd"[2..] == "" && ""[..0] == "";
    BareHdNumber();
    assert Text(Name(Hd, 1, 0)) == "hdb" by { assert Letters(1) == "b"; }
    DevNumberOf(Name(Hd, 1, 0));
    NumberIs(Name(Hd, 1, 0));
  }

  lemma BareHdNumber()
    ensures HdNumber(-1, 0) == 832
  {
    hide Or;
    OrBytes(3, 0x40);
    OrBytes(13, 0);
  }
}
