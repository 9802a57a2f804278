/** The CPU argument of vcpupin in xl_cmdimpl.c, and why it reads back what print_bitmap printed. */
module CpuPin {
  import opened Numbers
  import opened CpuMap
  import opened Widths

  // ----- strtok(…, ",") -----

  datatype Token = NoToken | Token(text: string, rest: string)

  function TokenEnd(s: string): (k: nat)
    ensures k <= |s| && ',' !in s[..k] && (k < |s| ==> s[k] == ',')
  {
    if s == [] || s[0] == ',' then 0 else 1 + TokenEnd(s[1..])
  }

  /** Skips commas; what follows up to the next comma is the token. */
  function Strtok(s: string): (t: Token)
    ensures t.Token? ==> |t.rest| < |s| && t.text != [] && ',' !in t.text
    ensures t.NoToken? <==> forall i :: 0 <= i < |s| ==> s[i] == ','
  {
    if s == [] then NoToken
    else if s[0] == ',' then Strtok(s[1..])
    else
      var k := TokenEnd(s);
      Token(s[..k], if k < |s| then s[k + 1..] else [])
  }

  function Tokens(s: string): seq<string>
    decreases |s|
  {
    var t := Strtok(s);
    if t.NoToken? then [] else [t.text] + Tokens(t.rest)
  }

  lemma {:induction false} TokenEndOf(s: string, rest: string)
    requires ',' !in s
    ensures TokenEnd(s) == |s| && TokenEnd(s + "," + rest) == |s|
  {
    if s == [] {
      assert (s + "," + rest)[0] == ',';
    } else {
      TokenEndOf(s[1..], rest);
      assert (s + "," + rest)[1..] == s[1..] + "," + rest;
    }
  }

  lemma {:induction false} StrtokBefore(s: string, rest: string)
    ensures Strtok(s).NoToken? ==> Strtok(s + "," + rest) == Strtok(rest)
    ensures Strtok(s).Token? ==>
      var t := Strtok(s + "," + rest);
      t.Token? && t.text == Strtok(s).text && (t.rest == Strtok(s).rest + "," + rest || (t.rest == rest && Strtok(s).rest == []))
  {
    var all := s + "," + rest;
    if s == [] {
      assert all[1..] == rest;
    } else if s[0] == ',' {
      StrtokBefore(s[1..], rest);
      assert all[1..] == s[1..] + "," + rest;
    } else {
      var k := TokenEnd(s);
      TokenEndOf(s[..k], if k < |s| then s[k + 1..] + "," + rest else rest);
      assert all == s[..k] + "," + if k < |s| then s[k + 1..] + "," + rest else rest;
      assert all[..k] == s[..k];
      assert all[k + 1..] == if k < |s| then s[k + 1..] + "," + rest else rest;
    }
  }

  /** A comma parts the tokens before it from those behind it, however many are empty. */
  lemma {:induction false} TokensSplit(s: string, rest: string)
    ensures Tokens(s + "," + rest) == Tokens(s) + Tokens(rest)
    decreases |s|
  {
    hide Strtok;
    StrtokBefore(s, rest);
    var t := Strtok(s);
    if t.Token? {
      if Strtok(s + "," + rest).rest == t.rest + "," + rest {
        TokensSplit(t.rest, rest);
      }
    }
  }

  // ----- what one token and a list of tokens mean -----

  /** Endless: the call does not return. */
  datatype Pin = Invalid | Endless | All | Pinned(cpus: set<nat>)

  /** The numbers from `a` to below `end`. */
  function Span(a: nat, end: nat): (r: set<nat>)
    ensures forall k: nat :: k in r <==> a <= k < end
  {
    if end <= a then {} else Span(a, end - 1) + {end - 1}
  }

  // ----- `while (cpuida <= cpuidb)` on a 32-bit counter -----

  /** The counter after `n` rounds of `++cpuida`. */
  function Counter(a: nat, n: nat): nat {
    if n == 0 then a else (Counter(a, n - 1) + 1) % TWO32
  }

  /** The CPUs set in `n` rounds. */
  function Visited(a: nat, n: nat): set<nat> {
    if n == 0 then {} else Visited(a, n - 1) + {Counter(a, n - 1)}
  }

  /** The loop ends after `n` rounds. */
  ghost predicate LeavesAfter(a: nat, b: nat, n: nat) {
    Counter(a, n) > b && forall m :: 0 <= m < n ==> Counter(a, m) <= b
  }

  /** What the loop does: the CPUs of all its rounds, if it ends. */
  ghost function RangePin(a: nat, b: nat): Pin {
    if exists n: nat :: LeavesAfter(a, b, n) then
      var n: nat :| LeavesAfter(a, b, n);
      Pinned(Visited(a, n))
    else Endless
  }

  lemma {:induction false} CounterIs(a: nat, n: nat)
    requires a < TWO32 && a + n < 2 * TWO32
    ensures Counter(a, n) == if a + n < TWO32 then a + n else a + n - TWO32
  {
    if n > 0 {
      CounterIs(a, n - 1);
    }
  }

  lemma {:induction false} VisitedIs(a: nat, n: nat)
    requires a < TWO32 && a + n <= TWO32
    ensures Visited(a, n) == Span(a, a + n)
  {
    if n > 0 {
      VisitedIs(a, n - 1);
      CounterIs(a, n - 1);
    }
  }

  /** The counter wraps around. */
  lemma {:induction false} CounterSmall(a: nat, n: nat)
    requires a < TWO32
    ensures Counter(a, n) < TWO32
  {
    if n > 0 {
      CounterSmall(a, n - 1);
    }
  }

  lemma LeavesIff(a: nat, b: nat, n: nat)
    requires a <= b < TWO32
    ensures LeavesAfter(a, b, n) <==> b < TWO32 - 1 && n == b + 1 - a
  {
    if b == TWO32 - 1 {
      CounterSmall(a, n);
    } else {
      forall m | 0 <= m <= b + 1 - a ensures Counter(a, m) == a + m {
        CounterIs(a, m);
      }
      assert Counter(a, b + 1 - a) == b + 1;
    }
  }

  /** The loop never ends, and every value of the counter stays at most b, if and only if b == 2^32 - 1; otherwise
      it ends and has set exactly the CPUs from a to b. */
  lemma RangeExactly(a: nat, b: nat)
    requires a <= b < TWO32
    ensures (forall n: nat :: Counter(a, n) <= b) <==> b == TWO32 - 1
    ensures RangePin(a, b) == if b == TWO32 - 1 then Endless else Pinned(Span(a, b + 1))
  {
    hide Counter, Visited, Span;
    var rounds := b + 1 - a;
    forall n: nat ensures LeavesAfter(a, b, n) <==> b < TWO32 - 1 && n == rounds {
      LeavesIff(a, b, n);
    }
    if b == TWO32 - 1 {
      forall n: nat ensures Counter(a, n) <= b { CounterSmall(a, n); }
    } else {
      LeavesThen(a, b, rounds);
      VisitedIs(a, rounds);
      assert a + rounds == b + 1;
    }
  }

  lemma LeavesThen(a: nat, b: nat, n: nat)
    requires a <= b < TWO32 - 1 && n == b + 1 - a
    ensures LeavesAfter(a, b, n) && Counter(a, n) > b
  {
    LeavesIff(a, b, n);
  }

  /** The numbers read from a token: one, or two with a '-' between them. */
  ghost function PinNumbers(first: Parsed, range: bool, second: Parsed): Pin {
    var cpuida, cpuidb := first.value % TWO32, second.value % TWO32;
    if first.used == 0 then Invalid
    else if !range then Pinned({cpuida})
    else if second.used == 0 || cpuida > cpuidb then Invalid
    else RangePin(cpuida, cpuidb)
  }

  predicate DashAt(tok: string, k: nat) { k < |tok| && tok[k] == '-' }

  ghost function PinToken(tok: string): Pin {
    var first := Strtoul(tok);
    var range := DashAt(tok, first.used);
    PinNumbers(first, range, if range then Strtoul(tok[first.used + 1..]) else Parsed(0, 0))
  }

  /** The first token that is invalid or endless decides; otherwise every token adds its CPUs. */
  ghost function PinTokens(tokens: seq<string>): Pin {
    if tokens == [] then Pinned({})
    else
      var p := PinToken(tokens[0]);
      if p.Pinned? then Adding(p.cpus, PinTokens(tokens[1..])) else p
  }

  function Adding(cpus: set<nat>, p: Pin): Pin {
    if p.Pinned? then Pinned(cpus + p.cpus) else p
  }

  ghost function PinOf(cpu: string): Pin {
    if cpu == "all" then All else PinTokens(Tokens(cpu))
  }

  // ----- the loops -----

  method PinCpus(cpu: string) returns (r: Pin)
    ensures r == PinOf(cpu)
  {
    if cpu == "all" {
      return All;
    }
    var cpumap: set<nat> := {};
    var toka := Strtok(cpu);
    ghost var tokens := Tokens(cpu);
    while toka.Token?
      invariant tokens == if toka.NoToken? then [] else [toka.text] + Tokens(toka.rest)
      invariant PinTokens(Tokens(cpu)) == Adding(cpumap, PinTokens(tokens))
      decreases if toka.Token? then |toka.rest| + 1 else 0
    {
      var p := PinOne(toka.text, cpumap);
      if !p.Pinned? {
        return p;
      }
      AddingTwice(cpumap, PinToken(toka.text).cpus, PinTokens(Tokens(toka.rest)));
      cpumap := p.cpus;
      tokens := Tokens(toka.rest);
      toka := Strtok(toka.rest);
    }
    r := Pinned(cpumap);
  }

  lemma AddingTwice(a: set<nat>, b: set<nat>, p: Pin)
    ensures Adding(a, Adding(b, p)) == Adding(a + b, p)
  {
    if p.Pinned? { assert a + (b + p.cpus) == a + b + p.cpus; }
  }

  /** The range loop, watched for 2^32 rounds: a 32-bit counter that is still in the loop then has taken all its
      values, and is back where it started. */
  method SetRange(cpus: set<nat>, from: nat, cpuidb: nat) returns (r: Pin)
    requires from <= cpuidb < TWO32
    ensures r == Adding(cpus, RangePin(from, cpuidb))
  {
    var cpumap, cpuida := cpus, from;
    var round: nat := 0;
    while cpuida <= cpuidb
      invariant round <= TWO32 && cpuida == Counter(from, round) && cpumap == cpus + Visited(from, round)
      invariant forall m :: 0 <= m < round ==> Counter(from, m) <= cpuidb
      decreases TWO32 - round
    {
      if round == TWO32 {
        AllValuesTaken(from, cpuidb);
        return Endless;
      }
      cpumap := cpumap + {cpuida};
      cpuida := (cpuida + 1) % TWO32;
      round := round + 1;
    }
    assert LeavesAfter(from, cpuidb, round);
    Leaves(from, cpuidb, round);
    r := Pinned(cpumap);
  }

  lemma AllValuesTaken(a: nat, b: nat)
    requires a <= b < TWO32 && forall m :: 0 <= m < TWO32 ==> Counter(a, m) <= b
    ensures RangePin(a, b) == Endless
  {
    CounterIs(a, TWO32 - 1 - a);
    RangeExactly(a, b);
  }

  lemma Leaves(a: nat, b: nat, n: nat)
    requires a <= b < TWO32 && LeavesAfter(a, b, n)
    ensures RangePin(a, b) == Pinned(Visited(a, n))
  {
    hide LeavesAfter;
    forall m: nat ensures LeavesAfter(a, b, m) ==> m == n {
      LeavesIff(a, b, m);
      LeavesIff(a, b, n);
    }
  }

  lemma PinTokenIs(tok: string, first: Parsed)
    requires Strtoul(tok) == first
    ensures !DashAt(tok, first.used) ==> PinToken(tok) == PinNumbers(first, false, Parsed(0, 0))
    ensures DashAt(tok, first.used) ==> PinToken(tok) == PinNumbers(first, true, Strtoul(tok[first.used + 1..]))
  {
    hide Strtoul, PinNumbers;
  }

  /** One round of the token loop. */
  method PinOne(toka: string, cpus: set<nat>) returns (r: Pin)
    ensures r == Adding(cpus, PinToken(toka))
  {
    hide Strtoul, PinToken, RangePin;
    var cpumap := cpus;
    var first := Strtoul(toka);
    var cpuida := first.value % TWO32;
    PinTokenIs(toka, first);
    if first.used == 0 {
      return Invalid;
    }
    if DashAt(toka, first.used) {
      var second := Strtoul(toka[first.used + 1..]);
      var cpuidb := second.value % TWO32;
      if second.used == 0 || cpuida > cpuidb {
        return Invalid;
      }
      r := SetRange(cpumap, cpuida, cpuidb);
      return;
    } else {
      cpumap := cpumap + {cpuida};
    }
    r := Pinned(cpumap);
  }

  // ----- round trip -----

  lemma RunTextShape(r: Run)
    ensures ',' !in RunText(r) && RunText(r) != [] && IsDigit(RunText(r)[0])
  {
    var a, b := Decimal(r.first), Decimal(r.last);
    if r.last > r.first {
      assert (a + "-" + b)[0] == a[0];
    }
  }

  lemma RangeText(a: string, b: string)
    requires ',' !in b
    ensures var text := a + ("-" + b); DashAt(text, |a|) && text[|a| + 1..] == b
  {
  }

  /** "a-b" pins the CPUs from a to b, except that b == 2^32 - 1 hangs the loop. */
  lemma EndlessExactly(first: nat, last: nat)
    requires first <= last < TWO32
    ensures PinToken(Decimal(first) + ("-" + Decimal(last))) == if last == TWO32 - 1 then Endless else Pinned(Span(first, last + 1))
  {
    hide PinToken, Strtoul, Decimal, RangePin;
    RangeExactly(first, last);
    var a, b := Decimal(first), Decimal(last);
    assert b + [] == b;
    StrtoulOfDecimal(first, "-" + b);
    StrtoulOfDecimal(last, []);
    RangeText(a, b);
    PinTokenIs(a + ("-" + b), Parsed(first, |a|));
  }

  lemma PinOfRun(r: Run)
    requires r.first <= r.last < INT_MAX
    ensures PinToken(RunText(r)) == Pinned(Span(r.first, r.last + 1))
  {
    hide PinToken, Strtoul, Decimal;
    var a, b := Decimal(r.first), Decimal(r.last);
    if r.last > r.first {
      assert RunText(r) == a + "-" + b == a + ("-" + b);
      EndlessExactly(r.first, r.last);
    } else {
      assert a + [] == a;
      StrtoulOfDecimal(r.first, []);
      PinTokenIs(a, Parsed(r.first, |a|));
      assert Span(r.first, r.first + 1) == {r.first};
    }
  }

  lemma TokensOfOne(s: string)
    requires s != [] && ',' !in s
    ensures Tokens(s) == [s]
  {
    TokenEndOf(s, []);
    assert s[..|s|] == s;
  }

  lemma NoTokens()
    ensures Tokens("") == []
  {
  }

  function Texts(runs: seq<Run>): seq<string> { seq(|runs|, i requires 0 <= i < |runs| => RunText(runs[i])) }

  lemma {:induction false} TokensOfRuns(runs: seq<Run>)
    requires forall i :: 0 <= i < |runs| ==> runs[i].first <= runs[i].last < INT_MAX
    ensures Tokens(RunsText(runs)) == Texts(runs)
  {
    hide Tokens, RunText;
    if runs == [] {
      NoTokens();
    } else {
      var front, last := runs[..|runs| - 1], runs[|runs| - 1];
      RunTextShape(last);
      TokensOfOne(RunText(last));
      TokensOfRuns(front);
      assert Texts(runs) == Texts(front) + [RunText(last)];
      if front != [] {
        TokensSplit(RunsText(front), RunText(last));
      } else {
        assert RunsText(runs) == RunText(last);
      }
    }
  }

  lemma {:induction false} PinTokensOfRuns(runs: seq<Run>)
    requires forall i :: 0 <= i < |runs| ==> runs[i].first <= runs[i].last < INT_MAX
    ensures PinTokens(Texts(runs)).Pinned?
    ensures forall k: nat :: k in PinTokens(Texts(runs)).cpus <==> Covered(runs, k)
  {
    if runs != [] {
      PinOfRun(runs[0]);
      assert Texts(runs)[1..] == Texts(runs[1..]);
      PinTokensOfRuns(runs[1..]);
      forall k: nat ensures Covered(runs, k) <==> runs[0].first <= k <= runs[0].last || Covered(runs[1..], k) {
        CoveredByRest(runs, k);
      }
    }
  }

  lemma CoveredByRest(runs: seq<Run>, k: nat)
    requires runs != []
    ensures Covered(runs, k) <==> runs[0].first <= k <= runs[0].last || Covered(runs[1..], k)
  {
    var rest := runs[1..];
    if Covered(rest, k) {
      var j :| 0 <= j < |rest| && rest[j].first <= k <= rest[j].last;
      assert runs[j + 1] == rest[j];
    }
    if Covered(runs, k) {
      var j :| 0 <= j < |runs| && runs[j].first <= k <= runs[j].last;
      if j > 0 { assert rest[j - 1] == runs[j]; }
    }
  }

  lemma {:induction false} RunsTextStarts(runs: seq<Run>)
    requires runs != [] && forall i :: 0 <= i < |runs| ==> runs[i].first <= runs[i].last < INT_MAX
    ensures RunsText(runs) != [] && IsDigit(RunsText(runs)[0])
  {
    RunTextShape(runs[|runs| - 1]);
    if |runs| > 1 {
      RunsTextStarts(runs[..|runs| - 1]);
    }
  }

  /** "none" and "any cpu" are one token each, and neither starts with a number. */
  lemma WordIsInvalid(s: string)
    requires s != [] && s != "all" && ',' !in s && 'a' <= s[0] <= 'z'
    ensures PinOf(s) == Invalid
  {
    TokensOfOne(s);
    assert s[0..] == s;
  }

  /**
   * vcpupin reads what print_bitmap printed and pins exactly the CPUs of the bitmap; it does
   * so if and only if the bitmap has both set and clear bits ("none" and "any cpu" are refused).
   */
  lemma PinOfPrinted(bits: seq<bool>)
    requires |bits| <= INT_MAX
    ensures PinOf(Printed(bits)) ==
      if NoneSet(bits) || AllSet(bits) then Invalid else Pinned(set k: nat | k < |bits| && bits[k])
  {
    if NoneSet(bits) || AllSet(bits) {
      WordIsInvalid(Printed(bits));
    } else {
      var runs := Runs(bits);
      RunsAre(bits);
      TokensOfRuns(runs);
      PinTokensOfRuns(runs);
      var k :| 0 <= k < |bits| && bits[k];
      assert Covered(runs, k);
      RunsTextStarts(runs);
      var cpus := PinTokens(Texts(runs)).cpus;
      assert cpus == set k: nat | k < |bits| && bits[k];
    }
  }

  // ----- what is pinned, and what is refused -----

  lemma {:induction false} TokensPin(tokens: seq<string>)
    ensures PinTokens(tokens) != All
  {
    hide PinToken;
    if tokens != [] {
      TokenPins(tokens[0]);
      TokensPin(tokens[1..]);
    }
  }

  lemma TokenPins(tok: string)
    ensures PinToken(tok) != All
  {
    hide Strtoul, RangePin;
    var first := Strtoul(tok);
    if DashAt(tok, first.used) {
      var second := Strtoul(tok[first.used + 1..]);
      if first.value % TWO32 <= second.value % TWO32 { RangeExactly(first.value % TWO32, second.value % TWO32); }
    }
  }

  /** "all", and nothing else, is the whole map. */
  lemma AllExactly(cpu: string)
    ensures PinOf(cpu) == All <==> cpu == ['a', 'l', 'l']
  {
    TokensPin(Tokens(cpu));
  }

  lemma {:induction false} PinTokensJoin(a: seq<string>, b: seq<string>)
    ensures PinTokens(a + b) == if PinTokens(a).Pinned? then Adding(PinTokens(a).cpus, PinTokens(b)) else PinTokens(a)
  {
    hide PinToken;
    if a == [] {
      assert a + b == b;
    } else {
      assert (a + b)[1..] == a[1..] + b && (a + b)[0] == a[0];
      PinTokensJoin(a[1..], b);
    }
  }

  /** A list around a comma: what stands before it decides, unless it only pins; then all is pinned that either side pins. */
  lemma ListPins(a: string, b: string)
    requires a != "all" && b != "all"
    ensures PinOf(a + "," + b) == match PinOf(a)
      case Pinned(cpus) => (match PinOf(b) case Pinned(more) => Pinned(cpus + more) case other => other)
      case other => other
  {
    hide Tokens, PinTokens;
    TokensSplit(a, b);
    PinTokensJoin(Tokens(a), Tokens(b));
    assert (a + "," + b)[|a|] == ',';
    TokensPin(Tokens(a));
  }

  /** The first bad token decides for the whole list. */
  lemma FirstBadDecides(good: string, bad: string, rest: string)
    requires good != "all" && bad != "all" && rest != "all" && PinOf(good).Pinned? && PinOf(bad) == Invalid
    ensures PinOf(good + "," + (bad + "," + rest)) == Invalid
  {
    hide PinOf;
    assert (bad + "," + rest)[|bad|] == ',';
    ListPins(bad, rest);
    ListPins(good, bad + "," + rest);
  }

  /** Nothing is pinned by no token. */
  lemma NothingPinned()
    ensures PinOf("") == Pinned({})
  {
    NoTokens();
  }

  /** One token. */
  lemma OneToken(tok: string, first: Parsed)
    requires tok != [] && ',' !in tok && IsDigit(tok[0]) && Strtoul(tok) == first
    ensures PinOf(tok) == PinToken(tok)
    ensures !DashAt(tok, first.used) ==> PinOf(tok) == PinNumbers(first, false, Parsed(0, 0))
    ensures DashAt(tok, first.used) ==> PinOf(tok) == PinNumbers(first, true, Strtoul(tok[first.used + 1..]))
  {
    hide Strtoul, PinNumbers, PinToken, Tokens;
    TokensOfOne(tok);
    PinTokenIs(tok, first);
    assert [tok][1..] == [];
    TokenPins(tok);
    assert tok != "all";
    assert PinTokens([tok]) == PinToken(tok) by { OnlyToken(tok); }
  }

  lemma OnlyToken(tok: string)
    ensures PinTokens([tok]) == PinToken(tok)
  {
    hide PinToken;
    TokenPins(tok);
    assert [tok][1..] == [];
    if PinToken(tok).Pinned? { assert PinToken(tok).cpus + {} == PinToken(tok).cpus; }
  }

  /** A number pins its CPU, modulo 2^32; text behind it that is no dash is not looked at. */
  lemma OneCpu(a: nat, rest: string)
    requires a < 0x1_0000_0000_0000_0000 && ',' !in rest && (rest == [] || (!IsDigit(rest[0]) && rest[0] != '-'))
    ensures PinOf(Decimal(a) + rest) == Pinned({a % 0x1_0000_0000})
  {
    hide Strtoul, Decimal, PinOf, PinToken;
    var d := Decimal(a);
    StrtoulOfDecimal(a, rest);
    assert (d + rest)[0] == d[0];
    assert rest != [] ==> (d + rest)[|d|] == rest[0];
    OneToken(d + rest, Parsed(a, |d|));
  }

  /** A range that runs backwards is refused. */
  lemma BackwardIsInvalid(a: nat, b: nat)
    requires b < a < 0x1_0000_0000
    ensures PinOf(Decimal(a) + ("-" + Decimal(b))) == Invalid
  {
    hide Strtoul, Decimal, PinOf, PinToken, RangePin;
    var d, e := Decimal(a), Decimal(b);
    StrtoulOfDecimal(a, "-" + e);
    assert e + [] == e;
    StrtoulOfDecimal(b, []);
    RangeText(d, e);
    assert (d + ("-" + e))[0] == d[0];
    OneToken(d + ("-" + e), Parsed(a, |d|));
  }

  /** A range without an end is refused. */
  lemma OpenIsInvalid(a: nat)
    requires a < 0x1_0000_0000_0000_0000
    ensures PinOf(Decimal(a) + "-") == Invalid
  {
    hide Strtoul, Decimal, PinOf, PinToken, RangePin;
    var d := Decimal(a);
    StrtoulOfDecimal(a, "-");
    assert "-" + [] == "-";
    RangeText(d, []);
    assert (d + "-")[0] == d[0];
    StrtoulOfNone([], [], []);
    assert [] + ([] + []) == "";
    OneToken(d + "-", Parsed(a, |d|));
  }

  /** A range pins its CPUs, and hangs exactly if it ends at 2^32 - 1. */
  lemma ForwardPins(a: nat, b: nat)
    requires a <= b < 0x1_0000_0000
    ensures var p := PinOf(Decimal(a) + ("-" + Decimal(b)));
      if b == 0xFFFF_FFFF then p == Endless else p.Pinned? && forall k: nat :: k in p.cpus <==> a <= k <= b
  {
    hide Strtoul, Decimal, PinOf, PinToken;
    var d, e := Decimal(a), Decimal(b);
    EndlessExactly(a, b);
    StrtoulOfDecimal(a, "-" + e);
    assert (d + ("-" + e))[0] == d[0];
    OneToken(d + ("-" + e), Parsed(a, |d|));
  }
}
