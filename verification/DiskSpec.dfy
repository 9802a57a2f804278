/** parse_disk_config of xl_cmdimpl.c: a state machine that cuts its buffer up in place. */
module DiskSpec {
  import opened Wrappers

  datatype Format = UnknownFormat | Qcow | Qcow2 | Vhd | Raw | Preservation | Empty

  datatype Backend = UnknownBackend | PhyBackend | TapBackend | QdiskBackend

  /** libxl_device_disk; None stands for NULL. */
  datatype Disk = Disk(backend: Backend, format: Format, pdevPath: Option<string>, vdev: Option<string>,
                       isCdrom: bool, unpluggable: bool, readwrite: bool)

  /** memset(disk, 0, sizeof(*disk)). */
  const ZEROED := Disk(UnknownBackend, UnknownFormat, None, None, false, false, false)

  datatype DState = Initial | Tap | PhysPath | VirtPath | VirtType | Rw | Terminal

  // ----- what the text means, read from left to right -----

  /** How far `s` goes without a character of `stops`. */
  function Until(s: string, stops: string): (k: nat)
    ensures k <= |s| && (forall i :: 0 <= i < k ==> s[i] !in stops) && (k < |s| ==> s[k] in stops)
  {
    if s == [] || s[0] in stops then 0 else 1 + Until(s[1..], stops)
  }

  /** The tapdisk drivers that may stand behind "tap:", apart from "aio". */
  function Driver(tag: string): Option<(Backend, Format)> {
    if tag == "vhd" then Some((TapBackend, Vhd))
    else if tag == "qcow" then Some((QdiskBackend, Qcow))
    else if tag == "qcow2" then Some((QdiskBackend, Qcow2))
    else if tag == "raw" then Some((TapBackend, Raw))
    else if tag == "preservation" then Some((TapBackend, Preservation))
    else None
  }

  function ReadType(d: Disk, s: string): Option<Disk> {
    var k := Until(s, ":,");
    if k == |s| then None
    else if s[k] == ',' then ReadVirt(d.(format := Empty, backend := TapBackend, pdevPath := Some("")), s[k + 1..])
    else ReadTyped(d, s[..k], s[k + 1..])
  }

  function ReadTyped(d: Disk, tag: string, s: string): Option<Disk> {
    if tag == "phy" then ReadPath(d.(format := Raw, backend := PhyBackend), s)
    else if tag == "file" then ReadPath(d.(format := Raw, backend := TapBackend), s)
    else if tag == "tap" || tag == "tap2" then ReadTap(d, s)
    else None
  }

  function ReadTap(d: Disk, s: string): Option<Disk>
    decreases |s|
  {
    var k := Until(s, ":,");
    if k == |s| then None
    else if s[k] == ',' then ReadPath(d.(format := Raw, backend := TapBackend), s)
    else if s[..k] == "aio" then ReadTap(d, s[k + 1..])
    else ReadDriven(d, s[..k], s[k + 1..])
  }

  function ReadDriven(d: Disk, tag: string, s: string): Option<Disk> {
    var driver := Driver(tag);
    if driver.None? then None else ReadPath(d.(backend := driver.value.0, format := driver.value.1), s)
  }

  function ReadPath(d: Disk, s: string): Option<Disk> {
    var k := Until(s, ",");
    if k == |s| then None
    else ReadVirt(d.(pdevPath := NullIfEmpty(s[..k])), SkipIoemu(s[k + 1..]))
  }

  function NullIfEmpty(s: string): Option<string> { if s == "" then None else Some(s) }

  function SkipIoemu(s: string): string { if "ioemu:" <= s then s[6..] else s }

  function ReadVirt(d: Disk, s: string): Option<Disk> {
    var k := Until(s, ",:");
    var named := d.(vdev := Some(s[..k]));
    if k == 0 then (if s == "" then Some(d) else None)
    else if k == |s| then Some(named)
    else if s[k] == ':' then ReadVirtType(named, s[k + 1..])
    else ReadMode(named, s[k + 1..])
  }

  /** What follows the comma behind "cdrom" is never looked at. */
  function ReadVirtType(d: Disk, s: string): Option<Disk> {
    if s[..Until(s, ",")] == "cdrom" then Some(d.(isCdrom := true, unpluggable := true)) else None
  }

  function ReadMode(d: Disk, s: string): Option<Disk> {
    Some(d.(readwrite := s != "" && s[0] == 'w'))
  }

  function ReadDisk(text: string): Option<Disk> { ReadType(ZEROED, text) }

  // ----- the machine -----

  /** What is left to do in a state, with the token starting `s`. */
  function Rest(state: DState, d: Disk, s: string): Option<Disk> {
    match state
    case Initial => ReadType(d, s)
    case Tap => ReadTap(d, s)
    case PhysPath => ReadPath(d, s)
    case VirtPath => ReadVirt(d, s)
    case VirtType => ReadVirtType(d, s)
    case Rw => ReadMode(d, s)
    case Terminal => Some(d)
  }

  function Stops(state: DState): string {
    match state
    case Initial => ":,"
    case Tap => ":,"
    case PhysPath => ","
    case VirtPath => ",:"
    case VirtType => ","
    case Rw => ""
    case Terminal => ""
  }

  /** The local variables of parse_disk_config. */
  datatype Locals = Locals(state: DState, disk: Disk, tok: nat, p: nat)

  /** At the head of the loop: nothing from `tok` to before `p` ends the token. */
  ghost predicate At(text: string, v: Locals) {
    if v.state.Terminal? then v.tok == v.p <= |text| + 1 && ReadDisk(text) == Some(v.disk)
    else
      && v.tok <= |text| && v.tok <= v.p <= |text| + 1
      && (forall k :: v.tok <= k < v.p && k < |text| ==> text[k] !in Stops(v.state))
      && (v.p > |text| ==> v.state == Initial || v.state == Tap || v.state == PhysPath)
      && ReadDisk(text) == Rest(v.state, v.disk, text[v.tok..])
  }

  /** The buffer from `tok` on still holds the text and its terminator. */
  ghost predicate Ahead(b: seq<char>, text: string, tok: nat) {
    && |b| == |text| + 1 && '\0' !in text
    && forall k :: tok <= k < |b| ==> b[k] == if k < |text| then text[k] else '\0'
  }

  /** How a round of the loop ends: go on, `goto out`, or `return 0`. */
  datatype Round = Go(v: Locals) | Out(v: Locals) | Bad

  ghost predicate After(text: string, r: Round) {
    match r
    case Go(v) => At(text, v.(p := v.p + 1))
    case Out(v) => v.tok == v.p && ReadDisk(text) == if v.state.Terminal? then Some(v.disk) else None
    case Bad => ReadDisk(text) == None
  }

  /** The string at `i`. */
  function CString(a: array<char>, i: nat): string
    requires i <= a.Length
    reads a
    decreases a.Length - i
  {
    if i == a.Length || a[i] == '\0' then "" else [a[i]] + CString(a, i + 1)
  }

  lemma {:induction false} CStringIs(a: array<char>, text: string, i: nat, p: nat)
    requires i <= p < a.Length && p <= |text| && a[p] == '\0'
    requires forall k :: i <= k < p ==> a[k] == text[k] && text[k] != '\0'
    ensures CString(a, i) == text[i..p]
    decreases p - i
  {
    if i < p {
      CStringIs(a, text, i + 1, p);
      assert text[i..p] == [text[i]] + text[i + 1..p];
    }
  }

  /** `*p = '\0'`, and the string that then starts at `tok`. */
  method CutToken(buf: array<char>, ghost text: string, tok: nat, p: nat) returns (t: string)
    requires tok <= p < buf.Length && Ahead(buf[..], text, tok)
    modifies buf
    ensures t == text[tok..p] && buf[p] == '\0'
    ensures Ahead(buf[..], text, p + 1)
    ensures p == |text| ==> Ahead(buf[..], text, tok)
  {
    assert forall k :: tok <= k < buf.Length ==> buf[k] == buf[..][k];
    buf[p] := '\0';
    CStringIs(buf, text, tok, p);
    t := CString(buf, tok);
  }

  lemma UntilIs(text: string, tok: nat, p: nat, stops: string)
    requires tok <= p <= |text| && (forall k :: tok <= k < p ==> text[k] !in stops)
    requires p < |text| ==> text[p] in stops
    ensures var s := text[tok..];
      Until(s, stops) == p - tok && s[..p - tok] == text[tok..p] && (p < |text| ==> s[p - tok + 1..] == text[p + 1..])
  {
    assert text[tok..][..p - tok] == text[tok..p];
  }

  /** The first `p` characters of what is left hold no character of `stops`, and the next one is one. */
  ghost predicate Ends(text: string, tok: nat, p: nat, stops: string) {
    tok <= p < |text| && text[p] in stops && forall k :: tok <= k < p ==> text[k] !in stops
  }

  lemma ReadTypeAt(d: Disk, text: string, tok: nat, p: nat)
    requires Ends(text, tok, p, ":,")
    ensures ReadType(d, text[tok..]) ==
      if text[p] == ',' then ReadVirt(d.(format := Empty, backend := TapBackend, pdevPath := Some("")), text[p + 1..])
      else ReadTyped(d, text[tok..p], text[p + 1..])
  {
    hide ReadVirt, ReadTyped;
    UntilIs(text, tok, p, ":,");
  }

  lemma ReadTapAt(d: Disk, text: string, tok: nat, p: nat)
    requires Ends(text, tok, p, ":,")
    ensures ReadTap(d, text[tok..]) ==
      if text[p] == ',' then ReadPath(d.(format := Raw, backend := TapBackend), text[tok..])
      else if text[tok..p] == "aio" then ReadTap(d, text[p + 1..])
      else ReadDriven(d, text[tok..p], text[p + 1..])
  {
    hide ReadPath, ReadDriven;
    UntilIs(text, tok, p, ":,");
  }

  lemma ReadPathAt(d: Disk, text: string, tok: nat, p: nat)
    requires Ends(text, tok, p, ",")
    ensures ReadPath(d, text[tok..]) ==
      ReadVirt(d.(pdevPath := NullIfEmpty(text[tok..p])), if "ioemu:" <= text[p + 1..] then text[p + 7..] else text[p + 1..])
  {
    hide ReadVirt;
    UntilIs(text, tok, p, ",");
    assert "ioemu:" <= text[p + 1..] ==> text[p + 1..][6..] == text[p + 7..];
  }

  lemma ReadVirtAt(d: Disk, text: string, tok: nat, p: nat)
    requires Ends(text, tok, p, ",:") || (tok <= p == |text| && forall k :: tok <= k < p ==> text[k] !in ",:")
    ensures ReadVirt(d, text[tok..]) ==
      if tok == p then (if p == |text| then Some(d) else None)
      else
        var named := d.(vdev := Some(text[tok..p]));
        if p == |text| then Some(named)
        else if text[p] == ':' then ReadVirtType(named, text[p + 1..])
        else ReadMode(named, text[p + 1..])
  {
    hide ReadVirtType, ReadMode;
    UntilIs(text, tok, p, ",:");
  }

  lemma ReadVirtTypeAt(d: Disk, text: string, tok: nat, p: nat)
    requires Ends(text, tok, p, ",") || (tok <= p == |text| && forall k :: tok <= k < p ==> text[k] !in ",")
    ensures ReadVirtType(d, text[tok..]) ==
      if text[tok..p] == "cdrom" then Some(d.(isCdrom := true, unpluggable := true)) else None
  {
    UntilIs(text, tok, p, ",");
  }

  /** What is left of a text without the character that a state waits for. */
  lemma Unended(state: DState, d: Disk, text: string, tok: nat)
    requires tok <= |text| && (state == Initial || state == Tap || state == PhysPath)
    requires forall k :: tok <= k < |text| ==> text[k] !in Stops(state)
    ensures Rest(state, d, text[tok..]) == None
  {
    UntilIs(text, tok, |text|, Stops(state));
  }

  /** A character that ends no token. */
  lemma Passes(text: string, v: Locals)
    requires At(text, v) && v.p <= |text| && !v.state.Terminal?
    requires if v.p < |text| then text[v.p] !in Stops(v.state) else v.state in {Initial, Tap, PhysPath}
    ensures After(text, Go(v))
  {
    hide ReadDisk, Rest;
  }

  /** The next token starts behind `p`. */
  lemma Starts(text: string, v: Locals)
    requires !v.state.Terminal? && v.tok == v.p + 1 <= |text|
    requires ReadDisk(text) == Rest(v.state, v.disk, text[v.tok..])
    ensures After(text, Go(v))
  {
    hide ReadDisk, Rest;
  }

  /** The machine has nothing left to read. */
  lemma Finishes(text: string, v: Locals)
    requires v.state.Terminal? && v.tok == v.p + 1 <= |text| + 1 && ReadDisk(text) == Some(v.disk)
    ensures After(text, Go(v))
  {
  }

  lemma Fails(text: string)
    requires ReadDisk(text) == None
    ensures After(text, Bad)
  {
  }

  /** The tap state leaves its token to the path state at a comma. */
  lemma FallsThrough(text: string, v: Locals, disk: Disk)
    requires v.state.Tap? && At(text, v) && ReadTap(v.disk, text[v.tok..]) == ReadPath(disk, text[v.tok..]) 
    requires v.p <= |text|
    ensures At(text, v.(state := PhysPath, disk := disk))
  {
    hide ReadDisk, ReadTap, ReadPath;
  }

  lemma IoemuAhead(b: seq<char>, text: string, tok: nat)
    requires tok <= |text| && Ahead(b, text, tok)
    ensures "ioemu:" <= text[tok..] <==> tok + 6 < |b| && b[tok..tok + 6] == "ioemu:"
  {
    if tok + 6 < |b| {
      assert text[tok..][..6] == b[tok..tok + 6];
    }
  }

  /** What the buffer shows at `p`. */
  lemma Sees(b: seq<char>, text: string, v: Locals)
    requires At(text, v) && v.p <= |text| && !v.state.Terminal? && Ahead(b, text, v.tok)
    ensures v.tok <= v.p < |b| == |text| + 1 && b[v.p] == if v.p < |text| then text[v.p] else '\0'
    ensures b[v.p] == '\0' <==> v.p == |text|
    ensures ReadDisk(text) == Rest(v.state, v.disk, text[v.tok..])
    ensures v.p < |text| && text[v.p] in Stops(v.state) ==> Ends(text, v.tok, v.p, Stops(v.state))
    ensures v.p == |text| ==> forall k :: v.tok <= k < v.p ==> text[k] !in Stops(v.state)
  {
    hide ReadDisk, Rest;
  }

  method InInitial(buf: array<char>, ghost text: string, v: Locals) returns (r: Round)
    requires v.state.Initial? && At(text, v) && v.p <= |text| && Ahead(buf[..], text, v.tok)
    modifies buf
    ensures After(text, r) && (r.Go? ==> v.p <= r.v.p && Ahead(buf[..], text, r.v.tok))
  {
    hide ReadDisk, ReadType, ReadTap, ReadPath, ReadVirt, At, After;
    var disk, p := v.disk, v.p;
    Sees(buf[..], text, v);
    if buf[p] == ':' {
      ReadTypeAt(disk, text, v.tok, p);
      var tok := CutToken(buf, text, v.tok, p);
      var state;
      if tok == "phy" {
        state, disk := PhysPath, disk.(format := Raw, backend := PhyBackend);
      } else if tok == "file" {
        state, disk := PhysPath, disk.(format := Raw, backend := TapBackend);
      } else if tok == "tap" || tok == "tap2" {
        state := Tap;
      } else {
        Fails(text);
        return Bad;
      }
      r := Go(Locals(state, disk, p + 1, p));
      Starts(text, r.v);
    } else if buf[p] == ',' {
      ReadTypeAt(disk, text, v.tok, p);
      r := Go(Locals(VirtPath, disk.(format := Empty, backend := TapBackend, pdevPath := Some("")), p + 1, p));
      Starts(text, r.v);
    } else {
      Passes(text, v);
      r := Go(v);
    }
  }

  method InTap(buf: array<char>, ghost text: string, v: Locals) returns (r: Round)
    requires v.state.Tap? && At(text, v) && v.p <= |text| && Ahead(buf[..], text, v.tok)
    modifies buf
    ensures After(text, r) && (r.Go? ==> v.p <= r.v.p && Ahead(buf[..], text, r.v.tok))
  {
    hide ReadDisk, ReadTap, ReadPath, At, After, Driver;
    var disk, p := v.disk, v.p;
    Sees(buf[..], text, v);
    if buf[p] == ',' {
      // falls through to DSTATE_PHYSPATH on the same character
      ReadTapAt(disk, text, v.tok, p);
      var v' := v.(state := PhysPath, disk := disk.(format := Raw, backend := TapBackend));
      FallsThrough(text, v, v'.disk);
      r := InPhysPath(buf, text, v');
    } else if buf[p] == ':' {
      ReadTapAt(disk, text, v.tok, p);
      var tok := CutToken(buf, text, v.tok, p);
      if tok == "aio" {
        r := Go(Locals(Tap, disk, p + 1, p));
        Starts(text, r.v);
        return;
      }
      var driver := Driver(tok);
      if driver.None? {
        Fails(text);
        return Bad;
      }
      r := Go(Locals(PhysPath, disk.(backend := driver.value.0, format := driver.value.1), p + 1, p));
      Starts(text, r.v);
    } else {
      Passes(text, v);
      r := Go(v);
    }
  }

  method InPhysPath(buf: array<char>, ghost text: string, v: Locals) returns (r: Round)
    requires v.state.PhysPath? && At(text, v) && v.p <= |text| && Ahead(buf[..], text, v.tok)
    modifies buf
    ensures After(text, r) && (r.Go? ==> v.p <= r.v.p && Ahead(buf[..], text, r.v.tok))
  {
    hide ReadDisk, ReadPath, ReadVirt, At, After;
    var p := v.p;
    Sees(buf[..], text, v);
    if buf[p] == ',' {
      ReadPathAt(v.disk, text, v.tok, p);
      var tok := CutToken(buf, text, v.tok, p);
      var disk, end := v.disk.(pdevPath := NullIfEmpty(tok)), buf.Length;
      IoemuAhead(buf[..], text, p + 1);
      if p + 1 + 6 < end && buf[p + 1..p + 7] == "ioemu:" {
        r := Go(Locals(VirtPath, disk, p + 7, p + 6));
      } else {
        r := Go(Locals(VirtPath, disk, p + 1, p));
      }
      Starts(text, r.v);
    } else {
      Passes(text, v);
      r := Go(v);
    }
  }

  method InVirtPath(buf: array<char>, ghost text: string, v: Locals) returns (r: Round)
    requires v.state.VirtPath? && At(text, v) && v.p <= |text| && Ahead(buf[..], text, v.tok)
    modifies buf
    ensures After(text, r) && (r.Go? ==> v.p <= r.v.p && Ahead(buf[..], text, r.v.tok))
  {
    hide ReadDisk, ReadVirt, ReadVirtType, ReadMode, At;
    var p := v.p;
    Sees(buf[..], text, v);
    if buf[p] == ',' || buf[p] == ':' || buf[p] == '\0' {
      ReadVirtAt(v.disk, text, v.tok, p);
      var state := if buf[p] == ':' then VirtType else if buf[p] == ',' then Rw else Terminal;
      if v.tok == p {
        return Out(v.(state := state));
      }
      var tok := CutToken(buf, text, v.tok, p);
      r := Go(Locals(state, v.disk.(vdev := Some(tok)), p + 1, p));
      if p == |text| { Finishes(text, r.v); } else { Starts(text, r.v); }
    } else {
      Passes(text, v);
      r := Go(v);
    }
  }

  method InVirtType(buf: array<char>, ghost text: string, v: Locals) returns (r: Round)
    requires v.state.VirtType? && At(text, v) && v.p <= |text| && Ahead(buf[..], text, v.tok)
    modifies buf
    ensures After(text, r) && (r.Go? ==> v.p <= r.v.p && Ahead(buf[..], text, r.v.tok))
  {
    hide ReadDisk, ReadVirtType, At;
    var p := v.p;
    Sees(buf[..], text, v);
    if buf[p] == ',' || buf[p] == '\0' {
      ReadVirtTypeAt(v.disk, text, v.tok, p);
      var tok := CutToken(buf, text, v.tok, p);
      if tok != "cdrom" {
        return Bad;
      }
      var disk := v.disk.(isCdrom := true, unpluggable := true);
      r := Go(Locals(if buf[p] == ',' then Rw else Terminal, disk, p + 1, p));
      Finishes(text, r.v);
    } else {
      Passes(text, v);
      r := Go(v);
    }
  }

  method InRw(buf: array<char>, ghost text: string, v: Locals) returns (r: Round)
    requires v.state.Rw? && At(text, v) && v.p <= |text| && Ahead(buf[..], text, v.tok)
    ensures After(text, r) && (r.Go? ==> v.p <= r.v.p && Ahead(buf[..], text, r.v.tok))
  {
    var p := v.p;
    assert buf[p] == buf[..][p] && buf[v.tok] == buf[..][v.tok];
    if buf[p] == '\0' {
      r := Go(Locals(Terminal, v.disk.(readwrite := buf[v.tok] == 'w'), p + 1, p));
    } else {
      Passes(text, v);
      r := Go(v);
    }
  }

  method OneRound(buf: array<char>, ghost text: string, v: Locals) returns (r: Round)
    requires At(text, v) && v.p < buf.Length && Ahead(buf[..], text, v.tok)
    modifies buf
    ensures After(text, r) && (r.Go? ==> v.p <= r.v.p && Ahead(buf[..], text, r.v.tok))
  {
    hide ReadDisk, Rest, After;
    match v.state {
      case Initial => r := InInitial(buf, text, v);
      case Tap => r := InTap(buf, text, v);
      case PhysPath => r := InPhysPath(buf, text, v);
      case VirtPath => r := InVirtPath(buf, text, v);
      case VirtType => r := InVirtType(buf, text, v);
      case Rw => r := InRw(buf, text, v);
      case Terminal =>
        GoesOut(text, v);
        r := Out(v);
    }
  }

  lemma GoesOut(text: string, v: Locals)
    requires v.state.Terminal? && At(text, v)
    ensures After(text, Out(v))
  {
  }

  /** The test behind the label `out`. */
  function Verdict(v: Locals): Option<Disk> {
    if v.tok != v.p || v.state != Terminal then None else Some(v.disk)
  }

  lemma RunsOut(text: string, v: Locals)
    requires At(text, v) && v.p > |text|
    ensures Verdict(v) == ReadDisk(text)
  {
    hide ReadDisk, Rest;
    if !v.state.Terminal? {
      Unended(v.state, v.disk, text, v.tok);
    }
  }

  lemma VerdictOf(text: string, r: Round)
    requires After(text, r)
    ensures r.Out? ==> Verdict(r.v) == ReadDisk(text)
    ensures r.Bad? ==> ReadDisk(text) == None
    ensures r.Go? ==> At(text, r.v.(p := r.v.p + 1))
  {
    hide ReadDisk, At;
  }

  lemma AtStart(text: string)
    ensures At(text, Locals(Initial, ZEROED, 0, 0))
  {
    hide ReadType;
    assert text[0..] == text;
  }

  /** The machine accepts exactly the texts that ReadDisk accepts, with the same fields. */
  method ParseDiskConfig(buf2: array<char>) returns (disk: Option<Disk>)
    requires buf2.Length > 0 && buf2[buf2.Length - 1] == '\0' && '\0' !in buf2[..buf2.Length - 1]
    modifies buf2
    ensures disk == ReadDisk(old(buf2[..buf2.Length - 1]))
  {
    hide ReadDisk, At, After, Verdict;
    ghost var text := buf2[..buf2.Length - 1];
    AtStart(text);
    var end, v := buf2.Length, Locals(Initial, ZEROED, 0, 0);
    while v.p < end
      invariant At(text, v) && Ahead(buf2[..], text, v.tok)
      decreases end - v.p
    {
      var r := OneRound(buf2, text, v);
      VerdictOf(text, r);
      match r {
        case Bad => return None;
        case Go(v') => v := v'.(p := v'.p + 1);
        case Out(v') => return Verdict(v');
      }
    }
    RunsOut(text, v);
    disk := Verdict(v);
  }
}
