/** The disk specifications that parse_disk_config accepts, written out, and what each one means. */
module DiskText {
  import opened Wrappers
  import opened DiskSpec

  /** "tap:" or "tap2:", any number of "aio:", and a driver name unless `driver` is empty. */
  datatype Kind = Phy | File | TapDisk(tap2: bool, aios: nat, driver: string)

  /** Text before a first comma that no colon precedes is ignored: an empty drive. */
  datatype Source = NoSource(dropped: string) | Path(kind: Kind, path: string, ioemu: bool)

  datatype Ending = Nothing | Mode(mode: string) | Cdrom | CdromThen(ignored: string)

  datatype Spec = Spec(source: Source, vdev: string, ending: Ending)

  // ----- printing -----

  function Aios(n: nat): string { if n == 0 then "" else "aio:" + Aios(n - 1) }

  function DriverText(driver: string): string { if driver == "" then "" else driver + ":" }

  function KindText(kind: Kind): string {
    match kind
    case Phy => "phy:"
    case File => "file:"
    case TapDisk(tap2, aios, driver) => TapText(tap2) + (Aios(aios) + DriverText(driver))
  }

  function TapText(tap2: bool): string { if tap2 then "tap2:" else "tap:" }

  function EndingText(ending: Ending): string {
    match ending
    case Nothing => ""
    case Mode(mode) => "," + mode
    case Cdrom => ":cdrom"
    case CdromThen(ignored) => ":cdrom," + ignored
  }

  function VirtText(spec: Spec): string { spec.vdev + EndingText(spec.ending) }

  function SpecText(spec: Spec): string {
    match spec.source
    case NoSource(dropped) => dropped + "," + VirtText(spec)
    case Path(kind, path, ioemu) => KindText(kind) + (path + ("," + ((if ioemu then "ioemu:" else "") + VirtText(spec))))
  }

  // ----- which specifications, and what they mean -----

  predicate Free(s: string, stops: string) { forall i :: 0 <= i < |s| ==> s[i] !in stops }

  predicate Printable(spec: Spec) {
    && Free(spec.vdev, ",:") && (spec.vdev == "" ==> spec.ending == Nothing)
    && match spec.source
       case NoSource(dropped) => Free(dropped, ":,")
       case Path(kind, path, ioemu) =>
         && Free(path, ",") && (!ioemu ==> !("ioemu:" <= VirtText(spec)))
         && (kind.TapDisk? ==> if kind.driver == "" then Free(path, ":") else Driver(kind.driver).Some?)
  }

  function KindOf(kind: Kind): (Backend, Format) {
    match kind
    case Phy => (PhyBackend, Raw)
    case File => (TapBackend, Raw)
    case TapDisk(_, _, driver) => if Driver(driver).Some? then Driver(driver).value else (TapBackend, Raw)
  }

  function Fields(spec: Spec): Disk {
    var kind := if spec.source.NoSource? then (TapBackend, Empty) else KindOf(spec.source.kind);
    var cdrom := spec.ending.Cdrom? || spec.ending.CdromThen?;
    Disk(kind.0, kind.1, if spec.source.NoSource? then Some("") else NullIfEmpty(spec.source.path), NullIfEmpty(spec.vdev),
         cdrom, cdrom, spec.ending.Mode? && spec.ending.mode != "" && spec.ending.mode[0] == 'w')
  }

  // ----- every well-formed specification is read back -----

  lemma {:induction false} UntilOf(a: string, b: string, stops: string)
    requires Free(a, stops) && (b == "" || b[0] in stops)
    ensures Until(a + b, stops) == |a| && (a + b)[..|a|] == a
    ensures b != "" ==> (a + b)[|a|] == b[0] && (a + b)[|a| + 1..] == b[1..]
  {
    if a == "" {
      assert a + b == b;
    } else {
      UntilOf(a[1..], b, stops);
      assert (a + b)[1..] == a[1..] + b;
    }
  }

  function WithEnding(d: Disk, ending: Ending): Disk {
    match ending
    case Nothing => d
    case Mode(mode) => d.(readwrite := mode != "" && mode[0] == 'w')
    case Cdrom => d.(isCdrom := true, unpluggable := true)
    case CdromThen(_) => d.(isCdrom := true, unpluggable := true)
  }

  lemma ReadsVirt(d: Disk, spec: Spec)
    requires Free(spec.vdev, ",:") && (spec.vdev == "" ==> spec.ending == Nothing) && d.vdev == None
    ensures ReadVirt(d, VirtText(spec)) == Some(WithEnding(d.(vdev := NullIfEmpty(spec.vdev)), spec.ending))
  {
    hide ReadVirtType, Until;
    var ending := EndingText(spec.ending);
    UntilOf(spec.vdev, ending, ",:");
    if spec.ending.Cdrom? || spec.ending.CdromThen? {
      var rest := if spec.ending.Cdrom? then "" else "," + spec.ending.ignored;
      assert ending == ":cdrom" + rest;
      ReadsCdrom(d.(vdev := Some(spec.vdev)), rest);
    }
  }

  lemma ReadsCdrom(d: Disk, rest: string)
    requires rest == "" || rest[0] == ','
    ensures ReadVirtType(d, (":cdrom" + rest)[1..]) == Some(d.(isCdrom := true, unpluggable := true))
  {
    hide Until;
    assert (":cdrom" + rest)[1..] == "cdrom" + rest;
    UntilOf("cdrom", rest, ",");
  }

  lemma ReadsPath(d: Disk, path: string, ioemu: bool, rest: string)
    requires Free(path, ",") && (!ioemu ==> !("ioemu:" <= rest))
    ensures ReadPath(d, path + ("," + ((if ioemu then "ioemu:" else "") + rest))) == ReadVirt(d.(pdevPath := NullIfEmpty(path)), rest)
  {
    hide ReadVirt, Until;
    var tail := (if ioemu then "ioemu:" else "") + rest;
    UntilOf(path, "," + tail, ",");
    assert ("," + tail)[1..] == tail;
    assert if ioemu then "ioemu:" <= tail && tail[6..] == rest else tail == rest;
  }

  lemma TagEnds(tag: string, rest: string)
    requires Free(tag, ":,")
    ensures var s := tag + ":" + rest;
      Until(s, ":,") == |tag| < |s| && s[|tag|] == ':' && s[..|tag|] == tag && s[|tag| + 1..] == rest
  {
    assert tag + ":" + rest == tag + (":" + rest);
    UntilOf(tag, ":" + rest, ":,");
  }

  lemma AfterTag(tag: string, s: string, t: string)
    ensures (tag + ":" + s) + t == tag + ":" + (s + t)
  {
  }

  lemma OneMoreAio(n: nat, s: string)
    ensures Aios(n + 1) + s == "aio" + ":" + (Aios(n) + s)
  {
    AfterTag("aio", Aios(n), s);
    assert Aios(n + 1) == "aio" + ":" + Aios(n);
  }

  lemma {:induction false} ReadsTap(d: Disk, aios: nat, driver: string, tail: string, path: string, rest: string)
    requires tail == path + ("," + rest) && Free(path, ",")
    requires if driver == "" then Free(path, ":") else Driver(driver).Some?
    ensures var k := KindOf(TapDisk(false, aios, driver));
      ReadTap(d, Aios(aios) + (DriverText(driver) + tail)) == ReadPath(d.(backend := k.0, format := k.1), tail)
    decreases aios
  {
    hide ReadPath, ReadTap, Driver, Aios, DriverText;
    if aios > 0 {
      var more := Aios(aios - 1) + (DriverText(driver) + tail);
      OneMoreAio(aios - 1, DriverText(driver) + tail);
      AioSkipped(d, more);
      ReadsTap(d, aios - 1, driver, tail, path, rest);
    } else {
      NoAios(DriverText(driver) + tail);
      ReadsDriver(d, driver, tail, path, rest);
    }
  }

  lemma NoAios(s: string)
    ensures Aios(0) + s == s
  {
  }

  lemma AioSkipped(d: Disk, s: string)
    ensures ReadTap(d, "aio" + ":" + s) == ReadTap(d, s)
  {
    hide Until, ReadPath, ReadDriven;
    TagEnds("aio", s);
  }

  lemma ReadsDriver(d: Disk, driver: string, tail: string, path: string, rest: string)
    requires tail == path + ("," + rest) && Free(path, ",")
    requires if driver == "" then Free(path, ":") else Driver(driver).Some?
    ensures var k := KindOf(TapDisk(false, 0, driver));
      ReadTap(d, DriverText(driver) + tail) == ReadPath(d.(backend := k.0, format := k.1), tail)
  {
    hide ReadPath, Until;
    if driver == "" {
      assert DriverText(driver) + tail == tail;
      UntilOf(path, "," + rest, ":,");
    } else {
      TagEnds(driver, tail);
    }
  }

  lemma ReadsKind(d: Disk, kind: Kind, tail: string, path: string, rest: string)
    requires tail == path + ("," + rest) && Free(path, ",")
    requires kind.TapDisk? ==> if kind.driver == "" then Free(path, ":") else Driver(kind.driver).Some?
    ensures var k := KindOf(kind);
      ReadType(d, KindText(kind) + tail) == ReadPath(d.(backend := k.0, format := k.1), tail)
  {
    hide ReadType, ReadPath, ReadTap, Driver, Aios, DriverText, TapText;
    match kind {
      case Phy =>
        ReadsTag(d, "phy", tail);
        assert KindText(kind) == "phy" + ":";
      case File =>
        ReadsTag(d, "file", tail);
        assert KindText(kind) == "file" + ":";
      case TapDisk(tap2, aios, driver) =>
        var tag := if tap2 then "tap2" else "tap";
        TapTextOf(tap2, aios, driver);
        TapFront(tag, Aios(aios), DriverText(driver), tail);
        ReadsTag(d, tag, Aios(aios) + (DriverText(driver) + tail));
        ReadsTap(d, aios, driver, tail, path, rest);
    }
  }

  lemma ReadsTag(d: Disk, tag: string, s: string)
    requires Free(tag, ":,")
    ensures ReadType(d, tag + ":" + s) == ReadTyped(d, tag, s)
  {
    hide Until, ReadTyped;
    TagEnds(tag, s);
  }

  lemma TapTextOf(tap2: bool, aios: nat, driver: string)
    ensures KindText(TapDisk(tap2, aios, driver)) == ((if tap2 then "tap2" else "tap") + ":") + (Aios(aios) + DriverText(driver))
  {
    hide Aios, DriverText;
    assert TapText(tap2) == (if tap2 then "tap2" else "tap") + ":";
  }

  lemma TapFront(tag: string, a: string, t: string, tail: string)
    ensures (tag + ":") + (a + t) + tail == tag + ":" + (a + (t + tail))
  {
    AfterTag(tag, a + t, tail);
  }

  /** Printing a specification and reading it gives its fields. */
  lemma ReadsBack(spec: Spec)
    requires Printable(spec)
    ensures ReadDisk(SpecText(spec)) == Some(Fields(spec))
  {
    hide ReadType, ReadVirt, ReadPath, VirtText, KindText;
    match spec.source {
      case NoSource(dropped) =>
        ReadsNoSource(ZEROED, dropped, VirtText(spec));
        ReadsVirt(ZEROED.(format := Empty, backend := TapBackend, pdevPath := Some("")), spec);
      case Path(kind, path, ioemu) =>
        var rest := (if ioemu then "ioemu:" else "") + VirtText(spec);
        ReadsKind(ZEROED, kind, path + ("," + rest), path, rest);
        var d := ZEROED.(backend := KindOf(kind).0, format := KindOf(kind).1);
        ReadsPath(d, path, ioemu, VirtText(spec));
        ReadsVirt(d.(pdevPath := NullIfEmpty(path)), spec);
    }
  }

  lemma ReadsNoSource(d: Disk, dropped: string, rest: string)
    requires Free(dropped, ":,")
    ensures ReadType(d, dropped + "," + rest) == ReadVirt(d.(format := Empty, backend := TapBackend, pdevPath := Some("")), rest)
  {
    hide ReadVirt, Until;
    assert dropped + "," + rest == dropped + ("," + rest);
    UntilOf(dropped, "," + rest, ":,");
  }

  // ----- and nothing else is accepted -----

  /** `s` around its character at `k`. */
  lemma Around(s: string, k: nat, c: char)
    requires k < |s| && s[k] == c
    ensures s == s[..k] + ([c] + s[k + 1..])
  {
  }

  lemma VirtOf(d: Disk, s: string) returns (vdev: string, ending: Ending)
    requires ReadVirt(d, s).Some?
    ensures Free(vdev, ",:") && (vdev == "" ==> ending == Nothing) && s == vdev + EndingText(ending)
  {
    hide ReadVirtType, ReadMode, Until;
    var k := Until(s, ",:");
    vdev := s[..k];
    if k == |s| {
      ending := Nothing;
    } else {
      Around(s, k, s[k]);
      if s[k] == ',' {
        ending := Mode(s[k + 1..]);
      } else {
        ending := CdromOf(d.(vdev := Some(vdev)), s[k + 1..]);
      }
    }
  }

  lemma CdromOf(d: Disk, s: string) returns (ending: Ending)
    requires ReadVirtType(d, s).Some?
    ensures EndingText(ending) == ":" + s && ending != Nothing
  {
    hide Until;
    var j := Until(s, ",");
    if j == |s| {
      ending := Cdrom;
    } else {
      ending := CdromThen(s[j + 1..]);
      Around(s, j, ',');
    }
  }

  lemma PathOf(d: Disk, s: string) returns (ioemu: bool, rest: string)
    requires ReadPath(d, s).Some?
    ensures var path := s[..Until(s, ",")];
      && s == path + ("," + ((if ioemu then "ioemu:" else "") + rest))
      && (!ioemu ==> !("ioemu:" <= rest)) && ReadVirt(d.(pdevPath := NullIfEmpty(path)), rest).Some?
  {
    hide ReadVirt, Until;
    var k := Until(s, ",");
    var more := s[k + 1..];
    Around(s, k, ',');
    ioemu, rest := "ioemu:" <= more, SkipIoemu(more);
    assert more == (if ioemu then "ioemu:" else "") + rest;
  }

  lemma TagOf(s: string, k: nat)
    requires k < |s| && s[k] == ':'
    ensures s == s[..k] + ":" + s[k + 1..]
  {
  }

  lemma {:induction false} TapOf(d: Disk, s: string) returns (aios: nat, driver: string, tail: string, d': Disk)
    requires ReadTap(d, s).Some?
    ensures s == Aios(aios) + (DriverText(driver) + tail) && ReadPath(d', tail).Some?
    ensures if driver == "" then Free(tail[..Until(tail, ",")], ":") else Driver(driver).Some?
    decreases |s|
  {
    hide ReadPath, Driver, Until, Free, DriverText, Aios, ReadDriven;
    var k := Until(s, ":,");
    if s[k] == ',' {
      aios, driver, tail, d' := 0, "", s, d.(format := Raw, backend := TapBackend);
      UntilComma(s);
      NoDriverText(s);
    } else if s[..k] == "aio" {
      TagOf(s, k);
      aios, driver, tail, d' := TapOf(d, s[k + 1..]);
      OneMoreAio(aios, DriverText(driver) + tail);
      aios := aios + 1;
    } else {
      TagOf(s, k);
      DriverNamed(d, s[..k], s[k + 1..]);
      aios, driver, tail := 0, s[..k], s[k + 1..];
      d' := d.(backend := Driver(driver).value.0, format := Driver(driver).value.1);
    }
  }

  lemma NoDriverText(tail: string)
    ensures Aios(0) + (DriverText("") + tail) == tail
  {
  }

  lemma DriverNamed(d: Disk, tag: string, tail: string)
    requires ReadDriven(d, tag, tail).Some?
    ensures tag != "" && Aios(0) + (DriverText(tag) + tail) == tag + ":" + tail && Driver(tag).Some?
    ensures ReadPath(d.(backend := Driver(tag).value.0, format := Driver(tag).value.1), tail).Some?
  {
  }

  lemma {:induction false} UntilComma(s: string)
    requires Until(s, ":,") < |s| && s[Until(s, ":,")] == ','
    ensures Free(s[..Until(s, ",")], ":")
  {
    if s[0] != ',' {
      UntilComma(s[1..]);
      assert s[..Until(s, ",")] == [s[0]] + s[1..][..Until(s[1..], ",")];
    }
  }

  lemma KindIs(d: Disk, s: string) returns (kind: Kind, tail: string, d': Disk)
    requires ReadType(d, s).Some? && s[Until(s, ":,")] == ':'
    ensures s == KindText(kind) + tail && ReadPath(d', tail).Some?
    ensures kind.TapDisk? ==> if kind.driver == "" then Free(tail[..Until(tail, ",")], ":") else Driver(kind.driver).Some?
  {
    hide ReadPath, ReadTap, Aios, DriverText, Driver, TapText, Until;
    var k := Until(s, ":,");
    var tag := s[..k];
    TagOf(s, k);
    if tag == "phy" || tag == "file" {
      kind, tail := if tag == "phy" then Phy else File, s[k + 1..];
      d' := d.(format := Raw, backend := if tag == "phy" then PhyBackend else TapBackend);
    } else {
      var aios, driver;
      aios, driver, tail, d' := TapOf(d, s[k + 1..]);
      kind := TapDisk(tag == "tap2", aios, driver);
      TapTextOf(tag == "tap2", aios, driver);
      TapFront(tag, Aios(aios), DriverText(driver), tail);
    }
  }

  /** Every accepted text is the text of a well-formed specification. */
  lemma SpecOf(text: string) returns (spec: Spec)
    requires ReadDisk(text).Some?
    ensures Printable(spec) && SpecText(spec) == text
  {
    hide ReadVirt, ReadPath, ReadTap, EndingText, KindText, Driver;
    var k := Until(text, ":,");
    if text[k] == ',' {
      var vdev, ending := VirtOf(ZEROED.(format := Empty, backend := TapBackend, pdevPath := Some("")), text[k + 1..]);
      spec := Spec(NoSource(text[..k]), vdev, ending);
      assert text == text[..k] + "," + text[k + 1..];
    } else {
      var kind, tail, d := KindIs(ZEROED, text);
      var ioemu, rest := PathOf(d, tail);
      var path := tail[..Until(tail, ",")];
      var vdev, ending := VirtOf(d.(pdevPath := NullIfEmpty(path)), rest);
      spec := Spec(Path(kind, path, ioemu), vdev, ending);
    }
  }

  /** The accepted texts are exactly the texts of well-formed specifications. */
  lemma AcceptsExactly(text: string)
    ensures ReadDisk(text).Some? <==> exists spec :: Printable(spec) && SpecText(spec) == text
  {
    hide ReadDisk, Printable, SpecText;
    if ReadDisk(text).Some? {
      var spec := SpecOf(text);
    }
    forall spec | Printable(spec) && SpecText(spec) == text ensures ReadDisk(text).Some? {
      ReadsBack(spec);
    }
  }

  /** A drive marked ":cdrom" is read-only, whatever mode follows it; no other spec is unpluggable. */
  lemma CdromIsReadOnly(text: string)
    requires ReadDisk(text).Some?
    ensures var d := ReadDisk(text).value; d.unpluggable == d.isCdrom && (d.isCdrom ==> !d.readwrite)
  {
    hide ReadDisk, Printable, SpecText;
    var spec := SpecOf(text);
    ReadsBack(spec);
  }

  /** The buffer of cd_insert. */
  function CdText(phys: Option<string>, virtdev: string): string {
    (if phys.Some? then phys.value else "") + "," + virtdev + ":cdrom,r"
  }

  /** What cd_insert is given for a disk to insert: "phy:…", "file:…", "tap:…" without the comma. */
  function PhysText(kind: Kind, path: string): string { KindText(kind) + path }

  lemma CdInsertReads(kind: Kind, path: string, virtdev: string)
    requires virtdev != "" && Printable(Spec(Path(kind, path, false), virtdev, CdromThen("r")))
    ensures ReadDisk(CdText(Some(PhysText(kind, path)), virtdev)) ==
      Some(Disk(KindOf(kind).0, KindOf(kind).1, NullIfEmpty(path), Some(virtdev), true, true, false))
  {
    hide ReadDisk, KindText, Printable;
    var spec := Spec(Path(kind, path, false), virtdev, CdromThen("r"));
    ReadsBack(spec);
    CommasAt(KindText(kind), path, virtdev, ":cdrom,r");
    assert EndingText(CdromThen("r")) == ":cdrom,r";
  }

  lemma CommasAt(a: string, b: string, c: string, e: string)
    ensures a + b + "," + c + e == a + (b + ("," + ("" + (c + e))))
  {
  }

  /** Without a disk the drive is left empty. */
  lemma CdEjectReads(virtdev: string)
    requires virtdev != "" && Free(virtdev, ",:")
    ensures ReadDisk(CdText(None, virtdev)) == Some(Disk(TapBackend, Empty, Some(""), Some(virtdev), true, true, false))
  {
    hide ReadDisk;
    var spec := Spec(NoSource(""), virtdev, CdromThen("r"));
    ReadsBack(spec);
    assert EndingText(CdromThen("r")) == ":cdrom,r";
    assert "" + "," + virtdev + ":cdrom,r" == "" + "," + (virtdev + ":cdrom,r");
  }

  /** A missing virtual device name is an error, except at the very end of the text. */
  lemma VdevMissing(kind: Kind, path: string, rest: string)
    requires Free(path, ",") && (rest == "" || rest[0] in ",:")
    requires kind.TapDisk? ==> if kind.driver == "" then Free(path, ":") else Driver(kind.driver).Some?
    ensures ReadDisk(KindText(kind) + (path + ("," + rest))) == if rest != "" then None
      else Some(Disk(KindOf(kind).0, KindOf(kind).1, NullIfEmpty(path), None, false, false, false))
  {
    hide ReadType, ReadPath, KindText, KindOf, Driver;
    ReadsKind(ZEROED, kind, path + ("," + rest), path, rest);
    assert ("" + rest) == rest;
    ReadsPath(ZEROED.(backend := KindOf(kind).0, format := KindOf(kind).1), path, false, rest);
  }

  // ----- the specifications in literal text -----

  /** "<path>,<vdev>,<mode>". */
  function Plain(path: string, vdev: string, mode: string): string { path + "," + vdev + "," + mode }

  /** What a specification with a path, a device and a mode is read as. */
  function Device(backend: Backend, format: Format, path: string, vdev: string, mode: string): Disk {
    Disk(backend, format, if path == "" then None else Some(path), Some(vdev), false, false, mode != "" && mode[0] == 'w')
  }

  lemma PlainText(kind: Kind, path: string, vdev: string, mode: string)
    requires Free(path, ",") && Free(vdev, ",:") && vdev != ""
    ensures SpecText(Spec(Path(kind, path, false), vdev, Mode(mode))) == KindText(kind) + Plain(path, vdev, mode)
    ensures !("ioemu:" <= vdev + ("," + mode))
  {
    hide KindText;
    var tail := vdev + ("," + mode);
    assert path + ("," + ("" + tail)) == Plain(path, vdev, mode);
    NotIoemu(vdev, "," + mode);
  }

  lemma NotIoemu(vdev: string, rest: string)
    requires Free(vdev, ",:") && (rest == "" || rest[0] == ',' || (rest[0] == ':' && vdev != "ioemu"))
    ensures !("ioemu:" <= vdev + rest)
  {
    var tail, k := vdev + rest, if |vdev| <= 5 then |vdev| else 5;
    assert forall i :: 0 <= i < 5 ==> "ioemu:"[i] != ':' && "ioemu:"[i] != ',';
    if k < |tail| && k < 5 {
      assert tail[k] != "ioemu:"[k];
    } else if |tail| > 5 && |vdev| > 5 {
      assert tail[5] == vdev[5];
    } else if |vdev| == 5 && rest != "" {
      assert tail[5] == rest[0] && tail[..5] == vdev;
      assert "ioemu:"[..5] == "ioemu";
    }
  }

  lemma ReadsPlain(kind: Kind, path: string, vdev: string, mode: string)
    requires Free(path, ",") && Free(vdev, ",:") && vdev != ""
    requires kind.TapDisk? ==> if kind.driver == "" then Free(path, ":") else Driver(kind.driver).Some?
    ensures ReadDisk(KindText(kind) + Plain(path, vdev, mode)) == Some(Device(KindOf(kind).0, KindOf(kind).1, path, vdev, mode))
  {
    hide ReadDisk, KindText, SpecText, KindOf, Driver;
    PlainText(kind, path, vdev, mode);
    var spec := Spec(Path(kind, path, false), vdev, Mode(mode));
    assert VirtText(spec) == vdev + ("," + mode);
    ReadsBack(spec);
  }

  /** The tags and what they stand for: "phy:" is a raw device, "file:" and a bare "tap:" a raw image for blktap, and behind
      "tap:" or "tap2:" the name of a driver. */
  lemma TagsMean(path: string, vdev: string, mode: string)
    requires Free(path, ",") && Free(vdev, ",:") && vdev != ""
    ensures ReadDisk("phy:" + Plain(path, vdev, mode)) == Some(Device(PhyBackend, Raw, path, vdev, mode))
    ensures ReadDisk("file:" + Plain(path, vdev, mode)) == Some(Device(TapBackend, Raw, path, vdev, mode))
    ensures Free(path, ":") ==> ReadDisk("tap:" + Plain(path, vdev, mode)) == Some(Device(TapBackend, Raw, path, vdev, mode))
    ensures Free(path, ":") ==> ReadDisk("tap2:" + Plain(path, vdev, mode)) == Some(Device(TapBackend, Raw, path, vdev, mode))
  {
    hide ReadDisk, Plain, Device;
    assert KindText(Phy) == "phy:" && KindText(File) == "file:";
    ReadsPlain(Phy, path, vdev, mode);
    ReadsPlain(File, path, vdev, mode);
    assert KindText(TapDisk(false, 0, "")) == "tap:" && KindText(TapDisk(true, 0, "")) == "tap2:";
    if Free(path, ":") {
      ReadsPlain(TapDisk(false, 0, ""), path, vdev, mode);
      ReadsPlain(TapDisk(true, 0, ""), path, vdev, mode);
    }
  }

  lemma ReadsDriven(aio: bool, driver: string, path: string, vdev: string, mode: string)
    requires Free(path, ",") && Free(vdev, ",:") && vdev != "" && Driver(driver).Some?
    ensures var tag := (if aio then "aio:" else "") + (driver + ":");
      && ReadDisk("tap:" + tag + Plain(path, vdev, mode)) == Some(Device(Driver(driver).value.0, Driver(driver).value.1, path, vdev, mode))
      && ReadDisk("tap2:" + tag + Plain(path, vdev, mode)) == Some(Device(Driver(driver).value.0, Driver(driver).value.1, path, vdev, mode))
  {
    hide ReadDisk, Plain, Device;
    var n := if aio then 1 else 0;
    assert driver != "";
    AioText(aio);
    assert KindText(TapDisk(false, n, driver)) == "tap:" + ((if aio then "aio:" else "") + (driver + ":"));
    assert KindText(TapDisk(true, n, driver)) == "tap2:" + ((if aio then "aio:" else "") + (driver + ":"));
    ReadsPlain(TapDisk(false, n, driver), path, vdev, mode);
    ReadsPlain(TapDisk(true, n, driver), path, vdev, mode);
  }

  lemma AioText(aio: bool)
    ensures Aios(if aio then 1 else 0) == if aio then "aio:" else ""
  {
    assert Aios(0) == "";
  }

  /** The drivers behind "tap:", with or without "aio:" before them. */
  lemma DriversMean(path: string, vdev: string, mode: string)
    requires Free(path, ",") && Free(vdev, ",:") && vdev != ""
    ensures ReadDisk("tap:vhd:" + Plain(path, vdev, mode)) == Some(Device(TapBackend, Vhd, path, vdev, mode))
    ensures ReadDisk("tap:qcow:" + Plain(path, vdev, mode)) == Some(Device(QdiskBackend, Qcow, path, vdev, mode))
    ensures ReadDisk("tap:qcow2:" + Plain(path, vdev, mode)) == Some(Device(QdiskBackend, Qcow2, path, vdev, mode))
    ensures ReadDisk("tap:raw:" + Plain(path, vdev, mode)) == Some(Device(TapBackend, Raw, path, vdev, mode))
    ensures ReadDisk("tap:preservation:" + Plain(path, vdev, mode)) == Some(Device(TapBackend, Preservation, path, vdev, mode))
    ensures ReadDisk("tap:aio:preservation:" + Plain(path, vdev, mode)) == Some(Device(TapBackend, Preservation, path, vdev, mode))
  {
    hide ReadDisk, Plain, Device;
    assert "tap:" + ("" + ("vhd" + ":")) == "tap:vhd:" && "tap:" + ("" + ("qcow" + ":")) == "tap:qcow:";
    assert "tap:" + ("" + ("qcow2" + ":")) == "tap:qcow2:" && "tap:" + ("" + ("raw" + ":")) == "tap:raw:";
    assert "tap:" + ("" + ("preservation" + ":")) == "tap:preservation:";
    assert "tap:" + ("aio:" + ("preservation" + ":")) == "tap:aio:preservation:";
    ReadsDriven(false, "vhd", path, vdev, mode);
    ReadsDriven(false, "qcow", path, vdev, mode);
    ReadsDriven(false, "qcow2", path, vdev, mode);
    ReadsDriven(false, "raw", path, vdev, mode);
    ReadsDriven(false, "preservation", path, vdev, mode);
    ReadsDriven(true, "preservation", path, vdev, mode);
  }

  /** Every other tag is refused, whatever follows. */
  lemma OtherTagsRefused(tag: string, rest: string)
    requires Free(tag, ":,")
    ensures tag !in {"phy", "file", "tap", "tap2"} ==> ReadDisk(tag + ":" + rest) == None
    ensures tag !in {"aio", "vhd", "qcow", "qcow2", "raw", "preservation"} ==>
      ReadDisk("tap:" + (tag + ":" + rest)) == None && ReadDisk("tap2:" + (tag + ":" + rest)) == None
  {
    hide Until, ReadPath;
    TagEnds(tag, rest);
    var inner := tag + ":" + rest;
    TagEnds("tap", inner);
    TagEnds("tap2", inner);
    assert "tap" + ":" + inner == "tap:" + inner && "tap2" + ":" + inner == "tap2:" + inner;
  }

  /** No colon before the first comma: an empty drive. */
  lemma EmptyDrive(dropped: string, vdev: string, mode: string)
    requires Free(dropped, ":,") && Free(vdev, ",:") && vdev != ""
    ensures ReadDisk(dropped + "," + vdev + "," + mode) ==
      Some(Disk(TapBackend, Empty, Some(""), Some(vdev), false, false, mode != "" && mode[0] == 'w'))
  {
    hide ReadDisk;
    var spec := Spec(NoSource(dropped), vdev, Mode(mode));
    ReadsBack(spec);
    assert SpecText(spec) == dropped + "," + (vdev + ("," + mode));
    assert dropped + "," + (vdev + ("," + mode)) == dropped + "," + vdev + "," + mode;
  }

  /** What may stand behind the path: "ioemu:" is skipped, the mode may be missing, and ":cdrom" makes the disk an
      unpluggable drive that cannot be written, whatever mode follows. */
  lemma EndingsMean(path: string, vdev: string, mode: string)
    requires Free(path, ",") && Free(vdev, ",:") && vdev != "" && vdev != "ioemu"
    ensures var named := if path == "" then None else Some(path);
      && ReadDisk("phy:" + (path + ("," + vdev))) == Some(Disk(PhyBackend, Raw, named, Some(vdev), false, false, false))
      && ReadDisk("phy:" + (path + ("," + ("ioemu:" + (vdev + ("," + mode)))))) == Some(Device(PhyBackend, Raw, path, vdev, mode))
      && ReadDisk("phy:" + (path + ("," + (vdev + ":cdrom")))) == Some(Disk(PhyBackend, Raw, named, Some(vdev), true, true, false))
      && ReadDisk("phy:" + (path + ("," + (vdev + (":cdrom," + mode))))) == Some(Disk(PhyBackend, Raw, named, Some(vdev), true, true, false))
  {
    hide ReadDisk, Device;
    NotIoemu(vdev, "");
    NotIoemu(vdev, ":cdrom");
    NotIoemu(vdev, ":cdrom," + mode);
    assert vdev + "" == vdev;
    PhyEnding(path, false, vdev, Nothing, "");
    PhyEnding(path, true, vdev, Mode(mode), "," + mode);
    PhyEnding(path, false, vdev, Cdrom, ":cdrom");
    PhyEnding(path, false, vdev, CdromThen(mode), ":cdrom," + mode);
    assert Device(PhyBackend, Raw, path, vdev, mode) == Disk(PhyBackend, Raw, if path == "" then None else Some(path), Some(vdev), false, false,
      mode != "" && mode[0] == 'w') by { DeviceIs(PhyBackend, Raw, path, vdev, mode); }
  }

  lemma DeviceIs(backend: Backend, format: Format, path: string, vdev: string, mode: string)
    ensures Device(backend, format, path, vdev, mode) ==
      Disk(backend, format, if path == "" then None else Some(path), Some(vdev), false, false, mode != "" && mode[0] == 'w')
  {
  }

  lemma PhyEnding(path: string, ioemu: bool, vdev: string, ending: Ending, text: string)
    requires Free(path, ",") && Free(vdev, ",:") && vdev != "" && text == EndingText(ending) && (ioemu || !("ioemu:" <= vdev + text))
    ensures ReadDisk("phy:" + (path + ("," + if ioemu then "ioemu:" + (vdev + text) else vdev + text))) ==
      Some(Disk(PhyBackend, Raw, if path == "" then None else Some(path), Some(vdev), ending.Cdrom? || ending.CdromThen?,
                ending.Cdrom? || ending.CdromThen?, ending.Mode? && ending.mode != "" && ending.mode[0] == 'w'))
  {
    hide ReadDisk, EndingText;
    var spec := Spec(Path(Phy, path, ioemu), vdev, ending);
    assert KindText(Phy) == "phy:" && "" + (vdev + text) == vdev + text;
    ReadsBack(spec);
  }

  /** No other type of virtual device is accepted. */
  lemma OtherTypesRefused(path: string, vdev: string, word: string, rest: string)
    requires Free(path, ",") && Free(vdev, ",:") && vdev != "" && vdev != "ioemu"
    requires Free(word, ",") && word != "cdrom" && (rest == "" || rest[0] == ',')
    ensures ReadDisk("phy:" + (path + ("," + (vdev + (":" + (word + rest)))))) == None
  {
    hide Until;
    var tail := vdev + (":" + (word + rest));
    assert (":" + (word + rest))[1..] == word + rest;
    NotIoemu(vdev, ":" + (word + rest));
    assert KindText(Phy) == "phy:" && "" + tail == tail;
    ReadsKind(ZEROED, Phy, path + ("," + tail), path, tail);
    ReadsPath(ZEROED.(backend := PhyBackend, format := Raw), path, false, tail);
    UntilOf(vdev, ":" + (word + rest), ",:");
    UntilOf(word, rest, ",");
  }
}
