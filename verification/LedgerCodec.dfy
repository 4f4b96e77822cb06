/** The mount ledger and its text form, from src/mount_ledger.rs. */
module LedgerCodec {
  import opened Paths
  import opened Text
  import opened ModulePaths

  const IDENTITY_SCHEMA_VERSION: nat := 3

  datatype NamespaceIdentity = NamespaceIdentity(dev: u64, ino: u64)

  /** One layer of the mount table. */
  datatype LiveMount = LiveMount(
    mountId: u64, parentMountId: u64, dev: string, source: string, fsType: string, root: string)

  datatype MountIdentity = MountIdentity(mountPoint: string, mountId: u64, dev: string, source: string)

  datatype MountLedger = MountLedger(
    packageName: string, targetPid: i32, targetStartTime: u64, namespace: NamespaceIdentity,
    generation: u64, mounts: seq<MountIdentity>, detachAttempts: u32)

  // ----- writing -----

  function MountValue(m: MountIdentity): string {
    PrintNat(m.mountId) + ['\t'] + (m.dev + ['\t'] + (m.source + ['\t'] + m.mountPoint))
  }

  function MountLine(m: MountIdentity): string {
    "mount=" + MountValue(m)
  }

  function MountLines(mounts: seq<MountIdentity>): seq<string> {
    if |mounts| == 0 then [] else [MountLine(mounts[0])] + MountLines(mounts[1..])
  }

  function HeaderLines(ledger: MountLedger): seq<string> {
    ["schema=" + PrintNat(IDENTITY_SCHEMA_VERSION),
     "package=" + ledger.packageName,
     "target_pid=" + PrintInt(ledger.targetPid),
     "target_start_time=" + PrintNat(ledger.targetStartTime),
     "namespace=" + (PrintNat(ledger.namespace.dev) + [':'] + PrintNat(ledger.namespace.ino)),
     "generation=" + PrintNat(ledger.generation),
     "detach_attempts=" + PrintNat(ledger.detachAttempts)]
  }

  function EncodeText(ledger: MountLedger): string {
    Unlines(HeaderLines(ledger) + MountLines(ledger.mounts))
  }

  /** `encode`: the header, then one line per mount. */
  method Encode(ledger: MountLedger) returns (content: string)
    ensures content == EncodeText(ledger)
  {
    content := Unlines(HeaderLines(ledger));
    UnlinesAppends(HeaderLines(ledger), MountLines(ledger.mounts));
    var n := 0;
    assert ledger.mounts[0..] == ledger.mounts;
    while n < |ledger.mounts|
      invariant n <= |ledger.mounts|
      invariant EncodeText(ledger) == content + Unlines(MountLines(ledger.mounts[n..]))
    {
      var mount := ledger.mounts[n];
      assert ledger.mounts[n..][1..] == ledger.mounts[n + 1..];
      content := content + (MountLine(mount) + "\n");
      n := n + 1;
    }
  }

  // ----- reading -----

  function ParseMount(line: string): Option<MountIdentity> {
    var value := StripPrefix(line, "mount=");
    if value.None? then None
    else
      var parts := Split(value.value, '\t');
      var id := ParseUnsigned(parts[0], U64_MAX);
      if id.None? || |parts| < 4 || !IsSafeMountTarget(parts[3]) then None
      else Some(MountIdentity(parts[3], id.value, parts[1], parts[2]))
  }

  function ParseMounts(lines: seq<string>): seq<MountIdentity> {
    FilterMap(ParseMount, lines)
  }

  function ParseNamespace(raw: string): Option<NamespaceIdentity> {
    match SplitOnce(raw, ':')
    case None => None
    case Some((d, i)) =>
      var dev, ino := ParseUnsigned(d, U64_MAX), ParseUnsigned(i, U64_MAX);
      if dev.Some? && ino.Some? then Some(NamespaceIdentity(dev.value, ino.value)) else None
  }

  function OptionalNumber(field: Option<string>, max: nat): (n: nat)
    ensures n <= max
  {
    if field.None? then 0
    else match ParseUnsigned(field.value, max) case Some(n) => n case None => 0
  }

  /** `decode` */
  function DecodeLines(lines: seq<string>): Option<MountLedger> {
    var schema := FieldIn(lines, "schema=");
    if schema.None? || ParseUnsigned(schema.value, U32_MAX) != Some(IDENTITY_SCHEMA_VERSION) then None
    else
      var package := FieldIn(lines, "package=");
      var pidText := FieldIn(lines, "target_pid=");
      var startText := FieldIn(lines, "target_start_time=");
      var namespaceText := FieldIn(lines, "namespace=");
      if package.None? || pidText.None? || startText.None? || namespaceText.None? then None
      else
        var pid := ParseSigned(pidText.value, I32_MIN, I32_MAX);
        var start := ParseUnsigned(startText.value, U64_MAX);
        var namespace' := ParseNamespace(namespaceText.value);
        if pid.None? || start.None? || namespace'.None? then None
        else Some(MountLedger(package.value, pid.value, start.value, namespace'.value,
                              OptionalNumber(FieldIn(lines, "generation="), U64_MAX), ParseMounts(lines),
                              OptionalNumber(FieldIn(lines, "detach_attempts="), U32_MAX)))
  }

  function Decode(content: string): Option<MountLedger> {
    DecodeLines(Lines(content))
  }

  // ----- one mount line -----

  predicate Plain(s: string) {
    '\n' !in s && '\t' !in s
  }

  predicate PlainMount(m: MountIdentity) {
    Plain(m.dev) && Plain(m.source) && Plain(m.mountPoint)
  }

  lemma MountParts(m: MountIdentity)
    requires PlainMount(m)
    ensures Split(MountValue(m), '\t') == [PrintNat(m.mountId), m.dev, m.source, m.mountPoint]
  {
    PrintIsPlain(m.mountId, '\t');
    SplitOfPlain(m.mountPoint, '\t');
    SplitOfConcat(m.source, '\t', m.mountPoint);
    SplitOfConcat(m.dev, '\t', m.source + ['\t'] + m.mountPoint);
    SplitOfConcat(PrintNat(m.mountId), '\t', m.dev + ['\t'] + (m.source + ['\t'] + m.mountPoint));
  }

  lemma MountLineParses(m: MountIdentity)
    requires PlainMount(m)
    ensures ParseMount(MountLine(m)) == if IsSafeMountTarget(m.mountPoint) then Some(m) else None
  {
    StripOwnPrefix("mount=", MountValue(m));
    MountParts(m);
    ParsePrintUnsigned(m.mountId, U64_MAX);
  }

  lemma MountLineIsOneLine(m: MountIdentity)
    requires PlainMount(m)
    ensures '\n' !in MountLine(m)
  {
    PrintIsPlain(m.mountId, '\n');
  }

  /** A carriage return at the end of the line belongs to the mount point. */
  lemma ChompMountLine(m: MountIdentity)
    ensures ChompCR(MountLine(m)) == MountLine(m.(mountPoint := ChompCR(m.mountPoint)))
  {
    var line := MountLine(m);
    if m.mountPoint == "" {
      assert line[|line| - 1] == '\t';
    } else {
      assert line[|line| - 1] == m.mountPoint[|m.mountPoint| - 1];
    }
  }

  // ----- the header -----

  lemma SkipNonMounts(header: seq<string>, rest: seq<string>)
    requires forall j :: 0 <= j < |header| ==> !("mount=" <= header[j])
    ensures ParseMounts(header + rest) == ParseMounts(rest)
  {
    FilterMapAppends(ParseMount, header, rest);
    FilterMapOfNothing(ParseMount, header);
  }

  lemma HeaderIsOneLineEach(ledger: MountLedger)
    requires '\n' !in ledger.packageName
    ensures forall i :: 0 <= i < 7 ==> '\n' !in HeaderLines(ledger)[i]
  {
    PrintIsPlain(IDENTITY_SCHEMA_VERSION, '\n');
    PrintIsPlain(ledger.targetPid, '\n');
    PrintIsPlain(ledger.targetStartTime, '\n');
    PrintIsPlain(ledger.namespace.dev, '\n');
    PrintIsPlain(ledger.namespace.ino, '\n');
    PrintIsPlain(ledger.generation, '\n');
    PrintIsPlain(ledger.detachAttempts, '\n');
  }

  /** Chomping the header lines only touches the package name. */
  lemma ChompHeader(ledger: MountLedger)
    ensures Chomped(HeaderLines(ledger)) == HeaderLines(ledger.(packageName := ChompCR(ledger.packageName)))
  {
    ChompKeeps("schema=", PrintNat(IDENTITY_SCHEMA_VERSION));
    ChompKeeps("package=", ledger.packageName);
    PrintIsPlain(ledger.targetPid, '\n');
    ChompKeeps("target_pid=", PrintInt(ledger.targetPid));
    ChompKeeps("target_start_time=", PrintNat(ledger.targetStartTime));
    ChompKeeps("namespace=", PrintNat(ledger.namespace.dev) + [':'] + PrintNat(ledger.namespace.ino));
    ChompKeeps(PrintNat(ledger.namespace.dev) + [':'], PrintNat(ledger.namespace.ino));
    ChompKeeps("generation=", PrintNat(ledger.generation));
    ChompKeeps("detach_attempts=", PrintNat(ledger.detachAttempts));
    PrintIsPlain(IDENTITY_SCHEMA_VERSION, '\n');
    PrintIsPlain(ledger.targetStartTime, '\n');
    PrintIsPlain(ledger.namespace.ino, '\n');
    PrintIsPlain(ledger.generation, '\n');
    PrintIsPlain(ledger.detachAttempts, '\n');
  }

  /** The letters that tell the header lines apart. */
  lemma HeaderInitials(ledger: MountLedger)
    ensures forall j :: 0 <= j < 7 ==> |HeaderLines(ledger)[j]| > 7
    ensures forall j :: 0 <= j < 7 ==> HeaderLines(ledger)[j][0] == "spttngd"[j]
    ensures HeaderLines(ledger)[2][7] == 'p'
  {
  }

  /** Every header line is found under its own name, whatever follows. */
  lemma HeaderFields(ledger: MountLedger, lines: seq<string>)
    requires HeaderLines(ledger) <= lines
    ensures FieldIn(lines, "schema=") == Some(PrintNat(IDENTITY_SCHEMA_VERSION))
    ensures FieldIn(lines, "package=") == Some(ledger.packageName)
    ensures FieldIn(lines, "target_pid=") == Some(PrintInt(ledger.targetPid))
    ensures FieldIn(lines, "target_start_time=") == Some(PrintNat(ledger.targetStartTime))
  {
    var h := HeaderLines(ledger);
    HeaderInitials(ledger);
    assert forall i :: 0 <= i < 7 ==> lines[i] == h[i] && lines[i][0] == "spttngd"[i];
    FieldAt(lines, 0, "schema=", PrintNat(IDENTITY_SCHEMA_VERSION));
    FieldAt(lines, 1, "package=", ledger.packageName);
    FieldAt(lines, 2, "target_pid=", PrintInt(ledger.targetPid));
    assert "target_start_time="[7] == 's';
    FieldAt(lines, 3, "target_start_time=", PrintNat(ledger.targetStartTime));
  }

  lemma MoreHeaderFields(ledger: MountLedger, lines: seq<string>)
    requires HeaderLines(ledger) <= lines
    ensures FieldIn(lines, "namespace=") ==
            Some(PrintNat(ledger.namespace.dev) + [':'] + PrintNat(ledger.namespace.ino))
    ensures FieldIn(lines, "generation=") == Some(PrintNat(ledger.generation))
    ensures FieldIn(lines, "detach_attempts=") == Some(PrintNat(ledger.detachAttempts))
  {
    var h := HeaderLines(ledger);
    HeaderInitials(ledger);
    assert forall i :: 0 <= i < 7 ==> lines[i] == h[i] && lines[i][0] == "spttngd"[i];
    FieldAt(lines, 4, "namespace=", PrintNat(ledger.namespace.dev) + [':'] + PrintNat(ledger.namespace.ino));
    FieldAt(lines, 5, "generation=", PrintNat(ledger.generation));
    FieldAt(lines, 6, "detach_attempts=", PrintNat(ledger.detachAttempts));
  }

  lemma HeaderHasNoMounts(ledger: MountLedger)
    ensures forall j :: 0 <= j < 7 ==> !("mount=" <= HeaderLines(ledger)[j])
  {
    HeaderInitials(ledger);
  }

  /** The header reads back as itself, and holds no mounts. */
  lemma DecodeHeader(ledger: MountLedger, rest: seq<string>)
    ensures DecodeLines(HeaderLines(ledger) + rest) == Some(ledger.(mounts := ParseMounts(rest)))
  {
    var header := HeaderLines(ledger);
    var lines := header + rest;
    assert ParseMounts(lines) == ParseMounts(rest) by {
      HeaderHasNoMounts(ledger);
      SkipNonMounts(header, rest);
    }
    assert header <= lines;
    HeaderFields(ledger, lines);
    MoreHeaderFields(ledger, lines);
    DecodeFields(ledger, lines);
  }

  lemma DecodeFields(ledger: MountLedger, lines: seq<string>)
    requires FieldIn(lines, "schema=") == Some(PrintNat(IDENTITY_SCHEMA_VERSION))
    requires FieldIn(lines, "package=") == Some(ledger.packageName)
    requires FieldIn(lines, "target_pid=") == Some(PrintInt(ledger.targetPid))
    requires FieldIn(lines, "target_start_time=") == Some(PrintNat(ledger.targetStartTime))
    requires FieldIn(lines, "namespace=") == Some(PrintNat(ledger.namespace.dev) + [':'] + PrintNat(ledger.namespace.ino))
    requires FieldIn(lines, "generation=") == Some(PrintNat(ledger.generation))
    requires FieldIn(lines, "detach_attempts=") == Some(PrintNat(ledger.detachAttempts))
    ensures DecodeLines(lines) == Some(ledger.(mounts := ParseMounts(lines)))
  {
    HeaderNumbers(ledger);
  }

  lemma HeaderNumbers(ledger: MountLedger)
    ensures ParseUnsigned(PrintNat(IDENTITY_SCHEMA_VERSION), U32_MAX) == Some(IDENTITY_SCHEMA_VERSION)
    ensures ParseSigned(PrintInt(ledger.targetPid), I32_MIN, I32_MAX) == Some(ledger.targetPid)
    ensures ParseUnsigned(PrintNat(ledger.targetStartTime), U64_MAX) == Some(ledger.targetStartTime)
    ensures ParseUnsigned(PrintNat(ledger.generation), U64_MAX) == Some(ledger.generation)
    ensures ParseUnsigned(PrintNat(ledger.detachAttempts), U32_MAX) == Some(ledger.detachAttempts)
    ensures ParseNamespace(PrintNat(ledger.namespace.dev) + [':'] + PrintNat(ledger.namespace.ino)) == Some(ledger.namespace)
  {
    ParsePrintUnsigned(IDENTITY_SCHEMA_VERSION, U32_MAX);
    ParsePrintSigned(ledger.targetPid, I32_MIN, I32_MAX);
    ParsePrintUnsigned(ledger.targetStartTime, U64_MAX);
    ParsePrintUnsigned(ledger.generation, U64_MAX);
    ParsePrintUnsigned(ledger.detachAttempts, U32_MAX);
    PrintIsPlain(ledger.namespace.dev, ':');
    SplitOnceOfConcat(PrintNat(ledger.namespace.dev), ':', PrintNat(ledger.namespace.ino));
    ParsePrintUnsigned(ledger.namespace.dev, U64_MAX);
    ParsePrintUnsigned(ledger.namespace.ino, U64_MAX);
  }

  // ----- the whole ledger -----

  function ChompPoints(mounts: seq<MountIdentity>): seq<MountIdentity> {
    if |mounts| == 0 then []
    else [mounts[0].(mountPoint := ChompCR(mounts[0].mountPoint))] + ChompPoints(mounts[1..])
  }

  /** The mounts a reader accepts, in order. */
  function SafeOnly(mounts: seq<MountIdentity>): seq<MountIdentity> {
    if |mounts| == 0 then []
    else (if IsSafeMountTarget(mounts[0].mountPoint) then [mounts[0]] else []) + SafeOnly(mounts[1..])
  }

  ghost predicate AllPlain(mounts: seq<MountIdentity>) {
    forall i :: 0 <= i < |mounts| ==> PlainMount(mounts[i])
  }

  lemma {:induction false} MountLinesAreOneLineEach(mounts: seq<MountIdentity>)
    requires AllPlain(mounts)
    ensures forall i :: 0 <= i < |MountLines(mounts)| ==> '\n' !in MountLines(mounts)[i]
  {
    if |mounts| > 0 {
      MountLineIsOneLine(mounts[0]);
      MountLinesAreOneLineEach(mounts[1..]);
    }
  }

  lemma {:induction false} ChompMountLines(mounts: seq<MountIdentity>)
    ensures Chomped(MountLines(mounts)) == MountLines(ChompPoints(mounts))
  {
    if |mounts| > 0 {
      ChompMountLine(mounts[0]);
      ChompedHead(MountLines(mounts));
      ChompMountLines(mounts[1..]);
    }
  }

  lemma {:induction false} ParsePlainMounts(mounts: seq<MountIdentity>)
    requires AllPlain(mounts)
    ensures ParseMounts(MountLines(mounts)) == SafeOnly(mounts)
  {
    if |mounts| > 0 {
      MountLineParses(mounts[0]);
      ParsePlainMounts(mounts[1..]);
      assert MountLines(mounts)[1..] == MountLines(mounts[1..]);
    }
  }

  lemma {:induction false} ChompPointsPlain(mounts: seq<MountIdentity>)
    requires AllPlain(mounts)
    ensures AllPlain(ChompPoints(mounts))
  {
    if |mounts| > 0 {
      ChompPointsPlain(mounts[1..]);
    }
  }

  lemma LinesOfEncoding(ledger: MountLedger)
    requires '\n' !in ledger.packageName && AllPlain(ledger.mounts)
    ensures Lines(EncodeText(ledger)) ==
            HeaderLines(ledger.(packageName := ChompCR(ledger.packageName))) + MountLines(ChompPoints(ledger.mounts))
  {
    var lines := HeaderLines(ledger) + MountLines(ledger.mounts);
    HeaderIsOneLineEach(ledger);
    MountLinesAreOneLineEach(ledger.mounts);
    LinesOfUnlines(lines, "");
    assert Unlines(lines) + "" == Unlines(lines);
    assert Lines("") == [];
    ChompedAppends(HeaderLines(ledger), MountLines(ledger.mounts));
    ChompHeader(ledger);
    ChompMountLines(ledger.mounts);
  }

  /** What reading back returns for every ledger without separators inside its strings: a carriage
      return is lost at the end of a line, and unsafe mount points are the only mounts dropped. */
  lemma ReadBack(ledger: MountLedger)
    requires '\n' !in ledger.packageName && AllPlain(ledger.mounts)
    ensures Decode(EncodeText(ledger)) ==
            Some(ledger.(packageName := ChompCR(ledger.packageName), mounts := SafeOnly(ChompPoints(ledger.mounts))))
  {
    LinesOfEncoding(ledger);
    var l' := ledger.(packageName := ChompCR(ledger.packageName));
    ChompPointsPlain(ledger.mounts);
    ParsePlainMounts(ChompPoints(ledger.mounts));
    DecodeHeader(l', MountLines(ChompPoints(ledger.mounts)));
  }

  // ----- exactly when the round trip closes -----

  ghost predicate MountSafe(m: MountIdentity) {
    PlainMount(m) && !EndsInCR(m.mountPoint) && IsSafeMountTarget(m.mountPoint)
  }

  ghost predicate CodecSafe(ledger: MountLedger) {
    LineSafe(ledger.packageName) && forall i :: 0 <= i < |ledger.mounts| ==> MountSafe(ledger.mounts[i])
  }

  lemma {:induction false} NothingLost(mounts: seq<MountIdentity>)
    ensures |SafeOnly(ChompPoints(mounts))| <= |mounts|
    ensures SafeOnly(ChompPoints(mounts)) == mounts <==>
            forall i :: 0 <= i < |mounts| ==> !EndsInCR(mounts[i].mountPoint) && IsSafeMountTarget(mounts[i].mountPoint)
  {
    if |mounts| > 0 {
      var head, tail := mounts[0], mounts[1..];
      NothingLost(tail);
      var head' := head.(mountPoint := ChompCR(head.mountPoint));
      assert ChompPoints(mounts)[1..] == ChompPoints(tail);
      var kept := SafeOnly(ChompPoints(tail));
      assert mounts == [head] + tail;
      if IsSafeMountTarget(head'.mountPoint) {
        assert SafeOnly(ChompPoints(mounts)) == [head'] + kept;
        SameCons(head', kept, head, tail);
      } else {
        assert SafeOnly(ChompPoints(mounts)) == kept;
      }
    }
  }

  lemma {:induction false} ParsedMountsPlain(lines: seq<string>)
    requires forall i :: 0 <= i < |lines| ==> '\n' !in lines[i]
    ensures AllPlain(ParseMounts(lines))
  {
    if |lines| > 0 {
      ParsedMountsPlain(lines[1..]);
      if ParseMount(lines[0]).Some? {
        ParsedMountPlain(lines[0]);
      }
    }
  }

  lemma ParsedMountPlain(line: string)
    requires '\n' !in line && ParseMount(line).Some?
    ensures PlainMount(ParseMount(line).value)
  {
    var value := StripPrefix(line, "mount=").value;
    SplitWithin(value, '\t', '\n');
  }

  lemma {:induction false} SplitWithin(s: string, c: char, d: char)
    requires d !in s
    ensures forall i :: 0 <= i < |Split(s, c)| ==> d !in Split(s, c)[i]
    decreases |s|
  {
    var i := FirstIndex(s, c);
    if i < |s| {
      SplitWithin(s[i + 1..], c, d);
    }
  }

  lemma {:induction false} FieldWithin(lines: seq<string>, prefix: string)
    requires forall i :: 0 <= i < |lines| ==> '\n' !in lines[i]
    ensures FieldIn(lines, prefix).Some? ==> '\n' !in FieldIn(lines, prefix).value
  {
    if |lines| > 0 {
      FieldWithin(lines[1..], prefix);
    }
  }

  /** Nothing read from any text holds a separator. */
  lemma DecodedIsPlain(content: string)
    ensures Decode(content).Some? ==>
              '\n' !in Decode(content).value.packageName && AllPlain(Decode(content).value.mounts)
  {
    FieldWithin(Lines(content), "package=");
    ParsedMountsPlain(Lines(content));
  }

  lemma SameAfterReading(ledger: MountLedger, kept: seq<MountIdentity>)
    requires '\n' !in ledger.packageName && AllPlain(ledger.mounts)
    requires kept == SafeOnly(ChompPoints(ledger.mounts))
    ensures ledger.(packageName := ChompCR(ledger.packageName), mounts := kept) == ledger <==> CodecSafe(ledger)
  {
    NothingLost(ledger.mounts);
    var name := ledger.packageName;
    assert ChompCR(name) == name <==> !EndsInCR(name);
  }

  /** The round trip closes exactly for ledgers whose package name is one line, and whose mounts hold
      no separator and lie on safe targets. */
  lemma RoundTrip(ledger: MountLedger)
    ensures Decode(EncodeText(ledger)) == Some(ledger) <==> CodecSafe(ledger)
  {
    if '\n' !in ledger.packageName && AllPlain(ledger.mounts) {
      ReadBack(ledger);
      SameAfterReading(ledger, SafeOnly(ChompPoints(ledger.mounts)));
    } else {
      DecodedIsPlain(EncodeText(ledger));
    }
  }

  /** With no carriage return before a line end, the safe mounts all survive, in order. */
  lemma OnlyUnsafeDropped(ledger: MountLedger)
    requires LineSafe(ledger.packageName) && AllPlain(ledger.mounts)
    requires forall i :: 0 <= i < |ledger.mounts| ==> !EndsInCR(ledger.mounts[i].mountPoint)
    ensures Decode(EncodeText(ledger)) == Some(ledger.(mounts := SafeOnly(ledger.mounts)))
  {
    ReadBack(ledger);
    ChompPointsSame(ledger.mounts);
  }

  lemma {:induction false} ChompPointsSame(mounts: seq<MountIdentity>)
    requires forall i :: 0 <= i < |mounts| ==> !EndsInCR(mounts[i].mountPoint)
    ensures ChompPoints(mounts) == mounts
  {
    if |mounts| > 0 {
      ChompPointsSame(mounts[1..]);
    }
  }

  // ----- what any text decodes to -----

  /** A text is a ledger exactly when its first line of each kind says so: schema 3, a package, a pid, a
      start time and a namespace that are numbers of their width. */
  lemma DecodesIff(content: string)
    ensures var lines := Lines(content);
            Decode(content).Some? <==>
            && FieldIn(lines, "schema=").Some? && ParseUnsigned(FieldIn(lines, "schema=").value, U32_MAX) == Some(3)
            && FieldIn(lines, "package=").Some?
            && FieldIn(lines, "target_pid=").Some? && ParseSigned(FieldIn(lines, "target_pid=").value, I32_MIN, I32_MAX).Some?
            && FieldIn(lines, "target_start_time=").Some? && ParseUnsigned(FieldIn(lines, "target_start_time=").value, U64_MAX).Some?
            && FieldIn(lines, "namespace=").Some? && ParseNamespace(FieldIn(lines, "namespace=").value).Some?
  {
  }
}
