/** What the state file promises: reading back returns what was recorded, and refreshing the
    fingerprints touches nothing else. */
module StateFileLaws {
  import opened Paths
  import opened Text
  import opened ModulePaths
  import opened StateFile

  // ----- telling the lines apart -----

  /** A line none of the three readers looks at, even after losing a carriage return. */
  ghost predicate Ignored(line: string) {
    !("target=" <= line) && !("fuse_child=" <= line) && !("fuse_host=" <= line)
  }

  lemma IgnoredIsUnread(line: string)
    requires Ignored(line)
    ensures ParseTarget(ChompCR(line)).None? && ParseChild(ChompCR(line)).None? && ParseHost(ChompCR(line)).None?
    ensures ParseTarget(line).None? && ParseChild(line).None? && ParseHost(line).None?
  {
    assert ChompCR(line) <= line;
  }

  lemma DifferentLetter(line: string, prefix: string, i: nat)
    requires i < |line| && i < |prefix| && line[i] != prefix[i]
    ensures !(prefix <= line)
  {
  }

  lemma OtherLetters(line: string)
    requires |line| > 1 && line[0] != 't' && (line[0] == 'f' ==> line[1] != 'u')
    ensures Ignored(line)
  {
    DifferentLetter(line, "target=", 0);
    if line[0] == 'f' {
      DifferentLetter(line, "fuse_child=", 1);
      DifferentLetter(line, "fuse_host=", 1);
    } else {
      DifferentLetter(line, "fuse_child=", 0);
      DifferentLetter(line, "fuse_host=", 0);
    }
  }

  lemma HeadIgnored(st: MountState)
    ensures forall i :: 0 <= i < 5 ==> Ignored(Head(st)[i])
  {
    var h := Head(st);
    assert h[0][0] == 'v' && h[1][0] == 'f' && h[2][0] == 'p' && h[3][0] == 'p' && h[4][0] == 'u';
    assert h[1][1] == 'i';
    forall i | 0 <= i < 5
      ensures Ignored(h[i])
    {
      OtherLetters(h[i]);
    }
  }

  lemma StartIgnored(start: Option<u64>)
    ensures forall i :: 0 <= i < |StartLines(start)| ==> Ignored(StartLines(start)[i])
  {
    if start.Some? {
      assert StartLines(start)[0][0] == 'a';
      OtherLetters(StartLines(start)[0]);
    }
  }

  // ----- one line of each kind -----

  /** A reader that first loses the carriage return, as reading written text does. */
  function Chomping<T>(f: string -> Option<T>): string -> Option<T> {
    line => f(ChompCR(line))
  }

  lemma ChildLineOnly(text: string)
    ensures var line := "fuse_child=" + text; !("target=" <= line) && !("fuse_host=" <= line)
  {
    var line := "fuse_child=" + text;
    assert line[0] == 'f' && line[5] == 'c';
    DifferentLetter(line, "target=", 0);
    DifferentLetter(line, "fuse_host=", 5);
  }

  lemma HostLineOnly(text: string)
    ensures var line := "fuse_host=" + text; !("target=" <= line) && !("fuse_child=" <= line)
  {
    var line := "fuse_host=" + text;
    assert line[0] == 'f' && line[5] == 'h';
    DifferentLetter(line, "target=", 0);
    DifferentLetter(line, "fuse_child=", 5);
  }

  lemma ChildLineReads(pid: i32, start: u64)
    ensures var line := "fuse_child=" + SessionText(pid, start);
            && ChompCR(line) == line && '\n' !in line
            && ParseChild(line) == (if pid > 0 then Some(FuseChildIdentity(pid, Some(start))) else None)
            && ParseTarget(line).None? && ParseHost(line).None?
  {
    var prefix, text := "fuse_child=", SessionText(pid, start);
    var line := prefix + text;
    PlainSession(prefix, pid, start);
    assert StripPrefix(line, prefix) == Some(text) by { StripOwnPrefix(prefix, text); }
    SessionReads(pid, start);
    ChildLineOnly(text);
  }

  lemma HostLineReads(pid: i32, start: u64)
    ensures var line := "fuse_host=" + SessionText(pid, start);
            && ChompCR(line) == line && '\n' !in line
            && ParseHost(line) == (if pid > 0 then Some(FuseChildIdentity(pid, Some(start))) else None)
            && ParseTarget(line).None? && ParseChild(line).None?
  {
    var prefix, text := "fuse_host=", SessionText(pid, start);
    var line := prefix + text;
    PlainSession(prefix, pid, start);
    assert StripPrefix(line, prefix) == Some(text) by { StripOwnPrefix(prefix, text); }
    SessionReads(pid, start);
    HostLineOnly(text);
  }

  lemma PlainSession(prefix: string, pid: i32, start: u64)
    requires |prefix| > 0 && '\n' !in prefix && prefix[|prefix| - 1] != '\r'
    ensures var line := prefix + SessionText(pid, start); ChompCR(line) == line && '\n' !in line
  {
    PrintIsPlain(pid, '\n');
    PrintIsPlain(start, '\n');
    ChompKeeps(PrintInt(pid) + [':'], PrintNat(start));
    ChompKeeps(prefix, SessionText(pid, start));
  }

  lemma SessionReads(pid: i32, start: u64)
    ensures SplitOnce(SessionText(pid, start), ':') == Some((PrintInt(pid), PrintNat(start)))
    ensures ParseSigned(PrintInt(pid), I32_MIN, I32_MAX) == Some(pid) && ParseUnsigned(PrintNat(start), U64_MAX) == Some(start)
  {
    PrintIsPlain(pid, ':');
    SplitOnceOfConcat(PrintInt(pid), ':', PrintNat(start));
    ParsePrintSigned(pid, I32_MIN, I32_MAX);
    ParsePrintUnsigned(start, U64_MAX);
  }

  lemma TargetLineReads(target: string)
    ensures var line := "target=" + target;
            && ChompCR(line) == "target=" + ChompCR(target)
            && ParseTarget(line) == (if IsSafeMountTarget(target) then Some(target) else None)
            && ParseChild(ChompCR(line)).None? && ParseHost(ChompCR(line)).None?
  {
    var line := "target=" + target;
    ChompKeeps("target=", target);
    StripOwnPrefix("target=", target);
    assert ChompCR(line)[0] == 't';
    DifferentLetter(ChompCR(line), "fuse_child=", 0);
    DifferentLetter(ChompCR(line), "fuse_host=", 0);
  }

  // ----- the blocks -----

  /** The sessions a reader may terminate: those not of the shared host, with a positive pid. */
  function Terminable(children: seq<FuseMountState>): seq<FuseChildIdentity> {
    if |children| == 0 then []
    else
      (if children[0].host.None? && children[0].child > 0
       then [FuseChildIdentity(children[0].child, Some(children[0].childStart))] else [])
      + Terminable(children[1..])
  }

  /** The shared host session, when it has a positive pid. */
  function LiveHost(host: Option<Session>): Option<FuseChildIdentity> {
    if host.Some? && host.value.pid > 0 then Some(FuseChildIdentity(host.value.pid, Some(host.value.start))) else None
  }

  function AsSeq<T>(o: Option<T>): seq<T> {
    if o.Some? then [o.value] else []
  }

  lemma {:induction false} ChildBlock(children: seq<FuseMountState>)
    ensures FilterMap(Chomping(ParseChild), ChildLines(children)) == Terminable(children)
    ensures FilterMap(Chomping(ParseHost), ChildLines(children)) == []
    ensures FilterMap(Chomping(ParseTarget), ChildLines(children)) == []
  {
    if |children| > 0 {
      ChildBlock(children[1..]);
      if children[0].host.None? {
        ChildLineReads(children[0].child, children[0].childStart);
        assert ChildLines(children)[1..] == ChildLines(children[1..]);
      } else {
        assert ChildLines(children) == ChildLines(children[1..]);
      }
    }
  }

  lemma HostBlock(host: Option<Session>)
    ensures FilterMap(Chomping(ParseHost), HostLines(host)) == AsSeq(LiveHost(host))
    ensures FilterMap(Chomping(ParseChild), HostLines(host)) == []
    ensures FilterMap(Chomping(ParseTarget), HostLines(host)) == []
  {
    if host.Some? {
      HostLineReads(host.value.pid, host.value.start);
      assert HostLines(host)[1..] == [];
    }
  }

  lemma {:induction false} TargetBlock(targets: seq<string>)
    ensures FilterMap(Chomping(ParseTarget), TargetLines(targets)) == SafeTargets(Chomped(targets))
    ensures FilterMap(Chomping(ParseChild), TargetLines(targets)) == []
    ensures FilterMap(Chomping(ParseHost), TargetLines(targets)) == []
  {
    if |targets| > 0 {
      TargetBlock(targets[1..]);
      TargetLineReads(targets[0]);
      TargetLineReads(ChompCR(targets[0]));
      ChompedHead(targets);
      assert TargetLines(targets)[1..] == TargetLines(targets[1..]);
      assert Chomped(targets)[1..] == Chomped(targets[1..]);
    }
  }

  lemma IgnoredBlock<T>(f: string -> Option<T>, lines: seq<string>)
    requires forall i :: 0 <= i < |lines| ==> Ignored(lines[i])
    requires forall line :: Ignored(line) ==> f(ChompCR(line)).None?
    ensures FilterMap(Chomping(f), lines) == []
  {
    FilterMapOfNothing(Chomping(f), lines);
  }

  // ----- the whole text -----

  ghost predicate OneLineEach(lines: seq<string>) {
    forall i :: 0 <= i < |lines| ==> '\n' !in lines[i]
  }

  lemma {:induction false} ChildLinesAreOneLineEach(children: seq<FuseMountState>)
    ensures OneLineEach(ChildLines(children))
  {
    if |children| > 0 {
      ChildLinesAreOneLineEach(children[1..]);
      ChildLineReads(children[0].child, children[0].childStart);
    }
  }

  lemma {:induction false} TargetLinesAreOneLineEach(targets: seq<string>)
    requires OneLineEach(targets)
    ensures OneLineEach(TargetLines(targets))
  {
    if |targets| > 0 {
      TargetLinesAreOneLineEach(targets[1..]);
    }
  }

  lemma HeadIsOneLineEach(st: MountState)
    requires '\n' !in st.packageName
    ensures OneLineEach(Head(st))
  {
    PrintIsPlain(st.version, '\n');
    PrintIsPlain(st.fingerprint, '\n');
    PrintIsPlain(st.policy, '\n');
    PrintIsPlain(st.uid, '\n');
  }

  lemma StartIsOneLineEach(start: Option<u64>)
    ensures OneLineEach(StartLines(start))
  {
    if start.Some? {
      PrintIsPlain(start.value, '\n');
    }
  }

  lemma HostIsOneLineEach(host: Option<Session>)
    ensures OneLineEach(HostLines(host))
  {
    if host.Some? {
      HostLineReads(host.value.pid, host.value.start);
    }
  }

  lemma LinesOfState(st: MountState)
    requires '\n' !in st.packageName && OneLineEach(StateTargets(st))
    ensures Lines(StateText(st)) == Chomped(StateLines(st))
  {
    HeadIsOneLineEach(st);
    StartIsOneLineEach(st.appStart);
    ChildLinesAreOneLineEach(st.children);
    HostIsOneLineEach(FirstHost(st.children));
    TargetLinesAreOneLineEach(StateTargets(st));
    LinesOfUnlines(StateLines(st), "");
    assert StateText(st) + "" == StateText(st);
    assert Lines("") == [];
  }

  // ----- losing carriage returns -----

  lemma {:induction false} SafeKeepsAll(targets: seq<string>)
    requires forall i :: 0 <= i < |targets| ==> IsSafeMountTarget(targets[i])
    ensures |SafeTargets(Chomped(targets))| <= |targets|
    ensures SafeTargets(Chomped(targets)) == targets <==> forall i :: 0 <= i < |targets| ==> !EndsInCR(targets[i])
  {
    if |targets| > 0 {
      var head, tail := targets[0], targets[1..];
      SafeKeepsAll(tail);
      ChompedHead(targets);
      assert Chomped(targets)[1..] == Chomped(tail);
      var kept := SafeTargets(Chomped(tail));
      assert targets == [head] + tail;
      if IsSafeMountTarget(ChompCR(head)) {
        assert SafeTargets(Chomped(targets)) == [ChompCR(head)] + kept;
        SameCons(ChompCR(head), kept, head, tail);
      } else {
        assert SafeTargets(Chomped(targets)) == kept;
      }
    }
  }

  lemma {:induction false} ReadTargetsAreOneLineEach(lines: seq<string>)
    requires OneLineEach(lines)
    ensures OneLineEach(FilterMap(ParseTarget, lines))
  {
    if |lines| > 0 {
      ReadTargetsAreOneLineEach(lines[1..]);
    }
  }

  // ----- refreshing -----

  /** The lines a refresh has no business with. */
  function Others(lines: seq<string>): seq<string> {
    if |lines| == 0 then []
    else (if IsFingerprint(lines[0]) || IsPolicy(lines[0]) then [] else [lines[0]]) + Others(lines[1..])
  }

  lemma {:induction false} OthersAppends(a: seq<string>, b: seq<string>)
    ensures Others(a + b) == Others(a) + Others(b)
  {
    if |a| == 0 {
      assert a + b == b;
    } else {
      var head := if IsFingerprint(a[0]) || IsPolicy(a[0]) then [] else [a[0]];
      OthersAppends(a[1..], b);
      TailOfConcat(a, b);
      Assoc(head, Others(a[1..]), Others(b));
    }
  }

  lemma {:induction false} OthersOfEach(lines: seq<string>, fingerprint: u64, policy: u64)
    ensures Others(RefreshedEach(lines, fingerprint, policy)) == Others(lines)
  {
    if |lines| > 0 {
      OthersOfEach(lines[1..], fingerprint, policy);
      RefreshedKinds(lines[0], fingerprint, policy);
      assert RefreshedEach(lines, fingerprint, policy)[1..] == RefreshedEach(lines[1..], fingerprint, policy);
    }
  }

  /** A refresh succeeds exactly on files with a fingerprint line, and changes no other line. */
  lemma RefreshKeepsOthers(lines: seq<string>, fingerprint: u64, policy: u64)
    ensures Refreshed(lines, fingerprint, policy).Some? <==> Has(IsFingerprint, lines)
    ensures Refreshed(lines, fingerprint, policy).Some? ==>
              Others(Refreshed(lines, fingerprint, policy).value) == Others(lines)
  {
    var each := RefreshedEach(lines, fingerprint, policy);
    var k := FingerprintAt(lines);
    OthersOfEach(lines, fingerprint, policy);
    if k < |lines| && !Has(IsPolicy, lines) {
      assert each == each[..k + 1] + each[k + 1..];
      OthersAppends(each[..k + 1], each[k + 1..]);
      OthersAppends(each[..k + 1] + [PolicyLine(policy)], each[k + 1..]);
      OthersAppends(each[..k + 1], [PolicyLine(policy)]);
      assert Others([PolicyLine(policy)]) == [];
    }
  }

  /** After a refresh both fingerprints read as the new ones, wherever the reader looks. */
  lemma RefreshSetsBoth(lines: seq<string>, fingerprint: u64, policy: u64)
    requires Refreshed(lines, fingerprint, policy).Some?
    ensures var updated := Refreshed(lines, fingerprint, policy).value;
            && Has(IsFingerprint, updated) && Has(IsPolicy, updated)
            && (forall i :: 0 <= i < |updated| && IsFingerprint(updated[i]) ==> updated[i] == FingerprintLine(fingerprint))
            && (forall i :: 0 <= i < |updated| && IsPolicy(updated[i]) ==> updated[i] == PolicyLine(policy))
  {
    var each := RefreshedEach(lines, fingerprint, policy);
    var k := FingerprintAt(lines);
    forall i | 0 <= i < |lines|
      ensures IsFingerprint(each[i]) == IsFingerprint(lines[i]) && IsPolicy(each[i]) == IsPolicy(lines[i])
    {
      RefreshedKinds(lines[i], fingerprint, policy);
    }
    assert IsFingerprint(each[k]);
    DisjointPrefixes(PolicyLine(policy));
    if Has(IsPolicy, lines) {
      var p :| 0 <= p < |lines| && IsPolicy(lines[p]);
      assert IsPolicy(each[p]);
      SetsBothInPlace(each, lines, fingerprint, policy);
    } else {
      SetsBothInPlace(each, lines, fingerprint, policy);
      InsertedLines(each, k, PolicyLine(policy));
    }
  }

  lemma InsertedLines(each: seq<string>, k: nat, line: string)
    requires k < |each|
    ensures var updated := each[..k + 1] + [line] + each[k + 1..];
            && |updated| == |each| + 1 && updated[k] == each[k] && updated[k + 1] == line
            && forall i :: 0 <= i < |updated| ==> updated[i] == line || updated[i] in each
  {
  }

  lemma SetsBothInPlace(each: seq<string>, lines: seq<string>, fingerprint: u64, policy: u64)
    requires each == RefreshedEach(lines, fingerprint, policy)
    ensures forall line :: line in each && IsFingerprint(line) ==> line == FingerprintLine(fingerprint)
    ensures forall line :: line in each && IsPolicy(line) ==> line == PolicyLine(policy)
  {
    forall line | line in each
      ensures IsFingerprint(line) ==> line == FingerprintLine(fingerprint)
      ensures IsPolicy(line) ==> line == PolicyLine(policy)
    {
      var i :| 0 <= i < |each| && each[i] == line;
      RefreshedKinds(lines[i], fingerprint, policy);
      DisjointPrefixes(lines[i]);
    }
  }

  // ----- refreshing keeps what is read -----

  ghost predicate NoCR(lines: seq<string>) {
    forall i :: 0 <= i < |lines| ==> !EndsInCR(lines[i])
  }

  lemma FingerprintsIgnored(line: string)
    requires IsFingerprint(line) || IsPolicy(line)
    ensures Ignored(line)
  {
    if IsFingerprint(line) {
      assert line[0] == "fingerprint="[0] && line[1] == "fingerprint="[1];
    } else {
      assert line[0] == "policy_fp="[0] && line[1] == "policy_fp="[1];
    }
    OtherLetters(line);
  }

  lemma {:induction false} ReadsOthersOnly<T>(f: string -> Option<T>, lines: seq<string>)
    requires forall line :: Ignored(line) ==> f(line).None?
    ensures FilterMap(f, lines) == FilterMap(f, Others(lines))
  {
    if |lines| > 0 {
      ReadsOthersOnly(f, lines[1..]);
      if IsFingerprint(lines[0]) || IsPolicy(lines[0]) {
        FingerprintsIgnored(lines[0]);
        assert Others(lines) == Others(lines[1..]);
      } else {
        assert Others(lines)[1..] == Others(lines[1..]);
      }
    }
  }

  lemma RefreshedSame<T>(f: string -> Option<T>, lines: seq<string>, fingerprint: u64, policy: u64)
    requires forall line :: Ignored(line) ==> f(line).None?
    requires Refreshed(lines, fingerprint, policy).Some?
    ensures FilterMap(f, Refreshed(lines, fingerprint, policy).value) == FilterMap(f, lines)
  {
    RefreshKeepsOthers(lines, fingerprint, policy);
    ReadsOthersOnly(f, lines);
    ReadsOthersOnly(f, Refreshed(lines, fingerprint, policy).value);
  }

  lemma RefreshedIsOneLineEach(lines: seq<string>, fingerprint: u64, policy: u64)
    requires OneLineEach(lines) && Refreshed(lines, fingerprint, policy).Some?
    ensures OneLineEach(Refreshed(lines, fingerprint, policy).value)
  {
    PrintIsPlain(fingerprint, '\n');
    PrintIsPlain(policy, '\n');
  }

  lemma ReadWritten<T>(f: string -> Option<T>, lines: seq<string>)
    requires OneLineEach(lines)
    ensures FilterMap(f, Lines(Unlines(lines))) == FilterMap(Chomping(f), lines)
  {
    LinesOfUnlines(lines, "");
    assert Unlines(lines) + "" == Unlines(lines) && Lines("") == [];
    FilterMapChomped(f, lines);
  }

  /** What any of the readers sees after a refresh: the same lines as before, each without a
      carriage return at its end. */
  lemma ReadAfterRefresh<T>(f: string -> Option<T>, content: string, fingerprint: u64, policy: u64)
    requires forall line :: Ignored(line) ==> f(ChompCR(line)).None?
    requires RefreshedText(content, fingerprint, policy).Some?
    ensures FilterMap(f, Lines(RefreshedText(content, fingerprint, policy).value)) ==
            FilterMap(Chomping(f), Lines(content))
  {
    var updated := Refreshed(Lines(content), fingerprint, policy).value;
    RefreshedIsOneLineEach(Lines(content), fingerprint, policy);
    ReadWritten(f, updated);
    RefreshedSame(Chomping(f), Lines(content), fingerprint, policy);
  }

  lemma {:induction false} ChompingSame<T>(f: string -> Option<T>, lines: seq<string>)
    requires NoCR(lines)
    ensures FilterMap(Chomping(f), lines) == FilterMap(f, lines)
  {
    if |lines| > 0 {
      ChompingSame(f, lines[1..]);
      assert !EndsInCR(lines[0]);
      assert ChompCR(lines[0]) == lines[0];
    }
  }

  lemma AllIgnoredUnread()
    ensures forall line :: Ignored(line) ==>
      ParseTarget(ChompCR(line)).None? && ParseChild(ChompCR(line)).None? && ParseHost(ChompCR(line)).None?
  {
    forall line | Ignored(line)
      ensures ParseTarget(ChompCR(line)).None? && ParseChild(ChompCR(line)).None? && ParseHost(ChompCR(line)).None?
    {
      IgnoredIsUnread(line);
    }
  }

  /** A refresh leaves all three readings of any file as they were, if no line of it ends in a
      carriage return of its own. */
  lemma RefreshKeepsReadings(content: string, fingerprint: u64, policy: u64)
    requires RefreshedText(content, fingerprint, policy).Some? && NoCR(Lines(content))
    ensures var updated := RefreshedText(content, fingerprint, policy).value;
            && ReadTargets(updated) == ReadTargets(content)
            && ReadChildren(updated) == ReadChildren(content)
            && ReadHost(updated) == ReadHost(content)
  {
    AllIgnoredUnread();
    ReadAfterRefresh(ParseTarget, content, fingerprint, policy);
    ReadAfterRefresh(ParseChild, content, fingerprint, policy);
    ReadAfterRefresh(ParseHost, content, fingerprint, policy);
    ChompingSame(ParseTarget, Lines(content));
    ChompingSame(ParseChild, Lines(content));
    ChompingSame(ParseHost, Lines(content));
    FindMapIsFirst(ParseHost, Lines(content));
    FindMapIsFirst(ParseHost, Lines(RefreshedText(content, fingerprint, policy).value));
  }

  lemma NotUnderLonger(s: string, prefix: string)
    requires !Under(s, prefix) && !EndsInCR(prefix)
    ensures !Under(s + "\r", prefix)
  {
    var t := s + "\r";
    assert t[|t| - 1] == '\r' && (prefix + "/")[|prefix|] == '/';
    assert prefix + "/" <= t ==> prefix + "/" <= s;
  }

  /** A carriage return at the end makes no target unsafe. */
  lemma SafeStays(s: string)
    requires IsSafeMountTarget(s)
    ensures IsSafeMountTarget(s + "\r")
  {
    var t := s + "\r";
    SplitOfLonger(s, '/', '\r');
    var parts := Split(t, '/');
    var last := parts[|parts| - 1];
    assert last[|last| - 1] == '\r';
    assert last != "." && last != "..";
    NotUnderLonger(s, "/proc");
    NotUnderLonger(s, "/sys");
    NotUnderLonger(s, "/dev");
    NotUnderLonger(s, "/data/adb");
  }

  lemma TargetThroughChomp(line: string)
    ensures Chomping(ParseTarget)(line) ==
            match ParseTarget(line)
            case Some(t) => if IsSafeMountTarget(ChompCR(t)) then Some(ChompCR(t)) else None
            case None => None
  {
    if "target=" <= line {
      var t := line[|"target="|..];
      assert line == "target=" + t;
      TargetLineReads(t);
      TargetLineReads(ChompCR(t));
      if EndsInCR(t) && IsSafeMountTarget(ChompCR(t)) {
        SafeStays(ChompCR(t));
        assert ChompCR(t) + "\r" == t;
      }
    } else {
      assert !("target=" <= ChompCR(line)) by {
        assert ChompCR(line) <= line;
      }
      assert ParseTarget(ChompCR(line)).None?;
    }
  }

  lemma {:induction false} TargetsThroughChomp(lines: seq<string>)
    ensures FilterMap(Chomping(ParseTarget), lines) == SafeTargets(Chomped(FilterMap(ParseTarget, lines)))
  {
    if |lines| > 0 {
      TargetsThroughChomp(lines[1..]);
      TargetThroughChomp(lines[0]);
      var read := FilterMap(ParseTarget, lines);
      if ParseTarget(lines[0]).Some? {
        ChompedHead(read);
        assert read[1..] == FilterMap(ParseTarget, lines[1..]);
        assert Chomped(read)[1..] == Chomped(read[1..]);
      } else {
        assert read == FilterMap(ParseTarget, lines[1..]);
      }
    }
  }

  lemma {:induction false} ReadTargetsAreSafe(lines: seq<string>)
    ensures forall i :: 0 <= i < |FilterMap(ParseTarget, lines)| ==> IsSafeMountTarget(FilterMap(ParseTarget, lines)[i])
  {
    if |lines| > 0 {
      ReadTargetsAreSafe(lines[1..]);
    }
  }

  /** On any file at all, a refresh keeps the targets exactly when none of them ends in a carriage
      return. */
  lemma RefreshKeepsTargetsIff(content: string, fingerprint: u64, policy: u64)
    requires RefreshedText(content, fingerprint, policy).Some?
    ensures ReadTargets(RefreshedText(content, fingerprint, policy).value) == ReadTargets(content) <==>
            NoCR(ReadTargets(content))
  {
    AllIgnoredUnread();
    ReadAfterRefresh(ParseTarget, content, fingerprint, policy);
    TargetsThroughChomp(Lines(content));
    ReadTargetsAreSafe(Lines(content));
    SafeKeepsAll(ReadTargets(content));
  }

  // ----- exactly when a refresh keeps the sessions -----

  lemma SplitOnceChomped(v: string, c: char)
    requires c != '\r'
    ensures SplitOnce(v, c).None? <==> SplitOnce(ChompCR(v), c).None?
    ensures SplitOnce(v, c).Some? ==> SplitOnce(ChompCR(v), c).value.0 == SplitOnce(v, c).value.0
  {
    if EndsInCR(v) {
      var w := ChompCR(v);
      assert v == w + "\r";
      var i := FirstIndex(w, c);
      if i < |w| {
        assert w == w[..i] + [c] + w[i + 1..];
        assert v == w[..i] + [c] + (w[i + 1..] + "\r");
        FirstIndexOfConcat(w[..i], c, w[i + 1..] + "\r");
      } else {
        assert c !in v;
      }
    }
  }

  lemma ChompedStrip(line: string, prefix: string)
    requires |prefix| > 0 && prefix[|prefix| - 1] != '\r'
    ensures StripPrefix(line, prefix).None? ==> StripPrefix(ChompCR(line), prefix).None?
    ensures StripPrefix(line, prefix).Some? ==>
              StripPrefix(ChompCR(line), prefix) == Some(ChompCR(StripPrefix(line, prefix).value))
  {
    if prefix <= line {
      var v := line[|prefix|..];
      assert line == prefix + v;
      ChompKeeps(prefix, v);
      StripOwnPrefix(prefix, ChompCR(v));
    } else {
      assert ChompCR(line) <= line;
    }
  }

  lemma NoNumberEndsInCR(v: string)
    requires EndsInCR(v)
    ensures ParseSigned(v, I32_MIN, I32_MAX).None?
  {
    var n := |v|;
    assert !IsDigit(v[n - 1]);
    if n > 1 {
      assert v[1..][n - 2] == v[n - 1];
    }
  }

  /** Losing a carriage return never loses a session. */
  lemma ChildThroughChomp(line: string)
    ensures ParseChild(line).Some? ==> ParseChild(ChompCR(line)).Some?
  {
    ChompedStrip(line, "fuse_child=");
    if ParseChild(line).Some? {
      var v := StripPrefix(line, "fuse_child=").value;
      SplitOnceChomped(v, ':');
      if SplitOnce(v, ':').None? && EndsInCR(v) {
        NoNumberEndsInCR(v);
      }
    }
  }

  /** Nor does it lose or make a host session: it can only complete its start time. */
  lemma HostThroughChomp(line: string)
    ensures ParseHost(line).Some? <==> ParseHost(ChompCR(line)).Some?
  {
    ChompedStrip(line, "fuse_host=");
    if StripPrefix(line, "fuse_host=").Some? {
      SplitOnceChomped(StripPrefix(line, "fuse_host=").value, ':');
    }
  }

  ghost predicate ChompNeverLoses<T(!new)>(f: string -> Option<T>) {
    forall line :: f(line).Some? ==> f(ChompCR(line)).Some?
  }

  ghost predicate SameChomped<T>(f: string -> Option<T>, line: string) {
    f(ChompCR(line)) == f(line)
  }

  lemma {:induction false} ChompingSameIff<T(!new)>(f: string -> Option<T>, lines: seq<string>)
    requires ChompNeverLoses(f)
    ensures |FilterMap(f, lines)| <= |FilterMap(Chomping(f), lines)|
    ensures FilterMap(Chomping(f), lines) == FilterMap(f, lines) <==>
            forall i :: 0 <= i < |lines| ==> SameChomped(f, lines[i])
  {
    if |lines| > 0 {
      var line, rest := lines[0], lines[1..];
      ChompingSameIff(f, rest);
      var a, b := FilterMap(Chomping(f), rest), FilterMap(f, rest);
      AllOfCons(f, lines);
      var x, y := f(ChompCR(line)), f(line);
      assert FilterMap(Chomping(f), lines) == (match x case Some(v) => [v] case None => []) + a;
      assert FilterMap(f, lines) == (match y case Some(v) => [v] case None => []) + b;
      SameWithHead(x, a, y, b);
    }
  }

  lemma SameWithHead<T>(x: Option<T>, a: seq<T>, y: Option<T>, b: seq<T>)
    requires |b| <= |a| && (y.Some? ==> x.Some?)
    ensures var s, t := (match x case Some(v) => [v] case None => []) + a, (match y case Some(v) => [v] case None => []) + b;
            |t| <= |s| && (s == t <==> x == y && a == b)
  {
    if x.Some? && y.Some? {
      SameCons(x.value, a, y.value, b);
    } else if x.None? {
      assert [] + a == a && [] + b == b;
    }
  }

  lemma AllOfCons<T>(f: string -> Option<T>, lines: seq<string>)
    requires |lines| > 0
    ensures (forall i :: 0 <= i < |lines| ==> SameChomped(f, lines[i])) <==>
            SameChomped(f, lines[0]) && forall i :: 0 <= i < |lines[1..]| ==> SameChomped(f, lines[1..][i])
  {
    if forall i :: 0 <= i < |lines[1..]| ==> SameChomped(f, lines[1..][i]) {
      assert forall i :: 0 < i < |lines| ==> lines[i] == lines[1..][i - 1];
    }
  }

  /** On any file, a refresh keeps the sessions exactly when every line reads as the same session
      without a carriage return at its end. */
  lemma RefreshKeepsChildrenIff(content: string, fingerprint: u64, policy: u64)
    requires RefreshedText(content, fingerprint, policy).Some?
    ensures ReadChildren(RefreshedText(content, fingerprint, policy).value) == ReadChildren(content) <==>
            forall i :: 0 <= i < |Lines(content)| ==> SameChomped(ParseChild, Lines(content)[i])
  {
    AllIgnoredUnread();
    ReadAfterRefresh(ParseChild, content, fingerprint, policy);
    forall line
      ensures ParseChild(line).Some? ==> ParseChild(ChompCR(line)).Some?
    {
      ChildThroughChomp(line);
    }
    ChompingSameIff(ParseChild, Lines(content));
  }

  /** The first line that a reader takes. */
  ghost predicate FirstRead<T>(f: string -> Option<T>, lines: seq<string>, i: nat) {
    i < |lines| && f(lines[i]).Some? && forall j :: 0 <= j < i ==> f(lines[j]).None?
  }

  lemma {:induction false} FindMapAt<T>(f: string -> Option<T>, lines: seq<string>) returns (i: nat)
    ensures i <= |lines| && (forall j :: 0 <= j < i ==> f(lines[j]).None?)
    ensures FindMap(f, lines) == if i < |lines| then f(lines[i]) else None
    ensures i < |lines| ==> f(lines[i]).Some?
  {
    if |lines| == 0 || f(lines[0]).Some? {
      i := 0;
    } else {
      var k := FindMapAt(f, lines[1..]);
      i := k + 1;
    }
  }

  /** On any file, a refresh keeps the host session exactly when the line it is read from reads the
      same without a carriage return at its end. */
  lemma RefreshKeepsHostIff(content: string, fingerprint: u64, policy: u64)
    requires RefreshedText(content, fingerprint, policy).Some?
    ensures ReadHost(RefreshedText(content, fingerprint, policy).value) == ReadHost(content) <==>
            forall i: nat :: FirstRead(ParseHost, Lines(content), i) ==> SameChomped(ParseHost, Lines(content)[i])
  {
    var lines, updated := Lines(content), Lines(RefreshedText(content, fingerprint, policy).value);
    AllIgnoredUnread();
    ReadAfterRefresh(ParseHost, content, fingerprint, policy);
    FindMapIsFirst(ParseHost, updated);
    FindMapIsFirst(Chomping(ParseHost), lines);
    forall line
      ensures ParseHost(line).Some? <==> ParseHost(ChompCR(line)).Some?
    {
      HostThroughChomp(line);
    }
    FoundSameIff(ParseHost, lines);
  }

  ghost predicate ChompNeverMatters<T(!new)>(f: string -> Option<T>) {
    forall line :: f(line).Some? <==> f(ChompCR(line)).Some?
  }

  lemma FoundSameIff<T(!new)>(f: string -> Option<T>, lines: seq<string>)
    requires ChompNeverMatters(f)
    ensures FindMap(Chomping(f), lines) == FindMap(f, lines) <==>
            forall i: nat :: FirstRead(f, lines, i) ==> SameChomped(f, lines[i])
  {
    var i := FindMapAt(f, lines);
    var k := FindMapAt(Chomping(f), lines);
    assert i < |lines| ==> k <= i;
    assert k < |lines| ==> i <= k;
    assert forall j: nat :: FirstRead(f, lines, j) ==> j == i;
    if i < |lines| {
      assert FirstRead(f, lines, i);
    }
  }

  /** A file whose sessions a refresh changes: a stray carriage return hides the start time, and the
      refresh drops it. */
  lemma StrayReturnChangesSession(s: Session, before: u64, fingerprint: u64, policy: u64)
    requires s.pid > 0
    ensures var content := Unlines([FingerprintLine(before), "fuse_child=" + SessionText(s.pid, s.start) + "\r\r"]);
            && RefreshedText(content, fingerprint, policy).Some?
            && ReadChildren(content) == [FuseChildIdentity(s.pid, None)]
            && ReadChildren(RefreshedText(content, fingerprint, policy).value) == [FuseChildIdentity(s.pid, Some(s.start))]
  {
    var line := "fuse_child=" + SessionText(s.pid, s.start);
    var written := [FingerprintLine(before), line + "\r\r"];
    var content := Unlines(written);
    var read := [FingerprintLine(before), line + "\r"];
    assert Lines(content) == read by { StrayLines(s, before); }
    RefreshKeepsOthers(read, fingerprint, policy);
    assert IsFingerprint(read[0]);
    AllIgnoredUnread();
    ReadAfterRefresh(ParseChild, content, fingerprint, policy);
    FingerprintsIgnored(read[0]);
    IgnoredIsUnread(read[0]);
    StrayLineReads(s);
    ReadsSecond(ParseChild, read[0], read[1]);
    ReadsSecond(Chomping(ParseChild), read[0], read[1]);
  }

  lemma ReadsSecond<T>(f: string -> Option<T>, a: string, b: string)
    requires f(a).None? && f(b).Some?
    ensures FilterMap(f, [a, b]) == [f(b).value]
  {
    assert [a, b][1..] == [b] && [b][1..] == [];
    assert FilterMap(f, [b]) == [f(b).value];
  }

  lemma StrayLines(s: Session, before: u64)
    ensures var line := "fuse_child=" + SessionText(s.pid, s.start);
            Lines(Unlines([FingerprintLine(before), line + "\r\r"])) == [FingerprintLine(before), line + "\r"]
  {
    var line := "fuse_child=" + SessionText(s.pid, s.start);
    assert '\n' !in line by { ChildLineReads(s.pid, s.start); }
    assert ChompCR(FingerprintLine(before)) == FingerprintLine(before) by { NumberHasNoCR("fingerprint=", before); }
    assert '\n' !in FingerprintLine(before) by { PrintIsPlain(before, '\n'); }
    TwoLines(FingerprintLine(before), line + "\r\r");
    assert ChompCR(line + "\r\r") == line + "\r";
  }

  lemma TwoLines(a: string, b: string)
    requires '\n' !in a && '\n' !in b
    ensures Lines(Unlines([a, b])) == [ChompCR(a), ChompCR(b)]
  {
    PiecesOfPlain([a, b]);
    LinesOfAny([a, b]);
  }

  lemma StrayLineReads(s: Session)
    requires s.pid > 0
    ensures var line := "fuse_child=" + SessionText(s.pid, s.start);
            && ParseChild(line + "\r") == Some(FuseChildIdentity(s.pid, None))
            && ParseChild(ChompCR(line + "\r")) == Some(FuseChildIdentity(s.pid, Some(s.start)))
  {
    var text := SessionText(s.pid, s.start);
    var line := "fuse_child=" + text;
    ChildLineReads(s.pid, s.start);
    assert ChompCR(line + "\r") == line;
    assert line + "\r" == "fuse_child=" + (text + "\r");
    StripOwnPrefix("fuse_child=", text + "\r");
    SplitStray(s);
    ParsePrintSigned(s.pid, I32_MIN, I32_MAX);
  }

  lemma SplitStray(s: Session)
    ensures SplitOnce(SessionText(s.pid, s.start) + "\r", ':') == Some((PrintInt(s.pid), PrintNat(s.start) + "\r"))
    ensures ParseUnsigned(PrintNat(s.start) + "\r", U64_MAX).None?
  {
    var n := PrintNat(s.start) + "\r";
    assert SessionText(s.pid, s.start) + "\r" == PrintInt(s.pid) + [':'] + n;
    PrintIsPlain(s.pid, ':');
    SplitOnceOfConcat(PrintInt(s.pid), ':', n);
    assert n[|n| - 1] == '\r' && IsDigit(n[0]);
  }

  // ----- refreshing a written state -----

  ghost predicate Untouched(lines: seq<string>) {
    forall i :: 0 <= i < |lines| ==> !IsFingerprint(lines[i]) && !IsPolicy(lines[i]) && !EndsInCR(lines[i])
  }

  lemma UntouchedLine(line: string)
    requires |line| > 1 && line[0] != 'p' && (line[0] == 'f' ==> line[1] != 'i')
    ensures !IsFingerprint(line) && !IsPolicy(line)
  {
    DifferentLetter(line, "policy_fp=", 0);
    if line[0] == 'f' {
      DifferentLetter(line, "fingerprint=", 1);
    } else {
      DifferentLetter(line, "fingerprint=", 0);
    }
  }

  lemma {:induction false} ChildLinesUntouched(children: seq<FuseMountState>)
    ensures Untouched(ChildLines(children))
  {
    if |children| > 0 {
      ChildLinesUntouched(children[1..]);
      ChildLineUntouched(children[0].child, children[0].childStart);
      if children[0].host.None? {
        UntouchedAppends(["fuse_child=" + SessionText(children[0].child, children[0].childStart)], ChildLines(children[1..]));
      }
    }
  }

  lemma ChildLineUntouched(pid: i32, start: u64)
    ensures Untouched(["fuse_child=" + SessionText(pid, start)])
  {
    var line := "fuse_child=" + SessionText(pid, start);
    ChildLineReads(pid, start);
    assert line[0] == 'f' && line[1] == 'u';
    UntouchedLine(line);
  }

  lemma UntouchedAppends(a: seq<string>, b: seq<string>)
    requires Untouched(a) && Untouched(b)
    ensures Untouched(a + b)
  {
  }

  lemma HostLinesUntouched(host: Option<Session>)
    ensures Untouched(HostLines(host))
  {
    if host.Some? {
      var line := "fuse_host=" + SessionText(host.value.pid, host.value.start);
      HostLineReads(host.value.pid, host.value.start);
      assert line[0] == 'f' && line[1] == 'u';
      UntouchedLine(line);
    }
  }

  lemma StartLinesUntouched(start: Option<u64>)
    ensures Untouched(StartLines(start))
  {
    if start.Some? {
      var line := "app_start_time=" + PrintNat(start.value);
      PrintIsPlain(start.value, '\n');
      ChompKeeps("app_start_time=", PrintNat(start.value));
      assert line[0] == 'a';
      UntouchedLine(line);
    }
  }

  lemma {:induction false} TargetLinesUntouched(targets: seq<string>)
    requires NoCR(targets)
    ensures Untouched(TargetLines(targets))
  {
    if |targets| > 0 {
      TargetLinesUntouched(targets[1..]);
      var line := "target=" + targets[0];
      ChompKeeps("target=", targets[0]);
      assert line[0] == 't' && line[1] == 'a';
      UntouchedLine(line);
    }
  }

  function Tail(st: MountState): seq<string> {
    StartLines(st.appStart) + (ChildLines(st.children) + (HostLines(FirstHost(st.children)) + TargetLines(StateTargets(st))))
  }

  lemma TailUntouched(st: MountState)
    requires NoCR(StateTargets(st))
    ensures Untouched(Tail(st))
  {
    StartLinesUntouched(st.appStart);
    ChildLinesUntouched(st.children);
    HostLinesUntouched(FirstHost(st.children));
    TargetLinesUntouched(StateTargets(st));
  }

  lemma NumberHasNoCR(prefix: string, n: int)
    requires |prefix| > 0 && prefix[|prefix| - 1] != '\r'
    ensures !EndsInCR(prefix + PrintInt(n))
  {
    PrintIsPlain(n, '\n');
    ChompKeeps(prefix, PrintInt(n));
  }

  lemma HeadHasNoCR(st: MountState)
    requires !EndsInCR(st.packageName)
    ensures NoCR(Head(st))
  {
    assert !EndsInCR(Head(st)[0]) by { NumberHasNoCR("version=", st.version); }
    assert !EndsInCR(Head(st)[1]) by { NumberHasNoCR("fingerprint=", st.fingerprint); }
    assert !EndsInCR(Head(st)[2]) by { NumberHasNoCR("policy_fp=", st.policy); }
    assert !EndsInCR(Head(st)[3]) by { ChompKeeps("package=", st.packageName); }
    assert !EndsInCR(Head(st)[4]) by { NumberHasNoCR("uid=", st.uid); }
  }

  lemma RefreshedHead(st: MountState, fingerprint: u64, policy: u64)
    ensures RefreshedEach(Head(st), fingerprint, policy) == Head(st.(fingerprint := fingerprint, policy := policy))
    ensures FingerprintAt(Head(st)) < 5 && IsPolicy(Head(st)[2])
  {
    var h := Head(st);
    assert h[0][0] == 'v' && h[3][0] == 'p' && h[3][1] == 'a' && h[4][0] == 'u';
    UntouchedLine(h[0]);
    UntouchedLine(h[4]);
    DifferentLetter(h[3], "policy_fp=", 1);
    DifferentLetter(h[3], "fingerprint=", 0);
    DisjointPrefixes(h[2]);
    assert IsFingerprint(h[1]);
  }

  lemma RefreshedHeadAndTail(head: seq<string>, tail: seq<string>, fingerprint: u64, policy: u64)
    requires Untouched(tail)
    ensures RefreshedEach(head + tail, fingerprint, policy) == RefreshedEach(head, fingerprint, policy) + tail
  {
  }

  /** Refreshing a written state gives exactly the text that writing the state anew with the new
      fingerprints would give. */
  lemma RefreshIsRewrite(st: MountState, fingerprint: u64, policy: u64)
    requires LineSafe(st.packageName)
    requires forall i :: 0 <= i < |StateTargets(st)| ==> LineSafe(StateTargets(st)[i])
    ensures RefreshedText(StateText(st), fingerprint, policy) ==
            Some(StateText(st.(fingerprint := fingerprint, policy := policy)))
  {
    var lines := StateLines(st);
    LinesOfState(st);
    HeadHasNoCR(st);
    TailUntouched(st);
    assert lines == Head(st) + Tail(st);
    assert Chomped(lines) == lines;
    RefreshedHead(st, fingerprint, policy);
    RefreshedHeadAndTail(Head(st), Tail(st), fingerprint, policy);
    assert lines[2] == Head(st)[2] && lines[FingerprintAt(Head(st))] == Head(st)[FingerprintAt(Head(st))];
    assert Has(IsPolicy, lines);
  }
}
