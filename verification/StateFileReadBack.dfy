/** What the readers of the mount state file get back from a written state, for every state: line
    feeds inside the package name or a target make lines of their own. */
module StateFileReadBack {
  import opened Paths
  import opened Text
  import opened ModulePaths
  import opened StateFile
  import opened StateFileLaws

  // ----- reading block by block -----

  /** What a reader gets from lines written one by one. */
  function Reading<T>(f: string -> Option<T>, lines: seq<string>): seq<T> {
    FilterMap(f, Pieces(lines))
  }

  lemma ReadingAppends<T>(f: string -> Option<T>, a: seq<string>, b: seq<string>)
    ensures Reading(f, a + b) == Reading(f, a) + Reading(f, b)
  {
    PiecesAppends(a, b);
    FilterMapAppends(f, Pieces(a), Pieces(b));
  }

  lemma ReadingOfPlain<T>(f: string -> Option<T>, lines: seq<string>)
    requires OneLineEach(lines)
    ensures Reading(f, lines) == FilterMap(Chomping(f), lines)
  {
    PiecesOfPlain(lines);
    FilterMapChomped(f, lines);
  }

  /** A reader that passes over the lines not meant for it. */
  ghost predicate Reader<T(!new)>(f: string -> Option<T>) {
    forall line :: Ignored(line) ==> f(ChompCR(line)).None?
  }

  lemma Readers()
    ensures Reader(ParseTarget) && Reader(ParseChild) && Reader(ParseHost)
  {
    AllIgnoredUnread();
  }

  lemma ReadingOfOne<T>(f: string -> Option<T>, prefix: string, s: string)
    requires '\n' !in prefix
    ensures Reading(f, [prefix + s]) == AsSeq(f(ChompCR(prefix + FirstLine(s)))) + FilterMap(f, Spill(s))
  {
    LinesOfPrefixed(prefix, s);
    var first := ChompCR(prefix + FirstLine(s));
    assert [prefix + s][1..] == [];
    assert Pieces([prefix + s]) == Lines(prefix + s + "\n");
    FilterMapAppends(f, [first], Spill(s));
    ReadsOne(f, first);
  }

  // ----- the head -----

  lemma PackageIgnored(name: string)
    ensures Ignored("package=" + name)
  {
    var line := "package=" + name;
    assert line[0] == 'p' && line[1] == 'a';
    OtherLetters(line);
  }

  /** Lines that hold no line feed and that no reader looks at. */
  ghost predicate Quiet(lines: seq<string>) {
    OneLineEach(lines) && forall i :: 0 <= i < |lines| ==> Ignored(lines[i])
  }

  lemma ReadingOfQuiet<T(!new)>(f: string -> Option<T>, lines: seq<string>)
    requires Reader(f) && Quiet(lines)
    ensures Reading(f, lines) == []
  {
    ReadingOfPlain(f, lines);
    IgnoredBlock(f, lines);
  }

  lemma HeadParts(st: MountState)
    ensures Head(st) == Head(st)[..3] + (["package=" + st.packageName] + Head(st)[4..])
    ensures Quiet(Head(st)[..3]) && Quiet(Head(st)[4..])
  {
    HeadIgnored(st);
    NumberLines(st);
    assert Head(st)[4..] == [Head(st)[4]];
  }

  /** Of the head, only what spills from the package name is read. */
  lemma ReadingOfHead<T(!new)>(f: string -> Option<T>, st: MountState)
    requires Reader(f)
    ensures Reading(f, Head(st)) == FilterMap(f, Spill(st.packageName))
  {
    HeadParts(st);
    ReadingOfPackage(f, st.packageName);
    AroundQuiet(f, Head(st)[..3], ["package=" + st.packageName], Head(st)[4..]);
  }

  lemma ReadingOfPackage<T(!new)>(f: string -> Option<T>, name: string)
    requires Reader(f)
    ensures Reading(f, ["package=" + name]) == FilterMap(f, Spill(name))
  {
    PackageIgnored(FirstLine(name));
    ReadingOfOne(f, "package=", name);
  }

  lemma AroundQuiet<T(!new)>(f: string -> Option<T>, a: seq<string>, b: seq<string>, c: seq<string>)
    requires Reader(f) && Quiet(a) && Quiet(c)
    ensures Reading(f, a + (b + c)) == Reading(f, b)
  {
    ReadingOfQuiet(f, a);
    ReadingOfQuiet(f, c);
    ReadingAppends(f, a, b + c);
    ReadingAppends(f, b, c);
  }

  lemma NumberLines(st: MountState)
    ensures '\n' !in Head(st)[0] && '\n' !in Head(st)[1] && '\n' !in Head(st)[2] && '\n' !in Head(st)[4]
  {
    PrintIsPlain(st.version, '\n');
    PrintIsPlain(st.fingerprint, '\n');
    PrintIsPlain(st.policy, '\n');
    PrintIsPlain(st.uid, '\n');
  }

  // ----- the targets -----

  /** What a reader finds behind the line feeds of texts. */
  function SpilledReading<T>(f: string -> Option<T>, texts: seq<string>): seq<T> {
    if |texts| == 0 then [] else FilterMap(f, Spill(texts[0])) + SpilledReading(f, texts[1..])
  }

  /** What the targets read back as: of each the first line, less a carriage return, if that is safe,
      and what spills from it. */
  function TargetsBack(targets: seq<string>): seq<string> {
    if |targets| == 0 then []
    else
      var first := ChompCR(FirstLine(targets[0]));
      (if IsSafeMountTarget(first) then [first] else []) + FilterMap(ParseTarget, Spill(targets[0]))
      + TargetsBack(targets[1..])
  }

  lemma ReadingOfTarget(target: string)
    ensures Reading(ParseChild, ["target=" + target]) == FilterMap(ParseChild, Spill(target))
    ensures Reading(ParseHost, ["target=" + target]) == FilterMap(ParseHost, Spill(target))
    ensures Reading(ParseTarget, ["target=" + target]) ==
            (var first := ChompCR(FirstLine(target)); if IsSafeMountTarget(first) then [first] else [])
            + FilterMap(ParseTarget, Spill(target))
  {
    TargetLineReads(FirstLine(target));
    TargetLineReads(ChompCR(FirstLine(target)));
    ReadingOfOne(ParseChild, "target=", target);
    ReadingOfOne(ParseHost, "target=", target);
    ReadingOfOne(ParseTarget, "target=", target);
  }

  lemma {:induction false} ReadingOfTargets(targets: seq<string>)
    ensures Reading(ParseChild, TargetLines(targets)) == SpilledReading(ParseChild, targets)
    ensures Reading(ParseHost, TargetLines(targets)) == SpilledReading(ParseHost, targets)
    ensures Reading(ParseTarget, TargetLines(targets)) == TargetsBack(targets)
  {
    if |targets| > 0 {
      var one, rest := ["target=" + targets[0]], TargetLines(targets[1..]);
      ReadingOfTargets(targets[1..]);
      ReadingOfTarget(targets[0]);
      ReadingAppends(ParseChild, one, rest);
      ReadingAppends(ParseHost, one, rest);
      ReadingAppends(ParseTarget, one, rest);
    }
  }

  // ----- the whole state -----

  lemma ReadingOfState<T(!new)>(f: string -> Option<T>, st: MountState)
    requires Reader(f)
    ensures FilterMap(f, Lines(StateText(st))) ==
            FilterMap(f, Spill(st.packageName)) + FilterMap(Chomping(f), ChildLines(st.children))
            + FilterMap(Chomping(f), HostLines(FirstHost(st.children))) + Reading(f, TargetLines(StateTargets(st)))
  {
    var a, b, c := Head(st), StartLines(st.appStart), ChildLines(st.children);
    var d, e := HostLines(FirstHost(st.children)), TargetLines(StateTargets(st));
    LinesOfAny(StateLines(st));
    ReadingOfHead(f, st);
    StartIgnored(st.appStart);
    StartIsOneLineEach(st.appStart);
    ReadingOfQuiet(f, b);
    ChildLinesAreOneLineEach(st.children);
    ReadingOfPlain(f, c);
    HostIsOneLineEach(FirstHost(st.children));
    ReadingOfPlain(f, d);
    FiveReadings(f, a, b, c, d, e);
  }

  lemma FiveReadings<T>(f: string -> Option<T>, a: seq<string>, b: seq<string>, c: seq<string>, d: seq<string>, e: seq<string>)
    requires Reading(f, b) == []
    ensures Reading(f, a + (b + (c + (d + e)))) == Reading(f, a) + Reading(f, c) + Reading(f, d) + Reading(f, e)
  {
    var ra, rc, rd, re := Reading(f, a), Reading(f, c), Reading(f, d), Reading(f, e);
    calc {
      Reading(f, a + (b + (c + (d + e))));
      { ReadingAppends(f, a, b + (c + (d + e))); }
      ra + Reading(f, b + (c + (d + e)));
      { ReadingAppends(f, b, c + (d + e)); }
      ra + Reading(f, c + (d + e));
      { ReadingAppends(f, c, d + e); }
      ra + (rc + Reading(f, d + e));
      { ReadingAppends(f, d, e); }
      ra + (rc + (rd + re));
      { Assoc(ra, rc, rd + re); }
      (ra + rc) + (rd + re);
      { Assoc(ra + rc, rd, re); }
      ra + rc + rd + re;
    }
  }

  /** The first of a list, if any. */
  function FirstOf<T>(s: seq<T>): Option<T> {
    if |s| == 0 then None else Some(s[0])
  }

  /** Reading back any written state: between what spills from the package name and from the targets
      stand the terminable sessions, the live shared host session, and the targets. */
  lemma ReadBack(st: MountState)
    ensures ReadChildren(StateText(st)) ==
            FilterMap(ParseChild, Spill(st.packageName)) + Terminable(st.children)
            + SpilledReading(ParseChild, StateTargets(st))
    ensures ReadHost(StateText(st)) ==
            FirstOf(FilterMap(ParseHost, Spill(st.packageName)) + AsSeq(LiveHost(FirstHost(st.children)))
                    + SpilledReading(ParseHost, StateTargets(st)))
    ensures ReadTargets(StateText(st)) ==
            FilterMap(ParseTarget, Spill(st.packageName)) + TargetsBack(StateTargets(st))
  {
    Readers();
    ReadingOfTargets(StateTargets(st));
    ReadBackChildren(st);
    ReadBackHost(st);
    ReadBackTargets(st);
  }

  lemma ReadBackChildren(st: MountState)
    ensures ReadChildren(StateText(st)) ==
            FilterMap(ParseChild, Spill(st.packageName)) + Terminable(st.children)
            + Reading(ParseChild, TargetLines(StateTargets(st)))
  {
    Readers();
    ReadingOfState(ParseChild, st);
    ChildBlock(st.children);
    HostBlock(FirstHost(st.children));
  }

  lemma ReadBackHost(st: MountState)
    ensures ReadHost(StateText(st)) ==
            FirstOf(FilterMap(ParseHost, Spill(st.packageName)) + AsSeq(LiveHost(FirstHost(st.children)))
                    + Reading(ParseHost, TargetLines(StateTargets(st))))
  {
    Readers();
    ReadingOfState(ParseHost, st);
    ChildBlock(st.children);
    HostBlock(FirstHost(st.children));
    FindMapIsFirst(ParseHost, Lines(StateText(st)));
  }

  lemma ReadBackTargets(st: MountState)
    ensures ReadTargets(StateText(st)) ==
            FilterMap(ParseTarget, Spill(st.packageName)) + Reading(ParseTarget, TargetLines(StateTargets(st)))
  {
    Readers();
    ReadingOfState(ParseTarget, st);
    ChildBlock(st.children);
    HostBlock(FirstHost(st.children));
  }

  // ----- exactly when what was recorded is read -----

  lemma NothingAround<T>(x: seq<T>, s: seq<T>, y: seq<T>)
    ensures x + s + y == s <==> x == [] && y == []
  {
    assert |x + s + y| == |x| + |s| + |y|;
  }

  /** The sessions read back are the terminable ones if and only if nothing that spills reads as a
      session. Only then is a shared host session surely not among them. */
  lemma ChildrenReadBackIff(st: MountState)
    ensures ReadChildren(StateText(st)) == Terminable(st.children) <==>
            && FilterMap(ParseChild, Spill(st.packageName)) == []
            && SpilledReading(ParseChild, StateTargets(st)) == []
  {
    ReadBack(st);
    NothingAround(FilterMap(ParseChild, Spill(st.packageName)), Terminable(st.children),
                  SpilledReading(ParseChild, StateTargets(st)));
  }

  /** The host session read back is the recorded one if and only if none spills from the package name
      before it, unless it is the same, and none from the targets where none is recorded. */
  lemma HostReadBackIff(st: MountState)
    ensures var live := LiveHost(FirstHost(st.children));
            var before, after := FilterMap(ParseHost, Spill(st.packageName)), SpilledReading(ParseHost, StateTargets(st));
            ReadHost(StateText(st)) == live <==>
            (before == [] || live == Some(before[0])) && (before == [] && live.None? ==> after == [])
  {
    ReadBack(st);
  }

  lemma {:induction false} TargetsBackPlain(targets: seq<string>)
    requires OneLineEach(targets)
    ensures TargetsBack(targets) == SafeTargets(Chomped(targets))
  {
    if |targets| > 0 {
      var first := ChompCR(targets[0]);
      var head := if IsSafeMountTarget(first) then [first] else [];
      TargetsBackPlain(targets[1..]);
      PlainSpills(targets[0]);
      assert FilterMap(ParseTarget, []) == [];
      assert head + [] == head;
      SafeHead(targets);
    }
  }

  lemma PlainSpills(s: string)
    requires '\n' !in s
    ensures FirstLine(s) == s && Spill(s) == []
  {
  }

  lemma SafeHead(targets: seq<string>)
    requires |targets| > 0
    ensures SafeTargets(Chomped(targets)) ==
            (if IsSafeMountTarget(ChompCR(targets[0])) then [ChompCR(targets[0])] else []) + SafeTargets(Chomped(targets[1..]))
  {
    ChompedHead(targets);
    assert Chomped(targets)[1..] == Chomped(targets[1..]);
  }

  /** The targets read back as written if and only if they hold no line feed and what spills from the
      package name makes up for those that a carriage return lost; so, where nothing spills, exactly
      when each of them is a plain line, and where they are, exactly when nothing spills. */
  lemma TargetsReadBackIff(st: MountState)
    ensures var spilled, targets := FilterMap(ParseTarget, Spill(st.packageName)), StateTargets(st);
            && (ReadTargets(StateText(st)) == targets <==>
                OneLineEach(targets) && spilled + SafeTargets(Chomped(targets)) == targets)
            && (spilled == [] ==> (ReadTargets(StateText(st)) == targets <==> AllLineSafe(targets)))
            && (AllLineSafe(targets) ==> (ReadTargets(StateText(st)) == targets <==> spilled == []))
  {
    var spilled, targets := FilterMap(ParseTarget, Spill(st.packageName)), StateTargets(st);
    assert ReadTargets(StateText(st)) == spilled + TargetsBack(targets) by { ReadBack(st); }
    AllSafe(st);
    if OneLineEach(targets) {
      TargetsBackPlain(targets);
      PlainBackIff(spilled, targets);
    } else {
      ReadTargetsAreOneLineEach(Lines(StateText(st)));
    }
  }

  lemma AllSafe(st: MountState)
    ensures forall i :: 0 <= i < |StateTargets(st)| ==> IsSafeMountTarget(StateTargets(st)[i])
  {
    NormalizedExactly(st.targets + ServedTargets(st.children));
    assert forall i :: 0 <= i < |StateTargets(st)| ==> StateTargets(st)[i] in StateTargets(st);
  }

  lemma PlainBackIff(spilled: seq<string>, targets: seq<string>)
    requires OneLineEach(targets) && forall i :: 0 <= i < |targets| ==> IsSafeMountTarget(targets[i])
    ensures spilled == [] ==> (spilled + SafeTargets(Chomped(targets)) == targets <==> AllLineSafe(targets))
    ensures AllLineSafe(targets) ==> (spilled + SafeTargets(Chomped(targets)) == targets <==> spilled == [])
  {
    SafeKeepsAll(targets);
    assert AllLineSafe(targets) <==> forall i :: 0 <= i < |targets| ==> !EndsInCR(targets[i]);
    assert [] + SafeTargets(Chomped(targets)) == SafeTargets(Chomped(targets));
    assert |spilled + targets| == |spilled| + |targets|;
  }

  ghost predicate AllLineSafe(lines: seq<string>) {
    forall i :: 0 <= i < |lines| ==> LineSafe(lines[i])
  }

  // ----- a state for which it is not -----

  /** A target whose second line is the line of a session. */
  function SpillingTarget(s: Session): string {
    "/s\n" + ("fuse_child=" + SessionText(s.pid, s.start))
  }

  lemma SpillOfSession(s: Session)
    requires s.pid > 0
    ensures FilterMap(ParseChild, Spill(SpillingTarget(s))) == [FuseChildIdentity(s.pid, Some(s.start))]
  {
    var line := "fuse_child=" + SessionText(s.pid, s.start);
    ChildLineReads(s.pid, s.start);
    assert Spill(SpillingTarget(s)) == [line] by {
      assert SpillingTarget(s) == "/s" + ['\n'] + line;
      SpillOfTwo("/s", line);
    }
    ReadsOne(ParseChild, line);
  }

  lemma ReadsOne<T>(f: string -> Option<T>, line: string)
    ensures FilterMap(f, [line]) == AsSeq(f(line))
  {
    assert [line][1..] == [];
  }

  lemma SpillOfTwo(a: string, b: string)
    requires '\n' !in a && '\n' !in b
    ensures Spill(a + ['\n'] + b) == [ChompCR(b)]
  {
    FirstIndexOfConcat(a, '\n', b);
    assert (a + ['\n'] + b)[|a| + 1..] == b;
    LinesOfEnded(b);
  }

  lemma SpillingTargetIsSafe(s: Session)
    ensures IsSafeMountTarget(SpillingTarget(s))
  {
    var t, rest := SpillingTarget(s), "s\n" + ("fuse_child=" + SessionText(s.pid, s.start));
    assert t == "/" + rest && t[1] == 's' && t[2] == '\n';
    PlainSegment(s);
    assert !Under(t, "/proc") by { NotUnder(t, "/proc", 1); }
    assert !Under(t, "/sys") by { NotUnder(t, "/sys", 2); }
    assert !Under(t, "/dev") by { NotUnder(t, "/dev", 1); }
    assert !Under(t, "/data/adb") by { NotUnder(t, "/data/adb", 1); }
    OneSegmentIsSafe(rest);
  }

  lemma PlainSegment(s: Session)
    ensures var rest := "s\n" + ("fuse_child=" + SessionText(s.pid, s.start)); '/' !in rest && '\0' !in rest && |rest| > 2
  {
    PrintIsPlain(s.pid, '/');
    PrintIsPlain(s.start, '/');
    PrintIsPlain(s.pid, '\0');
    PrintIsPlain(s.start, '\0');
  }

  lemma OneSegmentIsSafe(rest: string)
    requires '/' !in rest && '\0' !in rest && |rest| > 2
    requires !Under("/" + rest, "/proc") && !Under("/" + rest, "/sys") && !Under("/" + rest, "/dev") && !Under("/" + rest, "/data/adb")
    ensures IsSafeMountTarget("/" + rest)
  {
    assert "/" + rest == "" + ['/'] + rest;
    SplitOfConcat("", '/', rest);
    SplitOfPlain(rest, '/');
  }

  lemma NotUnder(t: string, prefix: string, i: nat)
    requires i < |t| && i < |prefix| && t[i] != prefix[i]
    ensures !Under(t, prefix)
  {
    assert (prefix + "/")[i] == prefix[i];
  }

  lemma {:induction false} SpilledFrom<T>(f: string -> Option<T>, texts: seq<string>, text: string, x: T)
    requires text in texts && x in FilterMap(f, Spill(text))
    ensures x in SpilledReading(f, texts)
  {
    if texts[0] != text {
      SpilledFrom(f, texts[1..], text, x);
    }
  }

  /** Any session at all is read as a terminable one from a state that records such a target, a shared
      host session among them. */
  lemma SessionReadFromTarget(st: MountState, s: Session)
    requires s.pid > 0 && SpillingTarget(s) in st.targets + ServedTargets(st.children)
    ensures FuseChildIdentity(s.pid, Some(s.start)) in ReadChildren(StateText(st))
  {
    var x := FuseChildIdentity(s.pid, Some(s.start));
    SpillingTargetIsSafe(s);
    NormalizedExactly(st.targets + ServedTargets(st.children));
    SpillOfSession(s);
    assert x in [x];
    SpilledFrom(ParseChild, StateTargets(st), SpillingTarget(s), x);
    ReadBack(st);
  }

  /** So the shared host itself can come back as a session to terminate, from a state that records it
      as the host alone. */
  lemma HostReadAsTerminable(st: MountState, s: Session)
    requires s.pid > 0 && st.targets == [SpillingTarget(s)] && st.children == [FuseMountState("/s", 0, 0, Some(s))]
    ensures Terminable(st.children) == [] && LiveHost(FirstHost(st.children)) == Some(FuseChildIdentity(s.pid, Some(s.start)))
    ensures FuseChildIdentity(s.pid, Some(s.start)) in ReadChildren(StateText(st))
  {
    assert st.children[1..] == [];
    assert SpillingTarget(s) in st.targets + ServedTargets(st.children);
    SessionReadFromTarget(st, s);
  }
}
