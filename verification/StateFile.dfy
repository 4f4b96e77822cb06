/** The mount state file: how it is built (src/fuse_session.rs) and how its readers take it apart
    (src/daemon_mount.rs). */
module StateFile {
  import opened Paths
  import opened Text
  import opened ModulePaths

  datatype Session = Session(pid: i32, start: u64)

  /** One served mount point; `host` is set when the shared host session serves it. */
  datatype FuseMountState = FuseMountState(target: string, child: i32, childStart: u64, host: Option<Session>)

  /** What one write records; the fingerprint and the start time are read from outside. */
  datatype MountState = MountState(
    version: u64, fingerprint: u64, policy: u64, packageName: string, uid: i32, appStart: Option<u64>,
    targets: seq<string>, children: seq<FuseMountState>)

  // ----- writing -----

  function Head(st: MountState): seq<string> {
    ["version=" + PrintNat(st.version),
     "fingerprint=" + PrintNat(st.fingerprint),
     "policy_fp=" + PrintNat(st.policy),
     "package=" + st.packageName,
     "uid=" + PrintInt(st.uid)]
  }

  function StartLines(start: Option<u64>): seq<string> {
    match start case Some(ticks) => ["app_start_time=" + PrintNat(ticks)] case None => []
  }

  function SessionText(pid: int, start: nat): string {
    PrintInt(pid) + [':'] + PrintNat(start)
  }

  function ChildLines(children: seq<FuseMountState>): seq<string> {
    if |children| == 0 then []
    else
      (if children[0].host.Some? then []
       else ["fuse_child=" + SessionText(children[0].child, children[0].childStart)])
      + ChildLines(children[1..])
  }

  function FirstHost(children: seq<FuseMountState>): Option<Session> {
    if |children| == 0 then None
    else if children[0].host.Some? then children[0].host
    else FirstHost(children[1..])
  }

  function HostLines(host: Option<Session>): seq<string> {
    match host case Some(s) => ["fuse_host=" + SessionText(s.pid, s.start)] case None => []
  }

  function ServedTargets(children: seq<FuseMountState>): seq<string> {
    seq(|children|, i requires 0 <= i < |children| => children[i].target)
  }

  function StateTargets(st: MountState): seq<string> {
    NormalizeMountTargets(st.targets + ServedTargets(st.children))
  }

  function TargetLines(targets: seq<string>): seq<string> {
    if |targets| == 0 then [] else ["target=" + targets[0]] + TargetLines(targets[1..])
  }

  function StateLines(st: MountState): seq<string> {
    Head(st) + (StartLines(st.appStart) + (ChildLines(st.children) + (HostLines(FirstHost(st.children))
    + TargetLines(StateTargets(st)))))
  }

  function StateText(st: MountState): string {
    Unlines(StateLines(st))
  }

  /** The loop over the sessions: shared host sessions are passed over. */
  method PushChildren(before: string, children: seq<FuseMountState>) returns (content: string)
    ensures content == before + Unlines(ChildLines(children))
  {
    content := before;
    var n := 0;
    assert children[0..] == children;
    while n < |children|
      invariant n <= |children|
      invariant before + Unlines(ChildLines(children)) == content + Unlines(ChildLines(children[n..]))
    {
      var state := children[n];
      assert children[n..][1..] == children[n + 1..];
      if state.host.None? {
        var line := "fuse_child=" + SessionText(state.child, state.childStart) + "\n";
        ChildHead(children[n..]);
        Assoc(content, line, Unlines(ChildLines(children[n + 1..])));
        content := content + line;
      } else {
        assert ChildLines(children[n..]) == ChildLines(children[n + 1..]);
      }
      n := n + 1;
    }
  }

  method PushTargets(before: string, targets: seq<string>) returns (content: string)
    ensures content == before + Unlines(TargetLines(targets))
  {
    content := before;
    var n := 0;
    assert targets[0..] == targets;
    while n < |targets|
      invariant n <= |targets|
      invariant before + Unlines(TargetLines(targets)) == content + Unlines(TargetLines(targets[n..]))
    {
      assert targets[n..][1..] == targets[n + 1..];
      content := content + ("target=" + targets[n] + "\n");
      n := n + 1;
    }
  }

  /** The content `write_mount_state` builds; nothing is written for no process or no package. */
  method WriteMountState(pid: i32, st: MountState) returns (r: Option<string>)
    ensures r == if pid <= 0 || st.packageName == "" then None else Some(StateText(st))
  {
    if pid <= 0 || st.packageName == "" {
      return None;
    }
    var content := Unlines(Head(st));
    Joined(st);
    if st.appStart.Some? {
      OneLine("app_start_time=" + PrintNat(st.appStart.value));
      content := content + ("app_start_time=" + PrintNat(st.appStart.value) + "\n");
    }
    assert content == Unlines(Head(st)) + Unlines(StartLines(st.appStart));
    content := PushChildren(content, st.children);
    var host := FirstHost(st.children);
    if host.Some? {
      OneLine("fuse_host=" + SessionText(host.value.pid, host.value.start));
      content := content + ("fuse_host=" + SessionText(host.value.pid, host.value.start) + "\n");
    }
    assert content == Unlines(Head(st)) + Unlines(StartLines(st.appStart)) + Unlines(ChildLines(st.children))
                      + Unlines(HostLines(host));
    content := PushTargets(content, StateTargets(st));
    return Some(content);
  }

  /** The host line is about the first session of the shared host, wherever it stands. */
  lemma {:induction false} FirstHostMeans(children: seq<FuseMountState>)
    ensures FirstHost(children).None? <==> forall c <- children :: c.host.None?
    ensures forall i :: 0 <= i < |children| && children[i].host.Some? && (forall j :: 0 <= j < i ==> children[j].host.None?) ==>
              FirstHost(children) == children[i].host
  {
    if |children| > 0 {
      var rest := children[1..];
      FirstHostMeans(rest);
      assert children == [children[0]] + rest;
      forall i | 0 < i < |children| && children[i].host.Some? && (forall j :: 0 <= j < i ==> children[j].host.None?)
        ensures FirstHost(rest) == children[i].host
      {
        assert children[i] == rest[i - 1] && forall j :: 0 <= j < i - 1 ==> rest[j] == children[j + 1];
      }
    }
  }

  lemma ChildHead(children: seq<FuseMountState>)
    requires |children| > 0 && children[0].host.None?
    ensures Unlines(ChildLines(children)) ==
            "fuse_child=" + SessionText(children[0].child, children[0].childStart) + "\n" + Unlines(ChildLines(children[1..]))
  {
    var line := "fuse_child=" + SessionText(children[0].child, children[0].childStart);
    OneLine(line);
    UnlinesAppends([line], ChildLines(children[1..]));
  }

  lemma OneLine(line: string)
    ensures Unlines([line]) == line + "\n"
  {
    assert [line][1..] == [];
  }

  lemma Joined(st: MountState)
    ensures StateText(st) ==
            Unlines(Head(st)) + Unlines(StartLines(st.appStart)) + Unlines(ChildLines(st.children))
            + Unlines(HostLines(FirstHost(st.children))) + Unlines(TargetLines(StateTargets(st)))
  {
    var a, b, c := Head(st), StartLines(st.appStart), ChildLines(st.children);
    var d, e := HostLines(FirstHost(st.children)), TargetLines(StateTargets(st));
    UnlinesAppends(a, b + (c + (d + e)));
    UnlinesAppends(b, c + (d + e));
    UnlinesAppends(c, d + e);
    UnlinesAppends(d, e);
    var a', b', c', d', e' := Unlines(a), Unlines(b), Unlines(c), Unlines(d), Unlines(e);
    Assoc(a', b', c' + (d' + e'));
    Assoc(a' + b', c', d' + e');
    Assoc(a' + b' + c', d', e');
  }

  // ----- reading -----

  datatype FuseChildIdentity = FuseChildIdentity(pid: i32, start: Option<u64>)

  function ParseTarget(line: string): Option<string> {
    match StripPrefix(line, "target=")
    case None => None
    case Some(target) => if IsSafeMountTarget(target) then Some(target) else None
  }

  function ParseStart(text: string): Option<u64> {
    match ParseUnsigned(text, U64_MAX) case Some(n) => Some(n) case None => None
  }

  function Positive(pid: Option<int>, start: Option<u64>): Option<FuseChildIdentity>
    requires pid.Some? ==> I32_MIN <= pid.value <= I32_MAX
  {
    if pid.Some? && pid.value > 0 then Some(FuseChildIdentity(pid.value, start)) else None
  }

  function ParseChild(line: string): Option<FuseChildIdentity> {
    match StripPrefix(line, "fuse_child=")
    case None => None
    case Some(value) =>
      match SplitOnce(value, ':')
      case Some((pid, start)) => Positive(ParseSigned(pid, I32_MIN, I32_MAX), ParseStart(start))
      case None => Positive(ParseSigned(value, I32_MIN, I32_MAX), None)
  }

  function ParseHost(line: string): Option<FuseChildIdentity> {
    match StripPrefix(line, "fuse_host=")
    case None => None
    case Some(value) =>
      match SplitOnce(value, ':')
      case Some((pid, start)) => Positive(ParseSigned(pid, I32_MIN, I32_MAX), ParseStart(start))
      case None => None
  }

  /** `read_mount_targets` */
  function ReadTargets(content: string): seq<string> {
    FilterMap(ParseTarget, Lines(content))
  }

  /** `read_fuse_children` */
  function ReadChildren(content: string): seq<FuseChildIdentity> {
    FilterMap(ParseChild, Lines(content))
  }

  /** `read_fuse_host_session` */
  function ReadHost(content: string): Option<FuseChildIdentity> {
    FindMap(ParseHost, Lines(content))
  }

  // ----- refreshing the fingerprints -----

  predicate IsFingerprint(line: string) {
    "fingerprint=" <= line
  }

  predicate IsPolicy(line: string) {
    "policy_fp=" <= line
  }

  function FingerprintLine(fingerprint: u64): string {
    "fingerprint=" + PrintNat(fingerprint)
  }

  function PolicyLine(policy: u64): string {
    "policy_fp=" + PrintNat(policy)
  }

  function RefreshedLine(line: string, fingerprint: u64, policy: u64): string {
    if IsFingerprint(line) then FingerprintLine(fingerprint)
    else if IsPolicy(line) then PolicyLine(policy)
    else line
  }

  /** `join` with line feeds. */
  function Join(lines: seq<string>): string {
    if |lines| == 0 then "" else if |lines| == 1 then lines[0] else lines[0] + "\n" + Join(lines[1..])
  }

  /** Where the first fingerprint line stands, or the number of lines. */
  function FingerprintAt(lines: seq<string>): (k: nat)
    ensures k <= |lines|
    ensures k < |lines| ==> IsFingerprint(lines[k])
    ensures forall i :: 0 <= i < k ==> !IsFingerprint(lines[i])
  {
    if |lines| == 0 || IsFingerprint(lines[0]) then 0 else 1 + FingerprintAt(lines[1..])
  }

  ghost predicate Has(test: string -> bool, lines: seq<string>) {
    exists i :: 0 <= i < |lines| && test(lines[i])
  }

  function RefreshedEach(lines: seq<string>, fingerprint: u64, policy: u64): seq<string> {
    seq(|lines|, i requires 0 <= i < |lines| => RefreshedLine(lines[i], fingerprint, policy))
  }

  /** The lines after a refresh: a policy line is added behind the first fingerprint line when the
      file has none. */
  ghost function Refreshed(lines: seq<string>, fingerprint: u64, policy: u64): Option<seq<string>> {
    var each := RefreshedEach(lines, fingerprint, policy);
    var k := FingerprintAt(lines);
    if k == |lines| then None
    else if Has(IsPolicy, lines) then Some(each)
    else Some(each[..k + 1] + [PolicyLine(policy)] + each[k + 1..])
  }

  ghost function RefreshedText(content: string, fingerprint: u64, policy: u64): Option<string> {
    match Refreshed(Lines(content), fingerprint, policy)
    case None => None
    case Some(lines) => Some(Unlines(lines))
  }

  /** The pass over the lines, noting which of the two fields it met. */
  method RefreshEachLine(source: seq<string>, fingerprint: u64, policy: u64)
    returns (lines: seq<string>, replaced: bool, policyReplaced: bool)
    ensures lines == RefreshedEach(source, fingerprint, policy)
    ensures replaced == Has(IsFingerprint, source) && policyReplaced == Has(IsPolicy, source)
  {
    replaced, policyReplaced := false, false;
    lines := [];
    for n := 0 to |source|
      invariant lines == RefreshedEach(source[..n], fingerprint, policy)
      invariant replaced == exists i :: 0 <= i < n && IsFingerprint(source[i])
      invariant policyReplaced == exists i :: 0 <= i < n && IsPolicy(source[i])
    {
      DisjointPrefixes(source[n]);
      RefreshedOneMore(source, n, fingerprint, policy);
      if IsFingerprint(source[n]) {
        replaced := true;
        lines := lines + [FingerprintLine(fingerprint)];
      } else if IsPolicy(source[n]) {
        policyReplaced := true;
        lines := lines + [PolicyLine(policy)];
      } else {
        lines := lines + [source[n]];
      }
    }
    assert source[..|source|] == source;
  }

  lemma RefreshedOneMore(source: seq<string>, n: nat, fingerprint: u64, policy: u64)
    requires n < |source|
    ensures RefreshedEach(source[..n + 1], fingerprint, policy) ==
            RefreshedEach(source[..n], fingerprint, policy) + [RefreshedLine(source[n], fingerprint, policy)]
  {
  }

  /** `refresh_mount_state_fingerprint`: the new content, or nothing when the refresh is refused. */
  method RefreshFingerprint(content: string, fingerprint: u64, policy: u64) returns (r: Option<string>)
    ensures r == RefreshedText(content, fingerprint, policy)
  {
    var source := Lines(content);
    var lines, replaced, policyReplaced := RefreshEachLine(source, fingerprint, policy);
    if policyReplaced && !replaced {
      return None;
    }
    if !policyReplaced {
      var at := FingerprintAt(lines);
      SamePosition(source, fingerprint, policy);
      var position := if at < |lines| then at + 1 else 0;
      lines := lines[..position] + [PolicyLine(policy)] + lines[position..];
    }
    if !replaced {
      return None;
    }
    JoinIsUnlines(lines);
    return Some(Join(lines) + "\n");
  }

  lemma DisjointPrefixes(line: string)
    ensures !(IsFingerprint(line) && IsPolicy(line))
  {
    if IsFingerprint(line) {
      assert line[0] == "fingerprint="[0];
    }
  }

  /** The lines a refresh replaces are those that name one of the two fields, whatever the value. */
  lemma RefreshedLineMeans(line: string, fingerprint: u64, policy: u64)
    ensures (exists value :: line == "fingerprint=" + value) ==> RefreshedLine(line, fingerprint, policy) == "fingerprint=" + PrintNat(fingerprint)
    ensures (exists value :: line == "policy_fp=" + value) ==> RefreshedLine(line, fingerprint, policy) == "policy_fp=" + PrintNat(policy)
    ensures (forall value :: line != "fingerprint=" + value && line != "policy_fp=" + value) ==>
              RefreshedLine(line, fingerprint, policy) == line
  {
    DisjointPrefixes(line);
    if IsFingerprint(line) {
      assert line == "fingerprint=" + line[|"fingerprint="|..];
    }
    if IsPolicy(line) {
      assert line == "policy_fp=" + line[|"policy_fp="|..];
    }
  }

  lemma RefreshedKinds(line: string, fingerprint: u64, policy: u64)
    ensures IsFingerprint(RefreshedLine(line, fingerprint, policy)) == IsFingerprint(line)
    ensures IsPolicy(RefreshedLine(line, fingerprint, policy)) == IsPolicy(line)
  {
    DisjointPrefixes(line);
    DisjointPrefixes(FingerprintLine(fingerprint));
    DisjointPrefixes(PolicyLine(policy));
  }

  lemma SamePosition(lines: seq<string>, fingerprint: u64, policy: u64)
    ensures FingerprintAt(RefreshedEach(lines, fingerprint, policy)) == FingerprintAt(lines)
  {
    var each := RefreshedEach(lines, fingerprint, policy);
    forall i | 0 <= i < |lines|
      ensures IsFingerprint(each[i]) == IsFingerprint(lines[i])
    {
      RefreshedKinds(lines[i], fingerprint, policy);
    }
  }

  lemma {:induction false} JoinIsUnlines(lines: seq<string>)
    requires |lines| > 0
    ensures Join(lines) + "\n" == Unlines(lines)
  {
    if |lines| == 1 {
      OneLine(lines[0]);
      assert lines == [lines[0]];
    } else {
      JoinIsUnlines(lines[1..]);
      Assoc(lines[0] + "\n", Join(lines[1..]), "\n");
    }
  }
}
