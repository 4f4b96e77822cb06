/** What the head of a mount state file says to its readers (`state_value` of
    src/daemon_mount_reclaim.rs), for every state. */
module StateHeader {
  import opened Paths
  import opened Text
  import opened StateFile

  /** `state_value` */
  function StateValue(content: string, prefix: string): Option<string> {
    FieldIn(Lines(content), prefix)
  }

  function OrElse<T>(a: Option<T>, b: Option<T>): Option<T> {
    if a.Some? then a else b
  }

  lemma {:induction false} FieldInAppends(a: seq<string>, b: seq<string>, prefix: string)
    ensures FieldIn(a + b, prefix) == OrElse(FieldIn(a, prefix), FieldIn(b, prefix))
  {
    if |a| == 0 {
      assert a + b == b;
    } else {
      TailOfConcat(a, b);
      FieldInAppends(a[1..], b, prefix);
    }
  }

  lemma FieldInOne(line: string, prefix: string)
    ensures FieldIn([line], prefix) == StripPrefix(line, prefix)
  {
    assert [line][1..] == [];
    assert Field(prefix)(line) == StripPrefix(line, prefix);
    assert FindMap(Field(prefix), []).None?;
  }

  // ----- the lines of the head -----

  lemma NumberLine(prefix: string, n: int)
    requires '\n' !in prefix && prefix != "" && prefix[|prefix| - 1] != '\r'
    ensures Lines(prefix + PrintInt(n) + "\n") == [prefix + PrintInt(n)]
  {
    PrintIsPlain(n, '\n');
    ChompKeeps(prefix, PrintInt(n));
    LinesOfEnded(prefix + PrintInt(n));
  }

  /** The package line as it is read, and what its line feeds leave behind it. */
  function PackageLines(name: string): seq<string> {
    ["package=" + ChompCR(FirstLine(name))] + Spill(name)
  }

  lemma PackageRead(name: string)
    ensures Lines("package=" + name + "\n") == PackageLines(name)
  {
    LinesOfPrefixed("package=", name);
    ChompKeeps("package=", FirstLine(name));
  }

  function FirstThree(st: MountState): seq<string> {
    ["version=" + PrintNat(st.version), "fingerprint=" + PrintNat(st.fingerprint), "policy_fp=" + PrintNat(st.policy)]
  }

  lemma PiecesOfHead(st: MountState)
    ensures Pieces(Head(st)) == FirstThree(st) + (PackageLines(st.packageName) + ["uid=" + PrintInt(st.uid)])
  {
    var package, uid := "package=" + st.packageName, "uid=" + PrintInt(st.uid);
    assert Head(st) == FirstThree(st) + ([package] + [uid]);
    PackageRead(st.packageName);
    NumberLine("uid=", st.uid);
    PiecesOfThree(st);
    PiecesOfParts(FirstThree(st), package, uid);
  }

  lemma PiecesOfParts(a: seq<string>, b: string, c: string)
    ensures Pieces(a + ([b] + [c])) == Pieces(a) + (Lines(b + "\n") + Lines(c + "\n"))
  {
    PiecesAppends(a, [b] + [c]);
    PiecesAppends([b], [c]);
    PiecesOfOne(b);
    PiecesOfOne(c);
  }

  lemma PiecesOfOne(line: string)
    ensures Pieces([line]) == Lines(line + "\n")
  {
    assert [line][1..] == [];
  }

  lemma PiecesOfThree(st: MountState)
    ensures Pieces(FirstThree(st)) == FirstThree(st)
  {
    var a, b, c := "version=" + PrintNat(st.version), "fingerprint=" + PrintNat(st.fingerprint), "policy_fp=" + PrintNat(st.policy);
    NumberLine("version=", st.version);
    NumberLine("fingerprint=", st.fingerprint);
    NumberLine("policy_fp=", st.policy);
    PiecesAppends([a], [b] + [c]);
    PiecesAppends([b], [c]);
    PiecesOfOne(a);
    PiecesOfOne(b);
    PiecesOfOne(c);
    assert FirstThree(st) == [a] + ([b] + [c]);
  }

  function Behind(st: MountState): seq<string> {
    Pieces(StartLines(st.appStart) + (ChildLines(st.children) + (HostLines(FirstHost(st.children)) + TargetLines(StateTargets(st)))))
  }

  lemma LinesOfHead(st: MountState)
    ensures Lines(StateText(st)) ==
            FirstThree(st) + ((PackageLines(st.packageName) + ["uid=" + PrintInt(st.uid)]) + Behind(st))
  {
    var rest := StartLines(st.appStart) + (ChildLines(st.children) + (HostLines(FirstHost(st.children)) + TargetLines(StateTargets(st))));
    LinesOfAny(StateLines(st));
    PiecesAppends(Head(st), rest);
    PiecesOfHead(st);
    Assoc(FirstThree(st), PackageLines(st.packageName) + ["uid=" + PrintInt(st.uid)], Behind(st));
  }

  // ----- what is read -----

  lemma OtherLetter(line: string, prefix: string)
    requires line != "" && prefix != "" && line[0] != prefix[0]
    ensures StripPrefix(line, prefix).None?
  {
  }

  lemma FirstThreeRead(st: MountState)
    ensures FieldIn(FirstThree(st), "version=") == Some(PrintNat(st.version))
    ensures FieldIn(FirstThree(st), "fingerprint=") == Some(PrintNat(st.fingerprint))
    ensures FieldIn(FirstThree(st), "policy_fp=") == Some(PrintNat(st.policy))
  {
    var h := FirstThree(st);
    assert h[0][0] == 'v' && h[1][0] == 'f';
    assert "fingerprint="[0] == 'f' && "policy_fp="[0] == 'p';
    FieldAt(h, 0, "version=", PrintNat(st.version));
    FieldAt(h, 1, "fingerprint=", PrintNat(st.fingerprint));
    FieldAt(h, 2, "policy_fp=", PrintNat(st.policy));
  }

  lemma NotInFirstThree(st: MountState, prefix: string)
    requires |prefix| > 1 && prefix[0] != 'v' && prefix[0] != 'f' && (prefix[0] != 'p' || prefix[1] != 'o')
    ensures FieldIn(FirstThree(st), prefix) == None
  {
    var h := FirstThree(st);
    assert h[0][0] == 'v' && h[1][0] == 'f' && h[2][0] == 'p' && h[2][1] == 'o';
    forall i | 0 <= i < |h|
      ensures Field(prefix)(h[i]).None?
    {
    }
    FindMapIsFirst(Field(prefix), h);
    FilterMapOfNothing(Field(prefix), h);
  }

  /** The three numbers of the head read back from every state, and the package name as far as its first
      line feed, less a carriage return there. */
  lemma HeadReadsBack(st: MountState)
    ensures StateValue(StateText(st), "version=") == Some(PrintNat(st.version))
    ensures StateValue(StateText(st), "fingerprint=") == Some(PrintNat(st.fingerprint))
    ensures StateValue(StateText(st), "policy_fp=") == Some(PrintNat(st.policy))
    ensures StateValue(StateText(st), "package=") == Some(ChompCR(FirstLine(st.packageName)))
  {
    var middle := PackageLines(st.packageName) + ["uid=" + PrintInt(st.uid)];
    LinesOfHead(st);
    FirstThreeRead(st);
    FieldInAppends(FirstThree(st), middle + Behind(st), "version=");
    FieldInAppends(FirstThree(st), middle + Behind(st), "fingerprint=");
    FieldInAppends(FirstThree(st), middle + Behind(st), "policy_fp=");
    assert "package="[0] == 'p' && "package="[1] == 'a';
    NotInFirstThree(st, "package=");
    FieldInAppends(FirstThree(st), middle + Behind(st), "package=");
    FieldAt(middle + Behind(st), 0, "package=", ChompCR(FirstLine(st.packageName)));
  }

  /** As numbers they are what was written. */
  lemma HeadNumbersReadBack(st: MountState)
    ensures StateValue(StateText(st), "version=").Some? && StateValue(StateText(st), "fingerprint=").Some?
            && StateValue(StateText(st), "policy_fp=").Some?
    ensures ParseUnsigned(StateValue(StateText(st), "version=").value, U64_MAX) == Some(st.version)
    ensures ParseUnsigned(StateValue(StateText(st), "fingerprint=").value, U64_MAX) == Some(st.fingerprint)
    ensures ParseUnsigned(StateValue(StateText(st), "policy_fp=").value, U64_MAX) == Some(st.policy)
  {
    HeadReadsBack(st);
    ParsePrintUnsigned(st.version, U64_MAX);
    ParsePrintUnsigned(st.fingerprint, U64_MAX);
    ParsePrintUnsigned(st.policy, U64_MAX);
  }

  /** The package name reads back exactly if it is a plain line. */
  lemma PackageReadsBackIff(st: MountState)
    ensures StateValue(StateText(st), "package=") == Some(st.packageName) <==> LineSafe(st.packageName)
  {
    HeadReadsBack(st);
    var name := st.packageName;
    if '\n' in name {
      assert |FirstLine(name)| < |name|;
    } else {
      assert FirstLine(name) == name;
    }
  }

  /** The uid, and the start time where one is recorded, read back unless a line that spills from the
      package name stands in for them. */
  lemma OwnerReadsBack(st: MountState)
    ensures StateValue(StateText(st), "uid=") == OrElse(FieldIn(Spill(st.packageName), "uid="), Some(PrintInt(st.uid)))
    ensures st.appStart.Some? ==>
              StateValue(StateText(st), "app_start_time=") ==
              OrElse(FieldIn(Spill(st.packageName), "app_start_time="), Some(PrintNat(st.appStart.value)))
  {
    OwnerRead(st, "uid=");
    OwnerRead(st, "app_start_time=");
    StripOwnPrefix("uid=", PrintInt(st.uid));
    OtherLetter("uid=" + PrintInt(st.uid), "app_start_time=");
    if st.appStart.Some? {
      StartRead(st);
    }
  }

  lemma OwnerRead(st: MountState, prefix: string)
    requires |prefix| > 1 && prefix[0] != 'v' && prefix[0] != 'f' && prefix[0] != 'p'
    ensures StateValue(StateText(st), prefix) ==
            OrElse(FieldIn(Spill(st.packageName), prefix),
                   OrElse(StripPrefix("uid=" + PrintInt(st.uid), prefix), FieldIn(Behind(st), prefix)))
  {
    var package, uid := "package=" + ChompCR(FirstLine(st.packageName)), "uid=" + PrintInt(st.uid);
    LinesOfHead(st);
    NotInFirstThree(st, prefix);
    FieldInAppends(FirstThree(st), (PackageLines(st.packageName) + [uid]) + Behind(st), prefix);
    FieldInAppends(PackageLines(st.packageName) + [uid], Behind(st), prefix);
    FieldInAppends(PackageLines(st.packageName), [uid], prefix);
    FieldInAppends([package], Spill(st.packageName), prefix);
    FieldInOne(package, prefix);
    FieldInOne(uid, prefix);
    OtherLetter(package, prefix);
  }

  lemma StartRead(st: MountState)
    requires st.appStart.Some?
    ensures FieldIn(Behind(st), "app_start_time=") == Some(PrintNat(st.appStart.value))
  {
    var line := "app_start_time=" + PrintNat(st.appStart.value);
    var rest := ChildLines(st.children) + (HostLines(FirstHost(st.children)) + TargetLines(StateTargets(st)));
    PiecesAppends([line], rest);
    PiecesOfOne(line);
    NumberLine("app_start_time=", st.appStart.value);
    FieldAt(Behind(st), 0, "app_start_time=", PrintNat(st.appStart.value));
  }
}
