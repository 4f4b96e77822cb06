/** Which mount targets the module may touch, and in which order they are kept, from
    src/platform/module_paths.rs. */
module ModulePaths {
  import opened Text
  import opened Sorting

  predicate Under(target: string, prefix: string) {
    target == prefix || prefix + "/" <= target
  }

  /** `is_safe_mount_target` */
  predicate IsSafeMountTarget(target: string) {
    && target != "" && target != "/" && '\0' !in target && target[0] == '/'
    && (forall i :: 0 <= i < |Split(target, '/')| ==> Split(target, '/')[i] != "." && Split(target, '/')[i] != "..")
    && !Under(target, "/proc") && !Under(target, "/sys") && !Under(target, "/dev") && !Under(target, "/data/adb")
  }

  /** `len`: the bytes of the text in UTF-8. */
  function ByteLength(s: string): nat {
    if |s| == 0 then 0 else ByteLength(s[..|s| - 1]) + Width(s[|s| - 1])
  }

  function Width(c: char): (n: nat)
    ensures n > 0
  {
    var v := c as int;
    if v < 0x80 then 1 else if v < 0x800 then 2 else if v < 0x1_0000 then 3 else 4
  }

  function CompareLengths(a: nat, b: nat): Ordering {
    CompareNat(b, a)
  }

  /** Longer targets first, then the text order backwards. */
  function TargetOrder(): Compare<string> {
    ByKey(ByteLength, CompareLengths, Reversed(CompareText))
  }

  function SafeTargets(targets: seq<string>): seq<string> {
    if |targets| == 0 then []
    else (if IsSafeMountTarget(targets[0]) then [targets[0]] else []) + SafeTargets(targets[1..])
  }

  /** `dedup`: one of every run of equal neighbours. */
  function Dedup(s: seq<string>): seq<string> {
    if |s| <= 1 then s
    else if s[0] == s[1] then Dedup(s[1..])
    else [s[0]] + Dedup(s[1..])
  }

  /** `normalize_mount_targets` */
  function NormalizeMountTargets(targets: seq<string>): seq<string> {
    Dedup(Sort(TargetOrder(), SafeTargets(targets)))
  }

  // ----- what the normalised list is -----

  ghost predicate StrictlyOrdered(s: seq<string>) {
    forall i, j :: 0 <= i < j < |s| ==> TargetOrder()(s[i], s[j]) == Less
  }

  lemma TargetOrderLawful()
    ensures Lawful(TargetOrder()) && Exact(TargetOrder())
  {
    TextOrder();
    ReversedLawful(CompareText);
    ByKeyLawful(ByteLength, CompareLengths, Reversed(CompareText));
  }

  lemma {:induction false} SafeTargetsAre(targets: seq<string>)
    ensures forall t :: t in SafeTargets(targets) <==> t in targets && IsSafeMountTarget(t)
  {
    if |targets| > 0 {
      SafeTargetsAre(targets[1..]);
      assert targets == [targets[0]] + targets[1..];
    }
  }

  lemma {:induction false} DedupIsStrict(s: seq<string>)
    requires Sorted(TargetOrder(), s)
    ensures StrictlyOrdered(Dedup(s))
    ensures forall t :: t in Dedup(s) <==> t in s
    ensures |s| > 0 ==> |Dedup(s)| > 0 && Dedup(s)[0] == s[0]
  {
    if |s| > 1 {
      DedupIsStrict(s[1..]);
      assert s == [s[0]] + s[1..];
      if s[0] != s[1] {
        TargetOrderLawful();
        var rest := Dedup(s[1..]);
        forall j | 0 <= j < |rest|
          ensures TargetOrder()(s[0], rest[j]) == Less
        {
          FirstIsLess(s[0], rest[0], rest[j]);
        }
      }
    }
  }

  lemma FirstIsLess(a: string, b: string, c: string)
    requires TargetOrder()(a, b) != Greater && a != b && (b == c || TargetOrder()(b, c) == Less)
    ensures TargetOrder()(a, c) == Less
  {
    TargetOrderLawful();
    assert TargetOrder()(a, c) != Greater;
    if TargetOrder()(a, c) == Equal && b != c {
      LessThenAtMost(TargetOrder(), a, b, c);
    }
  }

  /** The normalised list holds exactly the safe targets, each once, in the target order. */
  lemma NormalizedExactly(targets: seq<string>)
    ensures StrictlyOrdered(NormalizeMountTargets(targets))
    ensures forall t :: t in NormalizeMountTargets(targets) <==> t in targets && IsSafeMountTarget(t)
  {
    var safe := SafeTargets(targets);
    TargetOrderLawful();
    SafeTargetsAre(targets);
    SortSorts(TargetOrder(), safe);
    SortPermutes(TargetOrder(), safe);
    DedupIsStrict(Sort(TargetOrder(), safe));
    forall t
      ensures t in Sort(TargetOrder(), safe) <==> t in safe
    {
      assert t in multiset(Sort(TargetOrder(), safe)) <==> t in multiset(safe);
    }
  }

  lemma StrictBag(s: seq<string>)
    requires StrictlyOrdered(s)
    ensures Sorted(TargetOrder(), s)
    ensures forall t :: multiset(s)[t] == if t in s then 1 else 0
  {
    TargetOrderLawful();
    assert forall t :: TargetOrder()(t, t) != Less;
    DistinctBag(s);
  }

  /** Two lists with the same safe members normalise to the same list. */
  lemma NormalizedCanonical(a: seq<string>, b: seq<string>)
    requires forall t :: IsSafeMountTarget(t) ==> (t in a <==> t in b)
    ensures NormalizeMountTargets(a) == NormalizeMountTargets(b)
  {
    NormalizedExactly(a);
    NormalizedExactly(b);
    TargetOrderLawful();
    StrictUnique(NormalizeMountTargets(a), NormalizeMountTargets(b));
  }

  lemma StrictUnique(a: seq<string>, b: seq<string>)
    requires StrictlyOrdered(a) && StrictlyOrdered(b) && forall t :: t in a <==> t in b
    ensures a == b
  {
    StrictBag(a);
    StrictBag(b);
    assert multiset(a) == multiset(b);
    TargetOrderLawful();
    SortedUnique(TargetOrder(), a, b);
  }

  lemma {:induction false} LongerByBytes(a: string, b: string)
    requires a < b
    ensures ByteLength(a) < ByteLength(b)
    decreases |b|
  {
    var b' := b[..|b| - 1];
    if a != b' {
      LongerByBytes(a, b');
    }
  }

  // ----- what is safe, and in which order -----

  /** `name` stands between two slashes of the path, or at one of its ends. */
  ghost predicate SegmentAt(path: string, name: string, i: nat) {
    && i + |name| <= |path| && path[i..i + |name|] == name
    && (i == 0 || path[i - 1] == '/') && (i + |name| == |path| || path[i + |name|] == '/')
  }

  ghost predicate HasSegment(path: string, name: string) {
    exists i :: SegmentAt(path, name, i)
  }

  lemma {:induction false} SegmentIff(path: string, name: string)
    requires '/' !in name
    ensures name in Split(path, '/') <==> HasSegment(path, name)
    decreases |path|
  {
    var k := FirstIndex(path, '/');
    if k < |path| {
      SegmentIff(path[k + 1..], name);
      SegmentsOf(path, name, k);
    } else {
      assert Split(path, '/') == [path];
      assert path == path[0..0 + |path|];
      assert name == path ==> SegmentAt(path, name, 0);
      assert forall j :: 0 <= j < |path| ==> path[j] != '/';
    }
  }

  lemma SegmentsOf(path: string, name: string, k: nat)
    requires '/' !in name && k < |path| && path[k] == '/' && '/' !in path[..k]
    ensures HasSegment(path, name) <==> name == path[..k] || HasSegment(path[k + 1..], name)
  {
    if i: nat :| SegmentAt(path, name, i) {
      if i <= k {
        SegmentInFront(path, name, k, i);
      } else {
        SegmentBehind(path, name, k, i - k - 1);
      }
    }
    if name == path[..k] {
      assert path[0..0 + |name|] == name;
      assert SegmentAt(path, name, 0);
    }
    if HasSegment(path[k + 1..], name) {
      var i := SegmentOf(path[k + 1..], name);
      SegmentBehind(path, name, k, i);
    }
  }

  lemma SegmentOf(path: string, name: string) returns (i: nat)
    requires HasSegment(path, name)
    ensures SegmentAt(path, name, i)
  {
    i :| SegmentAt(path, name, i);
  }

  lemma SegmentBehind(path: string, name: string, k: nat, i: nat)
    requires k < |path| && path[k] == '/'
    ensures SegmentAt(path[k + 1..], name, i) <==> SegmentAt(path, name, k + 1 + i)
  {
    var rest := path[k + 1..];
    if i + |name| <= |rest| {
      assert path[k + 1 + i..k + 1 + i + |name|] == rest[i..i + |name|];
    }
  }

  lemma SegmentInFront(path: string, name: string, k: nat, i: nat)
    requires '/' !in name && k < |path| && path[k] == '/' && '/' !in path[..k]
    requires SegmentAt(path, name, i) && i <= k
    ensures i == 0 && name == path[..k]
  {
    assert forall j :: 0 <= j < k ==> path[j] == path[..k][j] != '/';
    forall j | i <= j < i + |name|
      ensures path[j] != '/'
    {
      assert path[j] == path[i..i + |name|][j - i] == name[j - i];
    }
    assert i + |name| == k;
  }

  /** Which targets are safe, letter by letter: from the root and longer than it, without a NUL and
      without a segment that climbs or stands still, and not one of the four forbidden directories nor
      below one. */
  lemma SafeIff(target: string)
    ensures IsSafeMountTarget(target) <==>
            && |target| > 1 && target[0] == '/' && '\0' !in target
            && !HasSegment(target, ".") && !HasSegment(target, "..")
            && target != "/proc" && !("/proc/" <= target) && target != "/sys" && !("/sys/" <= target)
            && target != "/dev" && !("/dev/" <= target) && target != "/data/adb" && !("/data/adb/" <= target)
  {
    SegmentIff(target, ".");
    SegmentIff(target, "..");
    assert "/proc" + "/" == "/proc/" && "/sys" + "/" == "/sys/" && "/dev" + "/" == "/dev/" && "/data/adb" + "/" == "/data/adb/";
  }

  /** The width of a letter in UTF-8, section 3 of RFC 3629. */
  lemma WidthMeans(c: char)
    ensures Width(c) == 1 <==> c <= '\U{7F}'
    ensures Width(c) == 2 <==> '\U{80}' <= c <= '\U{7FF}'
    ensures Width(c) == 3 <==> '\U{800}' <= c <= '\U{FFFF}'
    ensures Width(c) == 4 <==> '\U{10000}' <= c
    ensures ByteLength([c]) == Width(c)
  {
    assert [c][..0] == "" && ByteLength("") == 0;
  }

  lemma {:induction false} ByteLengthAppends(a: string, b: string)
    ensures ByteLength(a + b) == ByteLength(a) + ByteLength(b) && ByteLength("") == 0
    decreases |b|
  {
    if |b| == 0 {
      assert a + b == a;
    } else {
      ByteLengthAppends(a, b[..|b| - 1]);
      assert (a + b)[..|a + b| - 1] == a + b[..|b| - 1];
    }
  }

  /** Of two normalised targets the first is longer in bytes, or as long and behind in text order. */
  lemma NormalizedOrder(targets: seq<string>, i: nat, j: nat)
    requires i < j < |NormalizeMountTargets(targets)|
    ensures var a, b := NormalizeMountTargets(targets)[i], NormalizeMountTargets(targets)[j];
            ByteLength(a) > ByteLength(b) || (ByteLength(a) == ByteLength(b) && TextBefore(b, a))
  {
    var s := NormalizeMountTargets(targets);
    NormalizedExactly(targets);
    ByKeyAt(ByteLength, CompareLengths, Reversed(CompareText), s[i], s[j]);
    CompareTextMeans(s[j], s[i]);
  }

  /** Directories inside a target stand before it, so they are unmounted first. */
  lemma ChildrenFirst(targets: seq<string>, i: nat, j: nat)
    requires i < |NormalizeMountTargets(targets)| && j < |NormalizeMountTargets(targets)|
    requires NormalizeMountTargets(targets)[i] + "/" <= NormalizeMountTargets(targets)[j]
    ensures j < i
  {
    var a, b := NormalizeMountTargets(targets)[i], NormalizeMountTargets(targets)[j];
    assert |a| < |a + "/"| <= |b|;
    LongerByBytes(a, b);
    if i < j {
      NormalizedOrder(targets, i, j);
    }
  }
}
