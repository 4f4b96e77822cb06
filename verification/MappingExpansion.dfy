/** `expand_namespace_path_mappings` of src/domain.rs: mapping chains compiled into independent
    mount points, so that one longest-prefix lookup does the work of a whole walk. */
module MappingExpansion {
  import opened Paths
  import opened Orbits
  import opened MappingChain

  // ----- two paths rewritten in lockstep -----

  /** The `n` rewrites that finish `p` all happen at or above `a`: what lies below `a` is
      carried along untouched. */
  ghost predicate Uniform(a: string, p: string, mappings: seq<PathMapping>, n: nat)
    decreases n, p
  {
    && Covers(a, p)
    && if n == 0 then Rewriting(mappings)(p).None?
       else
         var b := Best(p, mappings);
         && b >= 0 && Covers(mappings[b].request, a)
         && Uniform(Rewrite(a, mappings[b]), Rewrite(p, mappings[b]), mappings, n - 1)
  }

  /** Below `a` nothing better applies, so the rule for `p` is the rule for `a`. */
  lemma BestAbove(a: string, p: string, mappings: seq<PathMapping>)
    requires Covers(a, p)
    requires Best(p, mappings) >= 0 ==> Covers(mappings[Best(p, mappings)].request, a)
    ensures Best(a, mappings) == Best(p, mappings)
  {
    forall i | 0 <= i < |mappings| && Covers(mappings[i].request, a)
      ensures Covers(mappings[i].request, p)
    {
      CoversTransitive(mappings[i].request, a, p);
    }
  }

  lemma RewriteBelow(a: string, p: string, m: PathMapping)
    requires Covers(m.request, a) && Covers(a, p) && m.final != ""
    ensures Covers(m.request, p)
    ensures Covers(Rewrite(a, m), Rewrite(p, m))
    ensures |Rewrite(p, m)| - |Rewrite(a, m)| == |p| - |a|
    ensures Rewrite(p, m)[|Rewrite(a, m)|..] == p[|a|..]
    ensures a <= p ==> Rewrite(a, m) <= Rewrite(p, m)
  {
    CoversTransitive(m.request, a, p);
    RewriteKey(a, m);
    RewriteKey(p, m);
    CoversByKey(m.request, a);
    CoversByKey(a, p);
    var x, y := Rewrite(a, m), Rewrite(p, m);
    assert y[|x|..] == p[|a|..];
    assert MatchKey(x) <= MatchKey(y) by {
      assert MatchKey(a)[|m.request|..] <= MatchKey(p)[|m.request|..];
    }
    if |a| < |p| {
      assert MatchKey(y)[|x|] == MatchKey(p)[|a|];
    }
    CoversByKey(x, y);
  }

  lemma {:induction false} UniformBetween(a: string, b: string, p: string, mappings: seq<PathMapping>, n: nat)
    requires NonEmptyFinals(mappings) && Uniform(a, p, mappings, n) && Covers(a, b) && Covers(b, p)
    ensures Uniform(b, p, mappings, n)
    decreases n
  {
    if n > 0 {
      var m := mappings[Best(p, mappings)];
      assert m in mappings;
      CoversTransitive(m.request, a, b);
      RewriteBelow(a, b, m);
      RewriteBelow(b, p, m);
      UniformBetween(Rewrite(a, m), Rewrite(b, m), Rewrite(p, m), mappings, n - 1);
      UniformStep(mappings, b, p, m, n);
    }
  }

  lemma SamePathKey(a: string, p: string)
    requires Covers(a, p)
    ensures MatchKey(p) == MatchKey(a + p[|a|..])
    ensures a <= p ==> p == a + p[|a|..]
  {
    CoversByKey(a, p);
    KeyOfConcat(a, p[|a|..]);
    KeyOfSlice(p, |a|);
  }

  /** Both paths resolve in `n` rewrites, `p` to what `a` resolves to plus its own tail. */
  lemma {:induction false} UniformResolves(a: string, p: string, mappings: seq<PathMapping>, n: nat)
    requires NonEmptyFinals(mappings) && Uniform(a, p, mappings, n)
    ensures ResolvesIn(Rewriting(mappings), a, n) && ResolvesIn(Rewriting(mappings), p, n)
    ensures MatchKey(After(Rewriting(mappings), p, n))
            == MatchKey(After(Rewriting(mappings), a, n) + p[|a|..])
    ensures a <= p ==> After(Rewriting(mappings), p, n) == After(Rewriting(mappings), a, n) + p[|a|..]
    decreases n
  {
    BestAbove(a, p, mappings);
    if n == 0 {
      SamePathKey(a, p);
    } else {
      var m := mappings[Best(p, mappings)];
      assert m in mappings;
      RewriteBelow(a, p, m);
      UniformResolves(Rewrite(a, m), Rewrite(p, m), mappings, n - 1);
      OneStepDown(mappings, a, Rewrite(a, m), n);
      OneStepDown(mappings, p, Rewrite(p, m), n);
    }
  }

  lemma OneStepDown(mappings: seq<PathMapping>, p: string, q: string, n: nat)
    requires n > 0 && Rewriting(mappings)(p) == Some(q) && ResolvesIn(Rewriting(mappings), q, n - 1)
    ensures ResolvesIn(Rewriting(mappings), p, n)
    ensures After(Rewriting(mappings), p, n) == After(Rewriting(mappings), q, n - 1)
  {
  }

  // ----- the expanded list -----

  predicate StrictlyCovers(root: string, p: string) {
    Covers(root, p) && ChildSuffix(p, root).value != ""
  }

  lemma StrictlyCoversIff(root: string, p: string)
    ensures StrictlyCovers(root, p) <==> Covers(root, p) && |root| < |p|
  {
    CoversByKey(root, p);
  }

  /** The path that rule `m` carries onto `p`. */
  function PullBack(p: string, m: PathMapping): string
    requires Covers(m.final, p)
  {
    m.request + ChildSuffix(p, m.final).value
  }

  /** A list of mount points with the keys that were taken from the worklist and the level at
      which each was. */
  datatype Worked = Worked(mappings: seq<PathMapping>, mounts: seq<PathMapping>, depths: map<string, nat>)
  {
    ghost predicate HasMount(key: string) {
      exists i :: 0 <= i < |mounts| && MatchKey(mounts[i].request) == key
    }

    /** `key` is a request at level 0, or one rule behind a mount point one level up. */
    ghost predicate Derived(key: string, d: nat) {
      || (d == 0 && exists j :: 0 <= j < |mappings| && key == MatchKey(mappings[j].request))
      || exists i, j :: 0 <= i < |mounts| && 0 <= j < |mappings|
                        && MatchKey(mounts[i].request) in depths
                        && depths[MatchKey(mounts[i].request)] + 1 == d
                        && StrictlyCovers(mappings[j].final, mounts[i].request)
                        && key == MatchKey(PullBack(mounts[i].request, mappings[j]))
    }

    ghost predicate AnsweredAt(i: nat)
      requires i < |mounts|
    {
      mounts[i].final != "" && mounts[i].final == MapPath(mounts[i].request, mappings)
    }

    /** Every mount point is a worked key with its walker answer, each key once, and every
        worked key with an answer has one. */
    ghost predicate Emitted() {
      && (forall i :: 0 <= i < |mounts| ==> MatchKey(mounts[i].request) in depths)
      && (forall i {:trigger AnsweredAt(i)} :: 0 <= i < |mounts| ==> AnsweredAt(i))
      && DistinctRequests(mounts)
      && (forall p {:trigger HasMount(MatchKey(p))} ::
            MatchKey(p) in depths && MapPath(p, mappings) != "" ==> HasMount(MatchKey(p)))
    }

    ghost predicate Complete()
      requires Emitted()
    {
      && (forall j :: 0 <= j < |mappings| ==>
            MatchKey(mappings[j].request) in depths && depths[MatchKey(mappings[j].request)] == 0)
      && (forall i, j ::
            (0 <= i < |mounts| && 0 <= j < |mappings|
             && depths[MatchKey(mounts[i].request)] < MAX_PATH_MAPPING_DEPTH
             && StrictlyCovers(mappings[j].final, mounts[i].request)) ==>
              var k := MatchKey(PullBack(mounts[i].request, mappings[j]));
              k in depths && depths[k] <= depths[MatchKey(mounts[i].request)] + 1)
    }

    ghost predicate Sound() {
      forall k, d {:trigger Derived(k, d)} :: k in depths && d == depths[k] ==>
        d <= MAX_PATH_MAPPING_DEPTH && Derived(k, d)
    }

    /** The worklist met no request that the walker refuses. */
    ghost predicate AllAnswered() {
      forall p {:trigger HasMount(MatchKey(p))} :: MatchKey(p) in depths ==> MapPath(p, mappings) != ""
    }

    ghost predicate Finished() {
      Emitted() && Complete() && Sound()
    }
  }

  /** The expanded list: all requests at level 0, and behind every mount point above level 10
      its pull-backs, nothing else. */
  type Expansion = x: Worked | x.Finished() witness Worked([], [], map[])

  /** One longest-prefix lookup in a list of mount points; empty text when none covers `p`. */
  function Lookup(p: string, mounts: seq<PathMapping>): string {
    match Step(p, mounts)
    case None => ""
    case Some(q) => q
  }

  // ----- every answered path has a uniform mount point -----

  /** Pulling a path back through a rule and rewriting it again gives the path. */
  lemma PullBackPath(m: PathMapping, e: string, p: string)
    requires p != "" && Covers(m.request, p) && Covers(e, Rewrite(p, m))
    requires Covers(m.final, e) && |m.final| < |e|
    ensures StrictlyCovers(m.final, e)
    ensures Covers(PullBack(e, m), p) && Covers(m.request, PullBack(e, m))
    ensures MatchKey(Rewrite(PullBack(e, m), m)) == MatchKey(e)
  {
    var a, q := PullBack(e, m), Rewrite(p, m);
    CoversByKey(m.final, e);
    CoversByKey(m.request, p);
    CoversByKey(e, q);
    RewriteKey(p, m);
    KeyOfConcat(m.request, e[|m.final|..]);
    KeyOfSlice(e, |m.final|);
    assert MatchKey(a) <= MatchKey(p) by {
      assert MatchKey(e)[|m.final|..] <= MatchKey(q)[|m.final|..] == MatchKey(p)[|m.request|..];
    }
    if |a| < |p| {
      assert MatchKey(p)[|a|] == MatchKey(q)[|e|];
    }
    CoversByKey(a, p);
    assert MatchKey(a)[|m.request|] == MatchKey(e)[|m.final|];
    CoversByKey(m.request, a);
    RewriteKey(a, m);
  }

  lemma UniformRespell(a: string, a': string, p: string, mappings: seq<PathMapping>, n: nat)
    requires NonEmptyFinals(mappings) && Uniform(a, p, mappings, n) && MatchKey(a) == MatchKey(a')
    ensures Uniform(a', p, mappings, n)
  {
    CoversSelf(a);
    CoversRespell(a, a, a, a');
    CoversRespell(a, a', p, p);
    UniformBetween(a, a', p, mappings, n);
  }

  lemma PullBackUniform(mappings: seq<PathMapping>, e: string, p: string, m: PathMapping, n: nat)
    requires NonEmptyFinals(mappings) && p != "" && Rule(p, mappings, m) && n > 0
    requires Uniform(e, Rewrite(p, m), mappings, n - 1) && Covers(m.final, e) && |m.final| < |e|
    ensures StrictlyCovers(m.final, e) && Uniform(PullBack(e, m), p, mappings, n)
  {
    UniformPullBack(mappings, e, p, m, n - 1);
    RespelledStep(mappings, e, PullBack(e, m), p, m, n);
  }

  lemma UniformPullBack(mappings: seq<PathMapping>, e: string, p: string, m: PathMapping, n: nat)
    requires p != "" && Covers(m.request, p) && Uniform(e, Rewrite(p, m), mappings, n)
    requires Covers(m.final, e) && |m.final| < |e|
    ensures StrictlyCovers(m.final, e) && Covers(PullBack(e, m), p) && Covers(m.request, PullBack(e, m))
    ensures MatchKey(Rewrite(PullBack(e, m), m)) == MatchKey(e)
  {
    UniformCovers(e, Rewrite(p, m), mappings, n);
    PullBackPath(m, e, p);
  }

  lemma RespelledStep(mappings: seq<PathMapping>, e: string, a: string, p: string, m: PathMapping, n: nat)
    requires NonEmptyFinals(mappings) && Rule(p, mappings, m) && n > 0 && Covers(m.request, a) && Covers(a, p)
    requires MatchKey(Rewrite(a, m)) == MatchKey(e) && Uniform(e, Rewrite(p, m), mappings, n - 1)
    ensures Uniform(a, p, mappings, n)
  {
    RespelledTo(mappings, e, Rewrite(a, m), Rewrite(p, m), n - 1);
    UniformStep(mappings, a, p, m, n);
  }

  lemma RespelledTo(mappings: seq<PathMapping>, e: string, r: string, q: string, n: nat)
    requires NonEmptyFinals(mappings) && MatchKey(r) == MatchKey(e) && Uniform(e, q, mappings, n)
    ensures Uniform(r, q, mappings, n)
  {
    UniformRespell(e, r, q, mappings, n);
  }

  lemma UniformCovers(a: string, p: string, mappings: seq<PathMapping>, n: nat)
    requires Uniform(a, p, mappings, n)
    ensures Covers(a, p)
  {
  }

  /** Every path the walker answers in `n` steps lies under a mount point it shares all of them
      with, found before level `n`. */
  lemma {:induction false} AnsweredIsMounted(x: Expansion, p: string, n: nat) returns (i: nat)
    requires NonEmptyFinals(x.mappings)
    requires p != "" && 1 <= n <= MAX_PATH_MAPPING_DEPTH && ResolvesIn(Rewriting(x.mappings), p, n)
    ensures MountedAt(x, i, p, n)
    decreases n
  {
    var m, q := RuleFor(x.mappings, p);
    if n == 1 {
      i := MountOfRule(x, p, m, n);
    } else {
      var h := AnsweredIsMounted(x, q, n - 1);
      i := MountBefore(x, h, p, m, n);
    }
  }

  /** Mount point `i` shares all `n` rewrites of `p`, and was found before level `n`. */
  ghost predicate MountedAt(x: Expansion, i: nat, p: string, n: nat) {
    && i < |x.mounts| && Uniform(x.mounts[i].request, p, x.mappings, n)
    && x.depths[MatchKey(x.mounts[i].request)] < n
  }

  /** From a mount point for the rewritten path to one for the path itself. */
  lemma MountBefore(x: Expansion, h: nat, p: string, m: PathMapping, n: nat) returns (i: nat)
    requires NonEmptyFinals(x.mappings) && p != "" && Rule(p, x.mappings, m) && Covers(m.final, Rewrite(p, m))
    requires 2 <= n <= MAX_PATH_MAPPING_DEPTH && MountedAt(x, h, Rewrite(p, m), n - 1)
    ensures MountedAt(x, i, p, n)
  {
    if |x.mounts[h].request| <= |m.final| {
      UniformAtTarget(x.mappings, x.mounts[h].request, m.final, Rewrite(p, m), n - 1);
      i := MountOfRule(x, p, m, n);
    } else {
      i := MountBehind(x, h, p, m, n);
    }
  }

  lemma RuleFor(mappings: seq<PathMapping>, p: string) returns (m: PathMapping, q: string)
    requires NonEmptyFinals(mappings) && Rewriting(mappings)(p).Some?
    ensures Rule(p, mappings, m) && q == Rewrite(p, m)
    ensures Rewriting(mappings)(p) == Some(q) && q != "" && Covers(m.final, q)
  {
    m := mappings[Best(p, mappings)];
    assert m in mappings;
    q := Rewrite(p, m);
    CoversSelf(m.request);
    RewriteBelow(m.request, p, m);
    assert Rewrite(m.request, m) == m.final;
  }

  ghost predicate Rule(p: string, mappings: seq<PathMapping>, m: PathMapping) {
    Best(p, mappings) >= 0 && m == mappings[Best(p, mappings)]
  }

  /** It is the rule's own request when that point lies above the rule's target ... */
  lemma UniformAtTarget(mappings: seq<PathMapping>, e: string, t: string, q: string, n: nat)
    requires NonEmptyFinals(mappings) && Uniform(e, q, mappings, n) && Covers(t, q) && |e| <= |t|
    ensures Uniform(t, q, mappings, n)
  {
    CoversComparable(e, t, q);
    UniformBetween(e, t, q, mappings, n);
  }

  /** ... and its pull-back when below. */
  lemma MountBehind(x: Expansion, h: nat, p: string, m: PathMapping, n: nat) returns (i: nat)
    requires NonEmptyFinals(x.mappings) && p != "" && Rule(p, x.mappings, m)
    requires 2 <= n <= MAX_PATH_MAPPING_DEPTH && MountedAt(x, h, Rewrite(p, m), n - 1)
    requires Covers(m.final, Rewrite(p, m)) && |m.final| < |x.mounts[h].request|
    ensures MountedAt(x, i, p, n)
  {
    var e := x.mounts[h].request;
    UniformBehind(x.mappings, e, p, m, n);
    PullBackIsWorked(x, h, Best(p, x.mappings));
    i := MountOfKey(x, PullBack(e, m), p, n);
  }

  lemma UniformBehind(mappings: seq<PathMapping>, e: string, p: string, m: PathMapping, n: nat)
    requires NonEmptyFinals(mappings) && p != "" && Rule(p, mappings, m) && n > 0
    requires Covers(m.final, Rewrite(p, m)) && Uniform(e, Rewrite(p, m), mappings, n - 1) && |m.final| < |e|
    ensures StrictlyCovers(m.final, e) && Uniform(PullBack(e, m), p, mappings, n)
  {
    UniformCovers(e, Rewrite(p, m), mappings, n - 1);
    assert Covers(m.final, e) by { CoversComparable(m.final, e, Rewrite(p, m)); }
    PullBackUniform(mappings, e, p, m, n);
  }

  lemma PullBackIsWorked(x: Expansion, h: nat, j: nat)
    requires h < |x.mounts| && j < |x.mappings| && StrictlyCovers(x.mappings[j].final, x.mounts[h].request)
    requires x.depths[MatchKey(x.mounts[h].request)] < MAX_PATH_MAPPING_DEPTH
    ensures var k := MatchKey(PullBack(x.mounts[h].request, x.mappings[j]));
            k in x.depths && x.depths[k] <= x.depths[MatchKey(x.mounts[h].request)] + 1
  {
  }

  lemma MountOfRule(x: Expansion, p: string, m: PathMapping, n: nat) returns (i: nat)
    requires NonEmptyFinals(x.mappings) && p != "" && Rule(p, x.mappings, m)
    requires 1 <= n <= MAX_PATH_MAPPING_DEPTH
    requires Uniform(m.final, Rewrite(p, m), x.mappings, n - 1)
    ensures MountedAt(x, i, p, n)
  {
    CoversSelf(m.request);
    assert Rewrite(m.request, m) == m.final;
    i := MountOfKey(x, m.request, p, n);
  }

  lemma MountOfKey(x: Expansion, a: string, p: string, n: nat) returns (i: nat)
    requires NonEmptyFinals(x.mappings)
    requires p != "" && 1 <= n <= MAX_PATH_MAPPING_DEPTH && Uniform(a, p, x.mappings, n)
    requires MatchKey(a) in x.depths && x.depths[MatchKey(a)] < n
    ensures MountedAt(x, i, p, n)
  {
    UniformResolves(a, p, x.mappings, n);
    CoversByKey(a, p);
    StepsAnswer(a, x.mappings, n);
    assert x.HasMount(MatchKey(a));
    i :| 0 <= i < |x.mounts| && MatchKey(x.mounts[i].request) == MatchKey(a);
    UniformRespell(a, x.mounts[i].request, p, x.mappings, n);
  }

  // ----- what the expanded list means -----

  /** Wherever the walker answers, the longest mount point gives the same path, up to spelling;
      letter for letter when `p` spells that mount point as it was emitted. */
  lemma LookupMatchesWalker(x: Expansion, p: string)
    requires NonEmptyFinals(x.mappings) && MapPath(p, x.mappings) != ""
    ensures Best(p, x.mounts) >= 0
    ensures MatchKey(Lookup(p, x.mounts)) == MatchKey(MapPath(p, x.mappings))
    ensures x.mounts[Best(p, x.mounts)].request <= p ==> Lookup(p, x.mounts) == MapPath(p, x.mappings)
  {
    var n := AnswerSteps(p, x.mappings);
    var i := AnsweredIsMounted(x, p, n);
    var b := Best(p, x.mounts);
    var e := x.mounts[b].request;
    CoversComparable(x.mounts[i].request, e, p);
    UniformBetween(x.mounts[i].request, e, p, x.mappings, n);
    UniformResolves(e, p, x.mappings, n);
    assert x.AnsweredAt(b);
    var k := AnswerSteps(e, x.mappings);
    ResolvesInUnique(Rewriting(x.mappings), e, k, n);
    RewriteKey(p, x.mounts[b]);
  }

  /** Mount points are independent: the walker run on the expanded list stops after the one
      lookup, because no mount point lies over an answer. */
  lemma WalkerOnMounts(x: Expansion, p: string)
    requires NonEmptyFinals(x.mappings) && MapPath(p, x.mappings) != ""
    ensures MapPath(p, x.mounts) == Lookup(p, x.mounts)
  {
    LookupMatchesWalker(x, p);
    var t := Lookup(p, x.mounts);
    var n := AnswerSteps(p, x.mappings);
    AfterStays(Rewriting(x.mappings), p, n, n);
    forall i | 0 <= i < |x.mounts| ensures !Covers(x.mounts[i].request, t) {
      if Covers(x.mounts[i].request, t) {
        var j := MountUnderRequest(x, i);
        CoversTransitive(x.mappings[j].request, x.mounts[i].request, t);
        CoversRespell(x.mappings[j].request, x.mappings[j].request, t, MapPath(p, x.mappings));
      }
    }
    assert Rewriting(x.mounts)(t).None?;
    assert Rewriting(x.mounts)(p) == Some(t);
    ResolvesInNormalForm(Rewriting(x.mounts), p, 1, MAX_PATH_MAPPING_DEPTH);
  }

  /** Every mount point lies under an original request. */
  lemma MountUnderRequest(x: Expansion, i: nat) returns (j: nat)
    requires i < |x.mounts|
    ensures j < |x.mappings| && Covers(x.mappings[j].request, x.mounts[i].request)
  {
    assert x.AnsweredAt(i);
    j := Best(x.mounts[i].request, x.mappings);
  }

  // ----- exactly when the expanded list means the same -----

  /** The walker refuses no path below one it answers. */
  ghost predicate Inherited(mappings: seq<PathMapping>) {
    forall a, p {:trigger Covers(a, p)} :: Covers(a, p) && MapPath(a, mappings) != "" ==> MapPath(p, mappings) != ""
  }

  ghost predicate Equivalent(x: Worked) {
    forall p :: MatchKey(Lookup(p, x.mounts)) == MatchKey(MapPath(p, x.mappings))
  }

  lemma MountedIsFound(x: Expansion, p: string)
    ensures Lookup(p, x.mounts) != "" <==> exists i :: 0 <= i < |x.mounts| && Covers(x.mounts[i].request, p)
  {
    var b := Best(p, x.mounts);
    if b >= 0 {
      assert x.AnsweredAt(b);
      RewriteKey(p, x.mounts[b]);
    }
  }

  lemma InheritedIsEquivalent(x: Expansion)
    requires NonEmptyFinals(x.mappings) && Inherited(x.mappings)
    ensures Equivalent(x)
  {
    forall p ensures MatchKey(Lookup(p, x.mounts)) == MatchKey(MapPath(p, x.mappings)) {
      if MapPath(p, x.mappings) != "" {
        LookupMatchesWalker(x, p);
      } else {
        forall i: nat | i < |x.mounts| ensures !Covers(x.mounts[i].request, p) {
          assert x.AnsweredAt(i);
        }
        MountedIsFound(x, p);
      }
    }
  }

  lemma EquivalentIsInherited(x: Expansion)
    requires NonEmptyFinals(x.mappings) && Equivalent(x)
    ensures Inherited(x.mappings)
  {
    forall a, p | Covers(a, p) && MapPath(a, x.mappings) != "" ensures MapPath(p, x.mappings) != "" {
      LookupMatchesWalker(x, a);
      CoversTransitive(x.mounts[Best(a, x.mounts)].request, a, p);
      MountedIsFound(x, p);
      assert MatchKey(Lookup(p, x.mounts)) == MatchKey(MapPath(p, x.mappings));
      assert |Lookup(p, x.mounts)| == |MatchKey(Lookup(p, x.mounts))|;
    }
  }

  /** Expansion preserves meaning on every path exactly when the walker never refuses a path
      below one it answers. */
  lemma ExpansionPreservesMeaning(x: Expansion)
    requires NonEmptyFinals(x.mappings)
    ensures Equivalent(x) <==> Inherited(x.mappings)
  {
    if Inherited(x.mappings) {
      InheritedIsEquivalent(x);
    }
    if Equivalent(x) {
      EquivalentIsInherited(x);
    }
  }

  // ----- a finite form of the condition -----

  /** `a` is a request pulled back through `d` rules. */
  ghost predicate Alias(mappings: seq<PathMapping>, d: nat, a: string)
    decreases d
  {
    if d == 0 then exists j :: 0 <= j < |mappings| && MatchKey(a) == MatchKey(mappings[j].request)
    else exists b, j :: 0 <= j < |mappings| && Alias(mappings, d - 1, b)
                        && StrictlyCovers(mappings[j].final, b)
                        && MatchKey(a) == MatchKey(PullBack(b, mappings[j]))
  }

  /** No alias of at most ten levels is refused below a path that is answered. */
  ghost predicate AliasesInherit(mappings: seq<PathMapping>) {
    forall d: nat, b, a {:trigger Alias(mappings, d, b), Covers(a, b)} ::
      d <= MAX_PATH_MAPPING_DEPTH && Alias(mappings, d, b) && Covers(a, b) && MapPath(a, mappings) != "" ==>
        MapPath(b, mappings) != ""
  }

  /** Either `p` resolves together with `a`, or an alias strictly between them breaks away. */
  lemma {:induction false} UniformOrAlias(mappings: seq<PathMapping>, a: string, p: string, n: nat)
    returns (together: bool, d: nat, b: string)
    requires NonEmptyFinals(mappings) && a != "" && Covers(a, p) && ResolvesIn(Rewriting(mappings), a, n)
    ensures Settled(mappings, a, p, n, together, d, b)
    decreases n
  {
    var h := Best(p, mappings);
    if h >= 0 && !Covers(mappings[h].request, a) {
      together, d, b := false, 0, mappings[h].request;
      RequestBetween(mappings, a, p, h);
    } else {
      SameRule(mappings, a, p);
      if n == 0 {
        together, d, b := true, 0, "";
      } else {
        var m, q := RuleFor(mappings, a);
        RewriteBelow(a, p, m);
        together, d, b := UniformOrAlias(mappings, q, Rewrite(p, m), n - 1);
        d, b := RaisedAlias(mappings, a, p, m, n, together, d, b);
      }
    }
  }

  /** Where no rule applies to `p` alone, the same rule or none applies to both. */
  lemma SameRule(mappings: seq<PathMapping>, a: string, p: string)
    requires Covers(a, p) && (Best(p, mappings) >= 0 ==> Covers(mappings[Best(p, mappings)].request, a))
    ensures Rewriting(mappings)(a).None? ==> Uniform(a, p, mappings, 0)
    ensures forall m :: Rule(a, mappings, m) ==> Rule(p, mappings, m)
  {
    BestAbove(a, p, mappings);
  }

  ghost predicate Settled(mappings: seq<PathMapping>, a: string, p: string, n: nat, together: bool, d: nat, b: string) {
    if together then Uniform(a, p, mappings, n) else Breaks(mappings, a, p, n, d, b)
  }

  /** What holds of the rewritten pair holds of the pair itself, one alias level up. */
  lemma RaisedAlias(mappings: seq<PathMapping>, a: string, p: string, m: PathMapping, n: nat, together: bool, e: nat, c: string)
    returns (d: nat, b: string)
    requires n > 0 && a != "" && m.final != "" && Covers(a, p)
    requires Rule(a, mappings, m) && Rule(p, mappings, m) && Covers(m.request, a) && Covers(m.request, p)
    requires Settled(mappings, Rewrite(a, m), Rewrite(p, m), n - 1, together, e, c)
    ensures Settled(mappings, a, p, n, together, d, b)
  {
    d, b := e, c;
    if together {
      UniformStep(mappings, a, p, m, n);
    } else {
      b := AliasBehind(mappings, a, p, m, n, e, c);
      d := e + 1;
    }
  }

  ghost predicate Breaks(mappings: seq<PathMapping>, a: string, p: string, n: nat, d: nat, b: string) {
    d <= n && Alias(mappings, d, b) && Covers(a, b) && Covers(b, p) && |a| < |b|
  }

  lemma UniformStep(mappings: seq<PathMapping>, a: string, p: string, m: PathMapping, n: nat)
    requires n > 0 && Covers(a, p) && Rule(p, mappings, m) && Covers(m.request, a) && Covers(m.request, p)
    requires Uniform(Rewrite(a, m), Rewrite(p, m), mappings, n - 1)
    ensures Uniform(a, p, mappings, n)
  {
  }

  /** A rule that applies to `p` but not to `a` has its request strictly between them. */
  lemma RequestBetween(mappings: seq<PathMapping>, a: string, p: string, h: nat)
    requires h < |mappings| && Covers(a, p) && Covers(mappings[h].request, p) && !Covers(mappings[h].request, a)
    ensures Alias(mappings, 0, mappings[h].request) && Covers(a, mappings[h].request) && |a| < |mappings[h].request|
  {
    var b := mappings[h].request;
    if |b| <= |a| {
      CoversComparable(b, a, p);
    } else {
      CoversComparable(a, b, p);
    }
  }

  /** An alias that breaks away from the rewritten pair is, pulled back, one that breaks away from the
      pair itself. */
  lemma AliasBehind(mappings: seq<PathMapping>, a: string, p: string, m: PathMapping, n: nat, d: nat, e: string)
    returns (b: string)
    requires n > 0 && a != "" && Covers(a, p) && Rule(a, mappings, m) && m.final != "" && Covers(m.request, p)
    requires Breaks(mappings, Rewrite(a, m), Rewrite(p, m), n - 1, d, e)
    ensures Breaks(mappings, a, p, n, d + 1, b)
  {
    PullBackBetween(a, p, m, e);
    b := PullBack(e, m);
    assert Alias(mappings, d + 1, b);
  }

  lemma PullBackBetween(a: string, p: string, m: PathMapping, e: string)
    requires a != "" && Covers(a, p) && m.final != "" && Covers(m.request, a) && Covers(m.request, p)
    requires Covers(Rewrite(a, m), e) && Covers(e, Rewrite(p, m)) && |Rewrite(a, m)| < |e|
    ensures StrictlyCovers(m.final, e)
    ensures var b := PullBack(e, m); Covers(a, b) && Covers(b, p) && |a| < |b|
  {
    CoversByKey(a, p);
    CoversSelf(m.request);
    RewriteBelow(m.request, a, m);
    assert Rewrite(m.request, m) == m.final;
    CoversTransitive(m.final, Rewrite(a, m), e);
    RewriteKey(a, m);
    PullBackPath(m, e, p);
    CoversByKey(m.final, e);
    CoversByKey(m.request, a);
    CoversComparable(a, PullBack(e, m), p);
  }

  lemma {:induction false} AliasesInheritStep(mappings: seq<PathMapping>, a: string, p: string)
    requires NonEmptyFinals(mappings) && AliasesInherit(mappings)
    requires Covers(a, p) && MapPath(a, mappings) != ""
    ensures MapPath(p, mappings) != ""
    decreases |p| - |a|
  {
    var n := AnswerSteps(a, mappings);
    var together, d, b := UniformOrAlias(mappings, a, p, n);
    CoversByKey(a, p);
    if together {
      UniformResolves(a, p, mappings, n);
      StepsAnswer(p, mappings, n);
    } else {
      CoversByKey(b, p);
      AliasesInheritStep(mappings, b, p);
    }
  }

  /** The condition need only be tested on the aliases. */
  lemma InheritedIffAliasesInherit(mappings: seq<PathMapping>)
    requires NonEmptyFinals(mappings)
    ensures Inherited(mappings) <==> AliasesInherit(mappings)
  {
    if AliasesInherit(mappings) {
      forall a, p | Covers(a, p) && MapPath(a, mappings) != "" ensures MapPath(p, mappings) != "" {
        AliasesInheritStep(mappings, a, p);
      }
    }
  }

  lemma {:induction false} AliasIsWorked(x: Expansion, d: nat, a: string)
    requires x.AllAnswered()
    requires d <= MAX_PATH_MAPPING_DEPTH && Alias(x.mappings, d, a)
    ensures MatchKey(a) in x.depths && x.depths[MatchKey(a)] <= d
    decreases d
  {
    if d > 0 {
      var b, j :| 0 <= j < |x.mappings| && Alias(x.mappings, d - 1, b)
                  && StrictlyCovers(x.mappings[j].final, b) && MatchKey(a) == MatchKey(PullBack(b, x.mappings[j]));
      AliasIsWorked(x, d - 1, b);
      assert x.HasMount(MatchKey(b));
      var i :| 0 <= i < |x.mounts| && MatchKey(x.mounts[i].request) == MatchKey(b);
      PullBackRespell(b, x.mounts[i].request, x.mappings[j]);
    }
  }

  lemma PullBackRespell(b: string, b': string, m: PathMapping)
    requires MatchKey(b) == MatchKey(b') && StrictlyCovers(m.final, b)
    ensures StrictlyCovers(m.final, b') && MatchKey(PullBack(b, m)) == MatchKey(PullBack(b', m))
  {
    CoversRespell(m.final, m.final, b, b');
    CoversByKey(m.final, b);
    CoversByKey(m.final, b');
    KeyOfConcat(m.request, b[|m.final|..]);
    KeyOfConcat(m.request, b'[|m.final|..]);
    KeyOfSlice(b, |m.final|);
    KeyOfSlice(b', |m.final|);
    assert |b| == |MatchKey(b)| == |b'|;
  }

  /** When the worklist meets no refused request, the expanded list means the same everywhere
      and covers the same paths. */
  lemma NothingRefused(x: Expansion)
    requires NonEmptyFinals(x.mappings)
    requires x.AllAnswered()
    ensures Equivalent(x)
    ensures forall p :: Step(p, x.mounts).Some? <==> Step(p, x.mappings).Some?
  {
    forall d: nat, b | d <= MAX_PATH_MAPPING_DEPTH && Alias(x.mappings, d, b) ensures MapPath(b, x.mappings) != "" {
      AliasIsWorked(x, d, b);
      assert x.HasMount(MatchKey(b));
    }
    InheritedIffAliasesInherit(x.mappings);
    InheritedIsEquivalent(x);
    forall p ensures Step(p, x.mounts).Some? <==> Step(p, x.mappings).Some? {
      SameCover(x, p);
    }
  }

  lemma SameCover(x: Expansion, p: string)
    requires x.AllAnswered()
    ensures Step(p, x.mounts).Some? <==> Step(p, x.mappings).Some?
  {
    var b, c := Best(p, x.mappings), Best(p, x.mounts);
    if b >= 0 {
      var m := x.mappings[b];
      assert x.HasMount(MatchKey(m.request));
      var i :| 0 <= i < |x.mounts| && MatchKey(x.mounts[i].request) == MatchKey(m.request);
      CoversRespell(m.request, x.mounts[i].request, p, p);
    }
    if c >= 0 {
      var j := MountUnderRequest(x, c);
      CoversTransitive(x.mappings[j].request, x.mounts[c].request, p);
    }
  }
}
