/** Where the expanded list and the walker part: mapping lists that pass the chain filter and for
    which one lookup answers a path that the walker refuses. */
module MappingGap {
  import opened Paths
  import opened Orbits
  import opened MappingChain
  import opened MappingFilter
  import opened MappingExpansion

  /** Two unrelated paths and two suffixes. */
  ghost predicate Runs(a: string, t: string, s: string, v: string) {
    Apart(a, t) && a != "" && t != "" && s != "" && s[0] == '/' && v != "" && v[0] == '/'
  }

  /** `a` goes to `t`, and below `t` a rule goes ever deeper. */
  function Runaway(a: string, t: string, s: string, v: string): seq<PathMapping> {
    [PathMapping(a, t), PathMapping(t + s, t + s + v)]
  }

  lemma BelowApart(a: string, t: string, s: string, p: string)
    requires Apart(a, t) && t != "" && s != "" && s[0] == '/' && Covers(t + s, p)
    ensures !Covers(a, p)
  {
    SuffixBelow(t, s);
    CoversTransitive(t, t + s, p);
    ApartBelow(a, t, p);
  }

  // ----- what the walker does -----

  lemma FirstStep(a: string, t: string, s: string, v: string)
    requires Runs(a, t, s, v)
    ensures Rewriting(Runaway(a, t, s, v))(a) == Some(t)
  {
    CoversSelf(a);
    if Covers(t + s, a) {
      BelowApart(a, t, s, a);
    }
    OnlyRule(a, Runaway(a, t, s, v), 0, "");
    assert t + "" == t;
  }

  lemma FirstEnds(a: string, t: string, s: string, v: string)
    requires Runs(a, t, s, v)
    ensures Rewriting(Runaway(a, t, s, v))(t) == None
  {
    SuffixBelow(t, s);
  }

  lemma StepBelow(a: string, t: string, s: string, v: string)
    requires Runs(a, t, s, v)
    ensures Rewriting(Runaway(a, t, s, v))(a + s) == Some(t + s)
  {
    SuffixBelow(a, s);
    if Covers(t + s, a + s) {
      BelowApart(a, t, s, a + s);
    }
    OnlyRule(a + s, Runaway(a, t, s, v), 0, s);
  }

  /** Under the second request every rewrite stays under it. */
  lemma StepDeeper(a: string, t: string, s: string, v: string, p: string) returns (q: string)
    requires Runs(a, t, s, v) && Covers(t + s, p)
    ensures Rewriting(Runaway(a, t, s, v))(p) == Some(q) && Covers(t + s, q)
  {
    BelowApart(a, t, s, p);
    var m := PathMapping(t + s, t + s + v);
    CoversByKey(t + s, p);
    OnlyRule(p, Runaway(a, t, s, v), 1, p[|t + s|..]);
    q := m.final + p[|t + s|..];
    SuffixBelow(t + s, v);
    CoversSelf(t + s);
    RewriteBelow(t + s, p, m);
    RewriteKey(p, m);
    RewriteKey(t + s, m);
    assert Rewrite(t + s, m) == m.final + "" == m.final;
    CoversTransitive(t + s, m.final, q);
  }

  lemma {:induction false} NeverDone(a: string, t: string, s: string, v: string, p: string, n: nat)
    requires Runs(a, t, s, v) && Covers(t + s, p)
    ensures NormalForm(Rewriting(Runaway(a, t, s, v)), p, n).None?
    decreases n
  {
    var q := StepDeeper(a, t, s, v, p);
    if n > 0 {
      NeverDone(a, t, s, v, q, n - 1);
    }
  }

  /** The walker answers `a` and refuses `a + s`. */
  lemma WalkerOnRunaway(a: string, t: string, s: string, v: string)
    requires Runs(a, t, s, v)
    ensures MapPath(a, Runaway(a, t, s, v)) == t
    ensures MapPath(a + s, Runaway(a, t, s, v)) == ""
  {
    FirstStep(a, t, s, v);
    FirstEnds(a, t, s, v);
    ResolvesInNormalForm(Rewriting(Runaway(a, t, s, v)), a, 1, MAX_PATH_MAPPING_DEPTH);
    StepBelow(a, t, s, v);
    CoversSelf(t + s);
    NeverDone(a, t, s, v, t + s, MAX_PATH_MAPPING_DEPTH - 1);
  }

  // ----- the list passes the filter -----

  lemma NotRequested(a: string, t: string, s: string, v: string, k: string)
    requires k != MatchKey(a) && k != MatchKey(t + s)
    ensures k !in TargetByRequest(Runaway(a, t, s, v))
  {
    RequestsAreKeys(Runaway(a, t, s, v));
  }

  lemma EndsAtOnce(targets: Targets, k: string)
    requires k in targets && targets[k] !in targets
    ensures Ends(targets, k)
  {
    ResolvesInNormalForm(Following(targets), k, 1, MAX_PATH_MAPPING_DEPTH);
  }

  lemma DistinctKeys(a: string, t: string, s: string, v: string)
    requires Runs(a, t, s, v)
    ensures MatchKey(a) != MatchKey(t) && MatchKey(a) != MatchKey(t + s) && MatchKey(a) != MatchKey(t + s + v)
    ensures MatchKey(t) != MatchKey(t + s) && MatchKey(t + s) != MatchKey(t + s + v)
  {
    CoversSelf(t + s);
    SuffixBelow(t, s);
    SuffixBelow(t + s, v);
    BelowApart(a, t, s, t + s);
    BelowApart(a, t, s, t + s + v);
    assert |MatchKey(t)| < |MatchKey(t + s)| < |MatchKey(t + s + v)|;
  }

  lemma RunawayTargets(a: string, t: string, s: string, v: string)
    requires Runs(a, t, s, v)
    ensures var targets := TargetByRequest(Runaway(a, t, s, v));
            && MatchKey(a) in targets && targets[MatchKey(a)] == MatchKey(t)
            && MatchKey(t + s) in targets && targets[MatchKey(t + s)] == MatchKey(t + s + v)
  {
    var rules := Runaway(a, t, s, v);
    DistinctKeys(a, t, s, v);
    assert rules[..1] == [rules[0]] && [rules[0]][..0] == [];
    assert TargetByRequest([rules[0]]) == map[MatchKey(a) := MatchKey(t)];
  }

  lemma RunawayIsKept(a: string, t: string, s: string, v: string)
    requires Runs(a, t, s, v)
    ensures ValidChains(Runaway(a, t, s, v)) == Runaway(a, t, s, v)
  {
    var rules := Runaway(a, t, s, v);
    RunawayTargets(a, t, s, v);
    DistinctKeys(a, t, s, v);
    NotRequested(a, t, s, v, MatchKey(t));
    NotRequested(a, t, s, v, MatchKey(t + s + v));
    EndsAtOnce(TargetByRequest(rules), MatchKey(a));
    EndsAtOnce(TargetByRequest(rules), MatchKey(t + s));
    WithoutNothing(rules, Endless(TargetByRequest(rules)));
  }

  // ----- and means something else when expanded -----

  /** For every two unrelated paths and two suffixes there is a list that the filter leaves alone and
      whose expansion answers `a + s`, which the walker refuses. */
  lemma RunawayBreaksExpansion(x: Expansion, a: string, t: string, s: string, v: string)
    requires Runs(a, t, s, v) && x.mappings == Runaway(a, t, s, v)
    ensures ValidChains(x.mappings) == x.mappings
    ensures MapPath(a + s, x.mappings) == "" && Lookup(a + s, x.mounts) != ""
    ensures !Inherited(x.mappings) && !Equivalent(x)
  {
    RunawayIsKept(a, t, s, v);
    WalkerOnRunaway(a, t, s, v);
    SuffixBelow(a, s);
    LookupMatchesWalker(x, a);
    CoversTransitive(x.mounts[Best(a, x.mounts)].request, a, a + s);
    MountedIsFound(x, a + s);
    assert |MatchKey(Lookup(a + s, x.mounts))| == |Lookup(a + s, x.mounts)|;
  }

  /** A concrete such list. */
  lemma ConditionCanFail(x: Expansion)
    requires x.mappings == [PathMapping("/a", "/t"), PathMapping("/t/x", "/t/x/y")]
    ensures ValidChains(x.mappings) == x.mappings
    ensures MapPath("/a/x", x.mappings) == "" && Lookup("/a/x", x.mounts) != ""
    ensures !Equivalent(x)
  {
    var a, t, s, v := "/a", "/t", "/x", "/y";
    assert MatchKey(a)[1] != MatchKey(t)[1];
    CoversByKey(a, t);
    CoversByKey(t, a);
    assert t + s == "/t/x" && t + s + v == "/t/x/y" && a + s == "/a/x";
    RunawayBreaksExpansion(x, a, t, s, v);
  }
}
