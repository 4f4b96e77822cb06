/** `reverse_map_path_by_mappings` of src/domain.rs, which restores the path an app knows a mapped
    file by. */
module MappingReverse {
  import opened Paths
  import opened Orbits
  import opened MappingChain

  ghost predicate NonEmptySides(mappings: seq<PathMapping>) {
    forall m :: m in mappings ==> m.request != "" && m.final != ""
  }

  lemma TargetCoversResult(p: string, m: PathMapping)
    requires Covers(m.request, p) && m.final != ""
    ensures Covers(m.final, Rewrite(p, m))
  {
    RewriteKey(p, m);
    CoversByKey(m.request, p);
    CoversByKey(m.final, Rewrite(p, m));
  }

  // ----- taking one rewrite back -----

  /** The target of `c` lies under that of `b` by a suffix, and its request under that of `b` by the
      same suffix: both rules say the same about the paths under the target of `c`. */
  ghost predicate Aligned(b: PathMapping, c: PathMapping) {
    Covers(b.final, c.final) && MatchKey(c.request) == MatchKey(b.request) + MatchKey(c.final)[|b.final|..]
  }

  lemma CancelTail<T>(a: seq<T>, b: seq<T>, tail: seq<T>)
    ensures a + tail == b + tail <==> a == b
  {
    if a + tail == b + tail {
      assert |a| == |b|;
      assert a == (a + tail)[..|a|] && b == (b + tail)[..|b|];
    }
  }

  /** Going from `p` through `b` and back through `c` returns to `p` exactly when they are aligned. */
  lemma BackThroughIff(p: string, b: PathMapping, c: PathMapping)
    requires Covers(b.request, p) && Covers(c.final, Rewrite(p, b)) && Covers(b.final, c.final)
    ensures MatchKey(Rewrite(Rewrite(p, b), PathMapping(c.final, c.request))) == MatchKey(p) <==> Aligned(b, c)
  {
    var r := Rewrite(p, b);
    var t, u := MatchKey(p)[|b.request|..], MatchKey(c.final)[|b.final|..];
    assert MatchKey(p) == MatchKey(b.request) + t by { CoversByKey(b.request, p); }
    assert MatchKey(r) == MatchKey(b.final) + t by { RewriteKey(p, b); }
    CoversByKey(c.final, r);
    CoversByKey(b.final, c.final);
    SplitTail(MatchKey(b.final), t, MatchKey(c.final));
    var rest := MatchKey(r)[|c.final|..];
    assert t == u + rest;
    assert MatchKey(Rewrite(r, PathMapping(c.final, c.request))) == MatchKey(c.request) + rest by {
      RewriteKey(r, PathMapping(c.final, c.request));
    }
    assert MatchKey(p) == (MatchKey(b.request) + u) + rest;
    CancelTail(MatchKey(c.request), MatchKey(b.request) + u, rest);
  }

  lemma SplitTail(a: string, t: string, c: string)
    requires a <= c <= a + t
    ensures t == c[|a|..] + (a + t)[|c|..]
  {
    assert (a + t)[|a|..] == t;
    assert (a + t)[|a|..|c|] == c[|a|..];
  }

  /** The rule the reversed list picks for the result of a rewrite is aligned with the one that made
      it. */
  ghost predicate AlignedAt(p: string, mappings: seq<PathMapping>) {
    var b := Best(p, mappings);
    b >= 0 ==>
      var c := Best(Rewrite(p, mappings[b]), Flipped(mappings));
      c >= 0 && Aligned(mappings[b], mappings[c])
  }

  /** One rewrite is taken back by the reversed list exactly when the two rules are aligned. */
  lemma BackStepIff(p: string, mappings: seq<PathMapping>)
    requires NonEmptySides(mappings) && Rewriting(mappings)(p).Some?
    ensures UndoneAt(Rewriting(Flipped(mappings)), Rewriting(mappings), MatchKey, p) <==> AlignedAt(p, mappings)
  {
    var b, flipped := Best(p, mappings), Flipped(mappings);
    assert mappings[b] in mappings;
    var r := Rewrite(p, mappings[b]);
    TargetCoversResult(p, mappings[b]);
    assert Covers(flipped[b].request, r);
    var c := Best(r, flipped);
    CoversComparable(mappings[b].final, mappings[c].final, r);
    BackThroughIff(p, mappings[b], mappings[c]);
  }

  // ----- taking a whole walk back -----

  /** All of the first `n` rewrites of `p` are aligned. */
  ghost predicate AlignedAlong(p: string, mappings: seq<PathMapping>, n: nat)
    decreases n, p
  {
    n > 0 && Rewriting(mappings)(p).Some? ==>
      AlignedAt(p, mappings) && AlignedAlong(Rewriting(mappings)(p).value, mappings, n - 1)
  }

  lemma {:induction false} AlignedIsUndone(p: string, mappings: seq<PathMapping>, n: nat, bound: nat)
    requires NonEmptySides(mappings) && AlignedAlong(p, mappings, bound) && n <= bound
    ensures UndoneAlong(Rewriting(Flipped(mappings)), Rewriting(mappings), MatchKey, p, n)
    decreases n
  {
    if n > 0 && Rewriting(mappings)(p).Some? {
      BackStepIff(p, mappings);
      AlignedIsUndone(Rewriting(mappings)(p).value, mappings, n - 1, bound - 1);
    }
  }

  lemma FreeIsNormal(p: string, mappings: seq<PathMapping>)
    requires forall m :: m in mappings ==> !Covers(m.final, p)
    ensures Rewriting(Flipped(mappings))(p).None?
  {
    var b := Best(p, Flipped(mappings));
    assert forall i :: 0 <= i < |mappings| ==> mappings[i] in mappings;
  }

  lemma FlippedNonEmpty(mappings: seq<PathMapping>)
    requires NonEmptySides(mappings)
    ensures NonEmptyFinals(Flipped(mappings))
  {
    forall m | m in Flipped(mappings)
      ensures m.final != ""
    {
      var i :| 0 <= i < |Flipped(mappings)| && Flipped(mappings)[i] == m;
      assert mappings[i] in mappings;
    }
  }

  lemma WalksBack(p: string, mappings: seq<PathMapping>, n: nat)
    requires NonEmptySides(mappings) && AlignedAlong(p, mappings, n) && ResolvesIn(Rewriting(mappings), p, n)
    requires forall m :: m in mappings ==> !Covers(m.final, p)
    ensures var q, back := After(Rewriting(mappings), p, n), Rewriting(Flipped(mappings));
            ResolvesIn(back, q, n) && MatchKey(After(back, q, n)) == MatchKey(p)
  {
    var go, back := Rewriting(mappings), Rewriting(Flipped(mappings));
    assert back(p).None? by { FreeIsNormal(p, mappings); }
    AlignedIsUndone(p, mappings, n, n);
    RewritingRespectsKeys(Flipped(mappings));
    BackToStart(go, back, MatchKey, p, n);
  }

  lemma {:induction false} AlignedShorter(p: string, mappings: seq<PathMapping>, n: nat, bound: nat)
    requires AlignedAlong(p, mappings, bound) && n <= bound
    ensures AlignedAlong(p, mappings, n)
    decreases n
  {
    if n > 0 && Rewriting(mappings)(p).Some? {
      AlignedShorter(Rewriting(mappings)(p).value, mappings, n - 1, bound - 1);
    }
  }

  lemma FreeIsRestored(p: string, mappings: seq<PathMapping>)
    requires NonEmptySides(mappings) && AlignedAlong(p, mappings, MAX_PATH_MAPPING_DEPTH) && MapPath(p, mappings) != ""
    requires forall m :: m in mappings ==> !Covers(m.final, p)
    ensures MatchKey(MapPath(MapPath(p, mappings), Flipped(mappings))) == MatchKey(p)
  {
    var n := AnswerSteps(p, mappings);
    AlignedShorter(p, mappings, n, MAX_PATH_MAPPING_DEPTH);
    WalksBack(p, mappings, n);
    FlippedNonEmpty(mappings);
    StepsAnswer(MapPath(p, mappings), Flipped(mappings), n);
  }

  /** Restoring a mapped path whose rewrites are aligned gives it back, up to spelling, exactly when
      the path did not already lie under a target. */
  lemma ReverseRestores(p: string, mappings: seq<PathMapping>)
    requires NonEmptySides(mappings) && AlignedAlong(p, mappings, MAX_PATH_MAPPING_DEPTH) && MapPath(p, mappings) != ""
    ensures MatchKey(MapPath(MapPath(p, mappings), Flipped(mappings))) == MatchKey(p) <==>
            forall m :: m in mappings ==> !Covers(m.final, p)
  {
    if forall m :: m in mappings ==> !Covers(m.final, p) {
      FreeIsRestored(p, mappings);
    } else if MatchKey(MapPath(MapPath(p, mappings), Flipped(mappings))) == MatchKey(p) {
      RestoredIsFree(p, MapPath(p, mappings), mappings);
    }
  }

  // ----- which lists are aligned -----

  /** No target lies under another one, and no two rules share a target. */
  ghost predicate ApartTargets(mappings: seq<PathMapping>) {
    forall i, j :: 0 <= i < |mappings| && 0 <= j < |mappings| && i != j ==> !Covers(mappings[i].final, mappings[j].final)
  }

  lemma ApartIsAlignedAt(p: string, mappings: seq<PathMapping>)
    requires ApartTargets(mappings) && NonEmptySides(mappings) && Rewriting(mappings)(p).Some?
    ensures AlignedAt(p, mappings)
  {
    var b, flipped := Best(p, mappings), Flipped(mappings);
    assert mappings[b] in mappings;
    var r := Rewrite(p, mappings[b]);
    TargetCoversResult(p, mappings[b]);
    assert Covers(flipped[b].request, r);
    var c := Best(r, flipped);
    CoversComparable(mappings[b].final, mappings[c].final, r);
    assert c == b;
    CoversSelf(mappings[b].final);
  }

  /** With targets apart every walk is aligned, so every free path is restored. */
  lemma {:induction false} ApartIsAligned(p: string, mappings: seq<PathMapping>, n: nat)
    requires ApartTargets(mappings) && NonEmptySides(mappings)
    ensures AlignedAlong(p, mappings, n)
    decreases n
  {
    if n > 0 && Rewriting(mappings)(p).Some? {
      ApartIsAlignedAt(p, mappings);
      ApartIsAligned(Rewriting(mappings)(p).value, mappings, n - 1);
    }
  }

  /** Two requests with one target cannot both be restored: the later rule takes it. */
  lemma SharedTargetLosesOne(a: string, b: string, t: string)
    requires Apart(a, b) && Apart(a, t) && Apart(b, t) && a != "" && b != "" && t != ""
    ensures var shared := [PathMapping(a, t), PathMapping(b, t)];
            && MapPath(a, shared) == t && MapPath(t, Flipped(shared)) == b && MatchKey(a) != MatchKey(b)
            && !AlignedAt(a, shared)
  {
    var shared := [PathMapping(a, t), PathMapping(b, t)];
    var flipped := Flipped(shared);
    assert flipped == [PathMapping(t, a), PathMapping(t, b)];
    CoversSelf(a);
    CoversSelf(t);
    OnlyRule(a, shared, 0, "");
    assert t + "" == t;
    assert Rewriting(shared)(t).None?;
    ResolvesInNormalForm(Rewriting(shared), a, 1, MAX_PATH_MAPPING_DEPTH);
    LaterRule(t, a, b);
    assert Rewriting(flipped)(b).None?;
    ResolvesInNormalForm(Rewriting(flipped), t, 1, MAX_PATH_MAPPING_DEPTH);
    assert Rewrite(a, shared[0]) == t;
    assert MatchKey(t)[|t|..] == [];
  }

  lemma LaterRule(t: string, a: string, b: string)
    ensures Best(t, [PathMapping(t, a), PathMapping(t, b)]) == 1
    ensures Rewriting([PathMapping(t, a), PathMapping(t, b)])(t) == Some(b)
  {
    CoversSelf(t);
    assert b + "" == b;
  }

  // ----- coming back another way -----

  /** `r` goes to `y`; below `r`, `r + u` goes to `t`; and a path below `y` goes below `t`. */
  function Detour(r: string, y: string, t: string, u: string, s: string): seq<PathMapping> {
    [PathMapping(r, y), PathMapping(r + u, t), PathMapping(y + u + s, t + s)]
  }

  ghost predicate Detours(r: string, y: string, t: string, u: string, s: string) {
    && Apart(r, y) && Apart(r, t) && Apart(y, t) && r != "" && y != "" && t != ""
    && u != "" && u[0] == '/' && s != "" && s[0] == '/'
  }

  lemma TwoBelow(r: string, u: string, s: string)
    requires r != "" && u != "" && u[0] == '/' && s != "" && s[0] == '/'
    ensures Covers(r, r + u + s) && Covers(r + u, r + u + s) && Covers(r, r + u)
  {
    SuffixBelow(r, u);
    SuffixBelow(r + u, s);
    CoversTransitive(r, r + u, r + u + s);
  }

  lemma NotAcross(a: string, b: string, below: string, p: string)
    requires Apart(a, b) && Covers(b, p) && Covers(a, below)
    ensures !Covers(below, p)
  {
    if Covers(below, p) {
      CoversTransitive(a, below, p);
      ApartBelow(a, b, p);
    }
  }

  lemma DetourCovers(r: string, y: string, t: string, u: string, s: string)
    requires Detours(r, y, t, u, s)
    ensures Covers(r + u, r + u + s) && !Covers(y + u + s, r + u + s) && !Covers(y, r + u + s) && !Covers(t, r + u + s)
    ensures !Covers(t + s, r + u + s)
    ensures !Covers(r, t + s) && !Covers(r + u, t + s) && !Covers(y + u + s, t + s) && !Covers(y, t + s) && Covers(t, t + s)
    ensures Covers(y, y + u + s) && !Covers(t, y + u + s) && !Covers(t + s, y + u + s)
  {
    TwoBelow(r, u, s);
    TwoBelow(y, u, s);
    SuffixBelow(t, s);
    NotAcross(y, r, y + u + s, r + u + s);
    ApartBelow(y, r, r + u + s);
    ApartBelow(t, r, r + u + s);
    NotAcross(t, r, t + s, r + u + s);
    ApartBelow(r, t, t + s);
    NotAcross(r, t, r + u, t + s);
    NotAcross(y, t, y + u + s, t + s);
    ApartBelow(y, t, t + s);
    ApartBelow(t, y, y + u + s);
    NotAcross(t, y, t + s, y + u + s);
  }

  lemma ThereByDetour(r: string, y: string, t: string, u: string, s: string)
    requires Detours(r, y, t, u, s)
    ensures var rules, p := Detour(r, y, t, u, s), r + u + s;
            Best(p, rules) == 1 && Rewriting(rules)(p) == Some(t + s) && Rewriting(rules)(t + s).None?
  {
    DetourCovers(r, y, t, u, s);
    var rules, p := Detour(r, y, t, u, s), r + u + s;
    assert p[..|r + u|] == r + u;
    LongestRule(p, rules, 1, s);
  }

  lemma BackFirst(r: string, y: string, t: string, u: string, s: string)
    requires Detours(r, y, t, u, s)
    ensures var flipped := [PathMapping(y, r), PathMapping(t, r + u), PathMapping(t + s, y + u + s)];
            Best(t + s, flipped) == 2 && Rewriting(flipped)(t + s) == Some(y + u + s)
  {
    DetourCovers(r, y, t, u, s);
    var flipped := [PathMapping(y, r), PathMapping(t, r + u), PathMapping(t + s, y + u + s)];
    CoversSelf(t + s);
    assert (t + s)[..|t + s|] + "" == t + s;
    LongestRule(t + s, flipped, 2, "");
    assert y + u + s + "" == y + u + s;
  }

  lemma BackSecond(r: string, y: string, t: string, u: string, s: string)
    requires Detours(r, y, t, u, s)
    ensures var back := Rewriting([PathMapping(y, r), PathMapping(t, r + u), PathMapping(t + s, y + u + s)]);
            back(y + u + s) == Some(r + u + s)
  {
    var w := u + s;
    assert y + u + s == y + w && r + u + s == r + w;
    DetourCovers(r, y, t, u, s);
    FirstRuleOnly(y, r, PathMapping(t, r + u), PathMapping(t + s, y + u + s), w);
  }

  lemma FirstRuleOnly(y: string, r: string, second: PathMapping, third: PathMapping, w: string)
    requires Covers(y, y + w) && !Covers(second.request, y + w) && !Covers(third.request, y + w)
    ensures Rewriting([PathMapping(y, r), second, third])(y + w) == Some(r + w)
  {
    assert (y + w)[..|y|] == y;
    LongestRule(y + w, [PathMapping(y, r), second, third], 0, w);
  }

  lemma BackEnds(r: string, y: string, t: string, u: string, s: string)
    requires Detours(r, y, t, u, s)
    ensures Rewriting([PathMapping(y, r), PathMapping(t, r + u), PathMapping(t + s, y + u + s)])(r + u + s).None?
  {
    DetourCovers(r, y, t, u, s);
  }

  lemma BackByDetour(r: string, y: string, t: string, u: string, s: string)
    requires Detours(r, y, t, u, s)
    ensures var back, p := Rewriting(Flipped(Detour(r, y, t, u, s))), r + u + s;
            && Best(t + s, Flipped(Detour(r, y, t, u, s))) == 2
            && back(t + s) == Some(y + u + s) && back(y + u + s) == Some(p) && back(p).None?
  {
    var flipped := [PathMapping(y, r), PathMapping(t, r + u), PathMapping(t + s, y + u + s)];
    assert Flipped(Detour(r, y, t, u, s)) == flipped;
    BackFirst(r, y, t, u, s);
    BackSecond(r, y, t, u, s);
    BackEnds(r, y, t, u, s);
  }

  /** Alignment is not necessary: here the reversed list takes another rule than the one that made the
      rewrite, and comes back all the same. The requests are distinct. */
  lemma RestoredByDetour(r: string, y: string, t: string, u: string, s: string)
    requires Detours(r, y, t, u, s)
    ensures var rules, p := Detour(r, y, t, u, s), r + u + s;
            && MapPath(p, rules) == t + s && !AlignedAt(p, rules)
            && MapPath(MapPath(p, rules), Flipped(rules)) == p
  {
    var rules, p, q := Detour(r, y, t, u, s), r + u + s, y + u + s;
    ThereByDetour(r, y, t, u, s);
    ResolvesInNormalForm(Rewriting(rules), p, 1, MAX_PATH_MAPPING_DEPTH);
    BackByDetour(r, y, t, u, s);
    var back := Rewriting(Flipped(rules));
    assert ResolvesIn(back, p, 0) && ResolvesIn(back, q, 1) && After(back, q, 1) == p;
    assert ResolvesIn(back, t + s, 2) && After(back, t + s, 2) == p;
    ResolvesInNormalForm(back, t + s, 2, MAX_PATH_MAPPING_DEPTH);
    DetourUnaligned(r, y, t, u, s);
  }

  lemma DetourUnaligned(r: string, y: string, t: string, u: string, s: string)
    requires Detours(r, y, t, u, s)
    ensures !AlignedAt(r + u + s, Detour(r, y, t, u, s))
  {
    var rules, p := Detour(r, y, t, u, s), r + u + s;
    ThereByDetour(r, y, t, u, s);
    BackByDetour(r, y, t, u, s);
    assert Rewrite(p, rules[1]) == t + s;
    assert MatchKey(t + s)[|t|..] == MatchKey(s) by { KeyOfConcat(t, s); }
    KeyOfConcat(r + u, s);
    TwoBelow(r, u, s);
    TwoBelow(y, u, s);
    if MatchKey(y + u + s) == MatchKey(p) {
      CoversRespell(y, y, y + u + s, p);
      ApartBelow(y, r, p);
    }
  }

  /** Nothing that walking back answers lies under a target. */
  lemma RestoredIsFree(p: string, q: string, mappings: seq<PathMapping>)
    requires p != "" && MatchKey(MapPath(q, Flipped(mappings))) == MatchKey(p)
    ensures forall m :: m in mappings ==> !Covers(m.final, p)
  {
    var flipped := Flipped(mappings);
    var r := MapPath(q, flipped);
    assert |r| == |MatchKey(r)| == |p|;
    var chain := WalkerNormalForm(q, flipped);
    forall m | m in mappings
      ensures !Covers(m.final, p)
    {
      var i :| 0 <= i < |mappings| && mappings[i] == m;
      assert flipped[i] in flipped && flipped[i].request == m.final;
      if Covers(m.final, p) {
        CoversRespell(m.final, m.final, p, r);
      }
    }
  }
}
