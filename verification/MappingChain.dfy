/** The path-mapping walker of src/domain.rs: longest request prefix wins, at most ten
    rewrites, a repeated path refuses the request. */
module MappingChain {
  import opened Paths
  import opened Orbits

  const MAX_PATH_MAPPING_DEPTH: nat := 10

  datatype PathMapping = PathMapping(request: string, final: string)

  /** The list read backwards, as `reverse_map_path_by_mappings` uses it. */
  function Flipped(mappings: seq<PathMapping>): seq<PathMapping> {
    seq(|mappings|, i requires 0 <= i < |mappings| => PathMapping(mappings[i].final, mappings[i].request))
  }

  ghost predicate NonEmptyFinals(mappings: seq<PathMapping>) {
    forall m :: m in mappings ==> m.final != ""
  }

  ghost predicate DistinctRequests(mappings: seq<PathMapping>) {
    forall i, j :: 0 <= i < j < |mappings| ==>
      MatchKey(mappings[i].request) != MatchKey(mappings[j].request)
  }

  // ----- one rewrite -----

  /** Index of the rule that applies to `p` among the first `n`, or -1: the longest request
      covering `p`, and of several equally long ones the last. Equally long requests covering
      one path have the same key (`CoversComparable`), so the key comparison of the source
      never decides. */
  function BestAmong(p: string, mappings: seq<PathMapping>, n: nat): (b: int)
    requires n <= |mappings|
    ensures -1 <= b < n
    ensures b < 0 ==> forall i :: 0 <= i < n ==> !Covers(mappings[i].request, p)
    ensures b >= 0 ==>
              && Covers(mappings[b].request, p)
              && (forall i :: 0 <= i < n && Covers(mappings[i].request, p) ==>
                                |mappings[i].request| <= |mappings[b].request|)
              && (forall i :: b < i < n && Covers(mappings[i].request, p) ==>
                                |mappings[i].request| < |mappings[b].request|)
  {
    if n == 0 then -1
    else
      var b := BestAmong(p, mappings, n - 1);
      if Covers(mappings[n - 1].request, p)
         && (b < 0 || |mappings[b].request| <= |mappings[n - 1].request|)
      then n - 1 else b
  }

  function Best(p: string, mappings: seq<PathMapping>): int {
    BestAmong(p, mappings, |mappings|)
  }

  function Rewrite(p: string, m: PathMapping): string
    requires Covers(m.request, p)
  {
    m.final + ChildSuffix(p, m.request).value
  }

  function Step(p: string, mappings: seq<PathMapping>): Option<string> {
    var b := Best(p, mappings);
    if b < 0 then None else Some(Rewrite(p, mappings[b]))
  }

  function Rewriting(mappings: seq<PathMapping>): string -> Option<string> {
    p => Step(p, mappings)
  }

  /** What the walker answers; the empty text means "not mapped". */
  function MapPath(p: string, mappings: seq<PathMapping>): string {
    if p == "" || Rewriting(mappings)(p).None? then ""
    else match NormalForm(Rewriting(mappings), p, MAX_PATH_MAPPING_DEPTH)
      case None => ""
      case Some(q) => q
  }

  // ----- rewriting does not see spelling -----

  lemma RewriteKey(p: string, m: PathMapping)
    requires Covers(m.request, p)
    ensures Rewrite(p, m) == m.final + p[|m.request|..]
    ensures MatchKey(Rewrite(p, m)) == MatchKey(m.final) + MatchKey(p)[|m.request|..]
  {
    CoversByKey(m.request, p);
    KeyOfConcat(m.final, p[|m.request|..]);
    KeyOfSlice(p, |m.request|);
  }

  /** The longest of the rules that apply decides. */
  lemma LongestRule(p: string, mappings: seq<PathMapping>, i: nat, tail: string)
    requires i < |mappings| && Covers(mappings[i].request, p) && p == p[..|mappings[i].request|] + tail
    requires forall j :: 0 <= j < |mappings| && j != i && Covers(mappings[j].request, p) ==>
               |mappings[j].request| < |mappings[i].request|
    ensures Best(p, mappings) == i && Rewriting(mappings)(p) == Some(mappings[i].final + tail)
  {
    assert Best(p, mappings) == i;
    RewriteKey(p, mappings[i]);
    assert p[|mappings[i].request|..] == tail;
  }

  lemma OnlyRule(p: string, mappings: seq<PathMapping>, i: nat, tail: string)
    requires i < |mappings| && Covers(mappings[i].request, p) && |p| == |mappings[i].request| + |tail|
    requires p[|mappings[i].request|..] == tail
    requires forall j :: 0 <= j < |mappings| && j != i ==> !Covers(mappings[j].request, p)
    ensures Rewriting(mappings)(p) == Some(mappings[i].final + tail)
  {
    LongestRule(p, mappings, i, tail);
  }

  lemma BestRespell(p: string, q: string, mappings: seq<PathMapping>)
    requires MatchKey(p) == MatchKey(q)
    ensures Best(p, mappings) == Best(q, mappings)
  {
    forall i | 0 <= i < |mappings|
      ensures Covers(mappings[i].request, p) == Covers(mappings[i].request, q)
    {
      CoversByKey(mappings[i].request, p);
      CoversByKey(mappings[i].request, q);
      assert |p| == |MatchKey(p)| == |q|;
    }
  }

  lemma StepRespell(p: string, q: string, mappings: seq<PathMapping>)
    requires MatchKey(p) == MatchKey(q)
    ensures Step(p, mappings).None? == Step(q, mappings).None?
    ensures Step(p, mappings).Some? ==>
              MatchKey(Step(p, mappings).value) == MatchKey(Step(q, mappings).value)
  {
    BestRespell(p, q, mappings);
    var b := Best(p, mappings);
    if b >= 0 {
      RewriteKey(p, mappings[b]);
      RewriteKey(q, mappings[b]);
    }
  }

  lemma RewritingRespectsKeys(mappings: seq<PathMapping>)
    ensures Respects(Rewriting(mappings), MatchKey)
  {
    forall p, q
      ensures StepTogether(Rewriting(mappings), MatchKey, p, q)
    {
      if MatchKey(p) == MatchKey(q) {
        StepRespell(p, q, mappings);
      }
    }
  }

  // ----- the walker -----

  /** `map_mapping_chain`: the loop with its visited set computes the bounded normal form;
      the cycle test only ends early what the bound would refuse anyway. */
  method MapMappingChain(path: string, mappings: seq<PathMapping>, reverse: bool) returns (r: string)
    ensures r == MapPath(path, if reverse then Flipped(mappings) else mappings)
  {
    var rules := if reverse then Flipped(mappings) else mappings;
    ghost var step := Rewriting(rules);
    if path == "" || |mappings| == 0 {
      return "";
    }
    RewritingRespectsKeys(rules);
    var current := path;
    var changed := false;
    var visited := {MatchKey(current)};
    for k := 0 to MAX_PATH_MAPPING_DEPTH + 1
      invariant changed <==> k > 0
      invariant changed ==> step(path).Some?
      invariant k == 0 ==> current == path
      invariant Walked(step, MatchKey, path, MAX_PATH_MAPPING_DEPTH, k, current, visited)
    {
      var best := Best(current, rules);
      if best < 0 {
        assert step(current).None?;
        return if changed then current else "";
      }
      var next := Rewrite(current, rules[best]);
      assert step(current) == Some(next);
      if MatchKey(next) in visited {
        WalkRepeats(step, MatchKey, path, MAX_PATH_MAPPING_DEPTH, k, current, visited);
        return "";
      }
      WalkOn(step, MatchKey, path, MAX_PATH_MAPPING_DEPTH, k, current, visited);
      visited := visited + {MatchKey(next)};
      current := next;
      changed := true;
    }
    return "";
  }

  // ----- what an answer means -----

  /** A non-empty answer is the end of 1 to 10 rewrites. */
  lemma AnswerSteps(p: string, mappings: seq<PathMapping>) returns (n: nat)
    requires MapPath(p, mappings) != ""
    ensures 1 <= n <= 10
    ensures ResolvesIn(Rewriting(mappings), p, n)
    ensures MapPath(p, mappings) == After(Rewriting(mappings), p, n)
  {
    n := NormalFormSteps(Rewriting(mappings), p, MAX_PATH_MAPPING_DEPTH);
  }

  /** With non-empty targets every path that 1 to 10 rewrites finish is answered. */
  lemma StepsAnswer(p: string, mappings: seq<PathMapping>, n: nat)
    requires NonEmptyFinals(mappings) && p != ""
    requires 1 <= n <= 10 && ResolvesIn(Rewriting(mappings), p, n)
    ensures MapPath(p, mappings) == After(Rewriting(mappings), p, n) != ""
  {
    ResolvesInNormalForm(Rewriting(mappings), p, n, MAX_PATH_MAPPING_DEPTH);
    AfterNonEmpty(p, mappings, n);
  }

  lemma {:induction false} AfterNonEmpty(p: string, mappings: seq<PathMapping>, n: nat)
    requires NonEmptyFinals(mappings) && p != ""
    ensures After(Rewriting(mappings), p, n) != ""
    decreases n
  {
    match Rewriting(mappings)(p)
    case None =>
    case Some(q) => if n > 0 {
      assert mappings[Best(p, mappings)] in mappings;
      AfterNonEmpty(q, mappings, n - 1);
    }
  }

  lemma NoRuleApplies(p: string, mappings: seq<PathMapping>)
    requires Rewriting(mappings)(p).None?
    ensures forall m :: m in mappings ==> !Covers(m.request, p)
  {
  }

  /** Normal form of the walker: a non-empty answer is reached by 1 to 10 longest-prefix
      rewrites whose paths have pairwise different keys, and no rule applies to it any more,
      so mapping it again answers "not mapped". */
  lemma WalkerNormalForm(p: string, mappings: seq<PathMapping>) returns (chain: seq<string>)
    requires MapPath(p, mappings) != ""
    ensures 2 <= |chain| <= 11
    ensures chain[0] == p && chain[|chain| - 1] == MapPath(p, mappings)
    ensures forall i :: 0 <= i < |chain| - 1 ==> Rewriting(mappings)(chain[i]) == Some(chain[i + 1])
    ensures forall i, j :: 0 <= i < j < |chain| ==> MatchKey(chain[i]) != MatchKey(chain[j])
    ensures forall m :: m in mappings ==> !Covers(m.request, MapPath(p, mappings))
    ensures MapPath(MapPath(p, mappings), mappings) == ""
  {
    var n := AnswerSteps(p, mappings);
    AfterStays(Rewriting(mappings), p, n, n);
    NoRuleApplies(MapPath(p, mappings), mappings);
    RewritingRespectsKeys(mappings);
    chain := Chain(Rewriting(mappings), MatchKey, p, n);
  }

  /** Two spellings of one path get two spellings of one answer. */
  lemma WalkerRespell(p: string, q: string, mappings: seq<PathMapping>)
    requires MatchKey(p) == MatchKey(q)
    ensures MatchKey(MapPath(p, mappings)) == MatchKey(MapPath(q, mappings))
  {
    var step := Rewriting(mappings);
    RewritingRespectsKeys(mappings);
    assert |p| == |MatchKey(p)| == |q|;
    if NormalForm(step, p, MAX_PATH_MAPPING_DEPTH).Some? {
      var n := NormalFormSteps(step, p, MAX_PATH_MAPPING_DEPTH);
      ResolvesInRespell(step, MatchKey, p, q, n);
      ResolvesInNormalForm(step, q, n, MAX_PATH_MAPPING_DEPTH);
    } else if NormalForm(step, q, MAX_PATH_MAPPING_DEPTH).Some? {
      var n := NormalFormSteps(step, q, MAX_PATH_MAPPING_DEPTH);
      ResolvesInRespell(step, MatchKey, q, p, n);
      ResolvesInNormalForm(step, p, n, MAX_PATH_MAPPING_DEPTH);
    }
  }

  // ----- the order of the list -----

  lemma StepPermuted(p: string, xs: seq<PathMapping>, ys: seq<PathMapping>)
    requires DistinctRequests(xs) && multiset(xs) == multiset(ys)
    ensures Step(p, xs) == Step(p, ys)
  {
    forall m ensures m in xs <==> m in ys {
      assert m in xs <==> m in multiset(xs);
      assert m in ys <==> m in multiset(ys);
    }
    var a, b := Best(p, xs), Best(p, ys);
    if a >= 0 {
      assert xs[a] in ys;
    }
    if b >= 0 {
      assert ys[b] in xs;
      var i :| 0 <= i < |ys| && ys[i] == xs[a];
      var j :| 0 <= j < |xs| && xs[j] == ys[b];
      CoversComparable(xs[a].request, xs[j].request, p);
      assert a == j;
    }
  }

  lemma {:induction false} NormalFormPermuted(p: string, xs: seq<PathMapping>, ys: seq<PathMapping>, n: nat)
    requires DistinctRequests(xs) && multiset(xs) == multiset(ys)
    ensures NormalForm(Rewriting(xs), p, n) == NormalForm(Rewriting(ys), p, n)
    decreases n
  {
    StepPermuted(p, xs, ys);
    match Rewriting(xs)(p)
    case None =>
    case Some(q) => if n > 0 { NormalFormPermuted(q, xs, ys, n - 1); }
  }

  /** With distinct request keys the answer does not depend on the order of the rules. */
  lemma WalkerOrderIndependent(p: string, xs: seq<PathMapping>, ys: seq<PathMapping>)
    requires DistinctRequests(xs) && multiset(xs) == multiset(ys)
    ensures MapPath(p, xs) == MapPath(p, ys)
  {
    StepPermuted(p, xs, ys);
    NormalFormPermuted(p, xs, ys, MAX_PATH_MAPPING_DEPTH);
  }
}
