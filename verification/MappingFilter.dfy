/** `filter_valid_path_mapping_chains` of src/domain.rs: rules whose exact request-key chain is
    cyclic or longer than ten steps are dropped. */
module MappingFilter {
  import opened Paths
  import opened Orbits
  import opened MappingChain

  type Targets = map<string, string>

  function Following(targets: Targets): string -> Option<string> {
    k => if k in targets then Some(targets[k]) else None
  }

  /** The exact chain from `k` leaves the set of requests within ten steps. */
  predicate Ends(targets: Targets, k: string) {
    NormalForm(Following(targets), k, MAX_PATH_MAPPING_DEPTH).Some?
  }

  /** The hash map the source collects: of two rules for one request key the later counts. */
  function TargetByRequest(mappings: seq<PathMapping>): Targets {
    if |mappings| == 0 then map[]
    else
      var m := mappings[|mappings| - 1];
      TargetByRequest(mappings[..|mappings| - 1])[MatchKey(m.request) := MatchKey(m.final)]
  }

  /** The rules of `mappings` whose request key is not in `dropped`, in order. */
  function Without(mappings: seq<PathMapping>, dropped: set<string>): seq<PathMapping> {
    if |mappings| == 0 then []
    else
      var m := mappings[|mappings| - 1];
      Without(mappings[..|mappings| - 1], dropped) + if MatchKey(m.request) in dropped then [] else [m]
  }

  /** What is kept: the rules whose exact chain ends. */
  function Endless(targets: Targets): set<string> {
    set k | k in targets && !Ends(targets, k)
  }

  function ValidChains(mappings: seq<PathMapping>): seq<PathMapping> {
    Without(mappings, Endless(TargetByRequest(mappings)))
  }

  // ----- cycle search -----

  const VISITING: int := 1
  const DONE: int := 2

  ghost predicate Trail(targets: Targets, stack: seq<string>) {
    && (forall i, j :: 0 <= i < j < |stack| ==> stack[i] != stack[j])
    && (forall i :: 0 <= i < |stack| ==> stack[i] in targets)
    && (forall i {:trigger stack[i + 1]} :: 0 <= i < |stack| - 1 ==> targets[stack[i]] == stack[i + 1])
  }

  ghost predicate Visits(state: map<string, int>, stack: seq<string>) {
    && (forall k :: k in state ==> state[k] == VISITING || state[k] == DONE)
    && (forall k :: k in stack <==> k in state && state[k] == VISITING)
  }

  ghost predicate Recorded(targets: Targets, state: map<string, int>, cycles: set<string>) {
    && (forall k :: k in cycles ==> OnCycle(Following(targets), k))
    && (forall k :: k in state && state[k] == DONE && OnCycle(Following(targets), k) ==> k in cycles)
  }

  /** Between searches everything reachable from a finished node is finished. */
  ghost predicate DoneIsClosed(targets: Targets, state: map<string, int>) {
    forall k :: k in state && state[k] == DONE && k in targets ==>
      targets[k] in state && state[targets[k]] == DONE
  }

  ghost function Nodes(targets: Targets): set<string> {
    targets.Keys + targets.Values
  }

  lemma {:induction false} TrailReaches(targets: Targets, stack: seq<string>, i: nat, source: string)
    requires Trail(targets, stack) && i < |stack| && targets[stack[|stack| - 1]] == source
    ensures After(Following(targets), stack[i], |stack| - i) == source
    ensures forall n :: 0 <= n < |stack| - i ==> After(Following(targets), stack[i], n) == stack[i + n]
    decreases |stack| - i
  {
    if i + 1 < |stack| {
      assert targets[stack[i]] == stack[i + 1];
      TrailReaches(targets, stack, i + 1, source);
    } else {
      assert After(Following(targets), source, 0) == source;
    }
  }

  /** The trail has run into a finished node or out of the requests: none of it is cyclic. */
  lemma TrailNotCyclic(targets: Targets, state: map<string, int>, stack: seq<string>, source: string, i: nat)
    requires Trail(targets, stack) && Visits(state, stack) && DoneIsClosed(targets, state)
    requires i < |stack| && targets[stack[|stack| - 1]] == source
    requires (source in state && state[source] == DONE) || (source !in targets && source !in state)
    ensures !OnCycle(Following(targets), stack[i])
  {
    var step := Following(targets);
    TrailReaches(targets, stack, i, source);
    assert stack[i] in stack;
    if OnCycle(step, stack[i]) {
      var m := CycleReturns(step, stack[i], |stack| - i);
      if source in targets {
        DoneStays(targets, state, source, m);
      } else {
        EndIsFixed(step, source, m);
      }
    }
  }

  lemma {:induction false} DoneStays(targets: Targets, state: map<string, int>, k: string, n: nat)
    requires DoneIsClosed(targets, state) && k in state && state[k] == DONE
    ensures var q := After(Following(targets), k, n); q in state && state[q] == DONE
    decreases n
  {
    if k in targets && n > 0 {
      DoneStays(targets, state, targets[k], n - 1);
    }
  }

  /** The trail has closed on itself at `i`: from there on it is the cycle, before it is not. */
  lemma TrailCloses(targets: Targets, stack: seq<string>, i: nat, j: nat)
    requires Trail(targets, stack) && i < |stack| && j < |stack|
    requires targets[stack[|stack| - 1]] == stack[i]
    ensures OnCycle(Following(targets), stack[j]) <==> i <= j
  {
    var step := Following(targets);
    var L := |stack| - i;
    TrailReaches(targets, stack, i, stack[i]);
    TrailReaches(targets, stack, j, stack[i]);
    if i <= j {
      AfterAdds(step, stack[j], |stack| - j, j - i);
      assert After(step, stack[i], j - i) == stack[j];
      assert After(step, stack[j], L) == stack[j];
    } else if OnCycle(step, stack[j]) {
      var m := CycleReturns(step, stack[j], |stack| - j);
      LoopStays(targets, stack, i, m);
    }
  }

  lemma {:induction false} LoopStays(targets: Targets, stack: seq<string>, i: nat, m: nat)
    requires Trail(targets, stack) && i < |stack| && targets[stack[|stack| - 1]] == stack[i]
    ensures exists t :: i <= t < |stack| && After(Following(targets), stack[i], m) == stack[t]
    decreases m
  {
    var step := Following(targets);
    var L := |stack| - i;
    TrailReaches(targets, stack, i, stack[i]);
    if m < L {
      assert After(step, stack[i], m) == stack[i + m];
    } else {
      AfterAdds(step, stack[i], L, m - L);
      LoopStays(targets, stack, i, m - L);
    }
  }

  /** `visit_mapping_cycle`; the borrowed search state comes in and goes out as values. */
  method VisitMappingCycle(source: string, targets: Targets, state0: map<string, int>, stack: seq<string>,
                           cycles0: set<string>)
    returns (state: map<string, int>, cycles: set<string>)
    requires Trail(targets, stack) && Visits(state0, stack) && Recorded(targets, state0, cycles0)
    requires DoneIsClosed(targets, state0)
    requires source in Nodes(targets) && state0.Keys <= Nodes(targets)
    requires |stack| > 0 ==> targets[stack[|stack| - 1]] == source
    ensures Visits(state, stack) && Recorded(targets, state, cycles)
    ensures state0.Keys <= state.Keys <= Nodes(targets) && source in state
    ensures forall k :: k in stack && OnCycle(Following(targets), k) ==> k in cycles
    ensures forall k :: k in state && state[k] == DONE && k in targets ==> targets[k] in state
    decreases Nodes(targets) - state0.Keys
  {
    state, cycles := state0, cycles0;
    if source in state {
      if state[source] == VISITING {
        var index := IndexOf(stack, source);
        cycles := cycles + set t | index <= t < |stack| :: stack[t];
        ClosedTrail(targets, stack, index);
      } else {
        OpenTrail(targets, state, stack, source);
      }
      return;
    }
    assert source !in stack;
    state := state[source := VISITING];
    PushVisit(targets, state0, stack, source, cycles);
    if source in targets {
      assert targets[source] in targets.Values;
      assert source in Nodes(targets) - state0.Keys && source !in Nodes(targets) - state.Keys;
      state, cycles := VisitMappingCycle(targets[source], targets, state, stack + [source], cycles);
      assert (stack + [source])[|stack|] == source;
    } else {
      OpenTrail(targets, state0, stack, source);
    }
    PopVisit(targets, state, stack, source, cycles);
    state := state[source := DONE];
  }

  lemma ClosedTrail(targets: Targets, stack: seq<string>, index: nat)
    requires Trail(targets, stack) && index < |stack| && targets[stack[|stack| - 1]] == stack[index]
    ensures forall t :: 0 <= t < |stack| ==> (OnCycle(Following(targets), stack[t]) <==> index <= t)
  {
    forall t | 0 <= t < |stack| ensures OnCycle(Following(targets), stack[t]) <==> index <= t {
      TrailCloses(targets, stack, index, t);
    }
  }

  lemma OpenTrail(targets: Targets, state: map<string, int>, stack: seq<string>, source: string)
    requires Trail(targets, stack) && Visits(state, stack) && DoneIsClosed(targets, state)
    requires |stack| > 0 ==> targets[stack[|stack| - 1]] == source
    requires (source in state && state[source] == DONE) || (source !in targets && source !in state)
    ensures forall t :: 0 <= t < |stack| ==> !OnCycle(Following(targets), stack[t])
  {
    forall t | 0 <= t < |stack| ensures !OnCycle(Following(targets), stack[t]) {
      TrailNotCyclic(targets, state, stack, source, t);
    }
  }

  lemma PushVisit(targets: Targets, state: map<string, int>, stack: seq<string>, source: string, cycles: set<string>)
    requires Visits(state, stack) && Recorded(targets, state, cycles) && DoneIsClosed(targets, state)
    requires Trail(targets, stack) && source !in state && source !in stack
    requires |stack| > 0 ==> targets[stack[|stack| - 1]] == source
    ensures Visits(state[source := VISITING], stack + [source]) && Recorded(targets, state[source := VISITING], cycles)
    ensures DoneIsClosed(targets, state[source := VISITING])
    ensures source in targets ==> Trail(targets, stack + [source])
  {
    if source in targets {
      PushTrail(targets, stack, source);
    }
  }

  lemma PushTrail(targets: Targets, stack: seq<string>, source: string)
    requires Trail(targets, stack) && source in targets && source !in stack
    requires |stack| > 0 ==> targets[stack[|stack| - 1]] == source
    ensures Trail(targets, stack + [source])
  {
  }

  lemma PopVisit(targets: Targets, state: map<string, int>, stack: seq<string>, source: string, cycles: set<string>)
    requires Visits(state, stack + [source]) && Recorded(targets, state, cycles) && source !in stack
    requires OnCycle(Following(targets), source) ==> source in cycles
    ensures Visits(state[source := DONE], stack) && Recorded(targets, state[source := DONE], cycles)
  {
  }

  method IndexOf(stack: seq<string>, x: string) returns (i: nat)
    requires x in stack
    ensures i < |stack| && stack[i] == x
  {
    i := 0;
    while stack[i] != x
      invariant i < |stack| && x in stack[i..]
      decreases |stack| - i
    {
      i := i + 1;
    }
  }

  /** `detect_mapping_cycles`: whatever order the hash map yields its keys in, the result is
      exactly the set of keys on a cycle. */
  method DetectMappingCycles(targets: Targets) returns (cycles: set<string>)
    ensures cycles == set k | k in targets && OnCycle(Following(targets), k)
  {
    cycles := {};
    var state: map<string, int> := map[];
    var rest := targets.Keys;
    while rest != {}
      invariant rest <= targets.Keys && targets.Keys - rest <= state.Keys <= Nodes(targets)
      invariant Visits(state, []) && Recorded(targets, state, cycles) && DoneIsClosed(targets, state)
      decreases rest
    {
      var source :| source in rest;
      state, cycles := VisitMappingCycle(source, targets, state, [], cycles);
      rest := rest - {source};
    }
  }

  // ----- depth search -----

  /** A number that compares with every bound up to ten as the chain length of `k` does. */
  ghost predicate Measures(targets: Targets, k: string, depth: nat) {
    forall j: nat :: j <= MAX_PATH_MAPPING_DEPTH ==>
      (depth <= j <==> NormalForm(Following(targets), k, j).Some?)
  }

  ghost predicate Memo(targets: Targets, depths: map<string, nat>) {
    forall k :: k in depths ==> k in targets && Measures(targets, k, depths[k])
  }

  ghost predicate Leads(targets: Targets, v: string, source: string) {
    v in targets && exists n: nat :: n > 0 && After(Following(targets), v, n) == source
  }

  /** `compute_mapping_depth`; `visiting` is restored on the way out, so it is a plain argument. */
  method ComputeMappingDepth(source: string, targets: Targets, depths0: map<string, nat>, visiting: set<string>)
    returns (depth: nat, depths: map<string, nat>)
    requires Memo(targets, depths0)
    requires forall v :: v in visiting ==> Leads(targets, v, source)
    ensures Memo(targets, depths) && depths0.Keys <= depths.Keys
    ensures Measures(targets, source, depth)
    ensures source in targets && source !in visiting ==> source in depths
    decreases targets.Keys - visiting
  {
    depths := depths0;
    if source in visiting {
      forall j: nat ensures NormalForm(Following(targets), source, j).None? {
        CycleNeverResolves(Following(targets), source, j);
      }
      return MAX_PATH_MAPPING_DEPTH + 1, depths;
    }
    if source in depths {
      return depths[source], depths;
    }
    if source !in targets {
      return 0, depths;
    }
    forall v | v in visiting + {source} ensures Leads(targets, v, targets[source]) {
      LeadsOn(targets, v, source);
    }
    var below;
    below, depths := ComputeMappingDepth(targets[source], targets, depths, visiting + {source});
    depth := 1 + below;
    OneMore(targets, source, below);
    depths := depths[source := depth];
  }

  lemma LeadsOn(targets: Targets, v: string, source: string)
    requires source in targets && (v == source || Leads(targets, v, source))
    ensures Leads(targets, v, targets[source])
  {
    var step := Following(targets);
    if v == source {
      assert After(step, v, 1) == targets[source];
    } else {
      var n: nat :| n > 0 && After(step, v, n) == source;
      AfterPlusOne(step, v, n);
      assert After(step, v, n + 1) == targets[source];
    }
  }

  lemma OneMore(targets: Targets, source: string, below: nat)
    requires source in targets && Measures(targets, targets[source], below)
    ensures Measures(targets, source, 1 + below)
  {
    forall j: nat | j <= MAX_PATH_MAPPING_DEPTH
      ensures 1 + below <= j <==> NormalForm(Following(targets), source, j).Some?
    {
      if j > 0 {
        assert below <= j - 1 <==> NormalForm(Following(targets), targets[source], j - 1).Some?;
      }
    }
  }

  /** `detect_mapping_depths`, for any iteration order. */
  method DetectMappingDepths(targets: Targets) returns (depths: map<string, nat>)
    ensures depths.Keys == targets.Keys
    ensures forall k :: k in targets ==> Measures(targets, k, depths[k])
  {
    depths := map[];
    var rest := targets.Keys;
    while rest != {}
      invariant rest <= targets.Keys && targets.Keys - rest <= depths.Keys
      invariant Memo(targets, depths)
      decreases rest
    {
      var source :| source in rest;
      if source !in depths {
        var depth;
        depth, depths := ComputeMappingDepth(source, targets, depths, {});
      }
      rest := rest - {source};
    }
  }

  // ----- the filter -----

  lemma {:induction false} RequestsAreKeys(mappings: seq<PathMapping>)
    ensures forall m :: m in mappings ==> MatchKey(m.request) in TargetByRequest(mappings)
    ensures forall k :: k in TargetByRequest(mappings) ==>
              exists i :: 0 <= i < |mappings| && MatchKey(mappings[i].request) == k
                          && MatchKey(mappings[i].final) == TargetByRequest(mappings)[k]
                          && forall j :: i < j < |mappings| ==> MatchKey(mappings[j].request) != k
  {
    if |mappings| > 0 {
      var rest := mappings[..|mappings| - 1];
      RequestsAreKeys(rest);
      assert mappings == rest + [mappings[|mappings| - 1]];
    }
  }

  lemma {:induction false} WithoutNothing(mappings: seq<PathMapping>, dropped: set<string>)
    requires forall m :: m in mappings ==> MatchKey(m.request) !in dropped
    ensures Without(mappings, dropped) == mappings
  {
    if |mappings| > 0 {
      var rest := mappings[..|mappings| - 1];
      assert mappings == rest + [mappings[|mappings| - 1]];
      WithoutNothing(rest, dropped);
    }
  }

  /** `filter_valid_path_mapping_chains`: exact for every iteration order of its two searches. */
  method FilterValidPathMappingChains(mappings: seq<PathMapping>) returns (kept: seq<PathMapping>)
    ensures kept == ValidChains(mappings)
  {
    if |mappings| == 0 {
      return mappings;
    }
    var targets := TargetByRequest(mappings);
    var cyclic := DetectMappingCycles(targets);
    var depths := DetectMappingDepths(targets);
    var overDepth := set k | k in depths && depths[k] > MAX_PATH_MAPPING_DEPTH;
    forall k | k in cyclic ensures k in overDepth {
      CycleNeverResolves(Following(targets), k, MAX_PATH_MAPPING_DEPTH);
    }
    assert cyclic + overDepth == Endless(targets);
    if cyclic == {} && overDepth == {} {
      assert Endless(targets) == {};
      WithoutNothing(mappings, {});
      return mappings;
    }
    kept := Without(mappings, cyclic + overDepth);
  }

  /** The filter decides each rule by its own chain: kept exactly when following request keys to
      target keys from it reaches a key that is no request, in at most ten steps. */
  lemma {:induction false} WithoutMembers(mappings: seq<PathMapping>, dropped: set<string>)
    ensures forall m :: m in Without(mappings, dropped) <==> m in mappings && MatchKey(m.request) !in dropped
  {
    if |mappings| > 0 {
      var rest := mappings[..|mappings| - 1];
      WithoutMembers(rest, dropped);
      assert mappings == rest + [mappings[|mappings| - 1]];
    }
  }

  lemma KeptIffChainEnds(mappings: seq<PathMapping>, m: PathMapping)
    ensures m in ValidChains(mappings) <==>
            m in mappings && Ends(TargetByRequest(mappings), MatchKey(m.request))
  {
    RequestsAreKeys(mappings);
    WithoutMembers(mappings, Endless(TargetByRequest(mappings)));
  }

  /** Cyclic sources are over-depth too: the cycle search never drops a rule on its own. */
  lemma CyclicIsOverDepth(mappings: seq<PathMapping>, k: string)
    requires OnCycle(Following(TargetByRequest(mappings)), k)
    ensures k in Endless(TargetByRequest(mappings))
  {
    CycleNeverResolves(Following(TargetByRequest(mappings)), k, MAX_PATH_MAPPING_DEPTH);
  }

  // ----- filtering twice -----

  lemma {:induction false} TargetsOfKept(mappings: seq<PathMapping>, dropped: set<string>)
    ensures TargetByRequest(Without(mappings, dropped)) == TargetByRequest(mappings) - dropped
  {
    if |mappings| > 0 {
      var rest, m := mappings[..|mappings| - 1], mappings[|mappings| - 1];
      TargetsOfKept(rest, dropped);
      var kept := Without(rest, dropped);
      if MatchKey(m.request) !in dropped {
        TargetsOfLonger(kept, m);
      } else {
        assert kept + [] == kept;
      }
    }
  }

  lemma TargetsOfLonger(mappings: seq<PathMapping>, m: PathMapping)
    ensures TargetByRequest(mappings + [m]) == TargetByRequest(mappings)[MatchKey(m.request) := MatchKey(m.final)]
  {
    assert (mappings + [m])[..|mappings|] == mappings;
  }

  lemma {:induction false} EndsAfterDrop(targets: Targets, k: string, n: nat)
    requires NormalForm(Following(targets), k, n).Some? && n <= MAX_PATH_MAPPING_DEPTH
    ensures NormalForm(Following(targets - Endless(targets)), k, n).Some?
    decreases n
  {
    if k in targets {
      Monotone(Following(targets), k, n, MAX_PATH_MAPPING_DEPTH);
      EndsAfterDrop(targets, targets[k], n - 1);
    }
  }

  lemma Monotone(step: string -> Option<string>, k: string, m: nat, n: nat)
    requires m <= n && NormalForm(step, k, m).Some?
    ensures NormalForm(step, k, n).Some?
  {
    var j := NormalFormSteps(step, k, m);
    ResolvesInNormalForm(step, k, j, n);
  }

  /** Filtering a filtered list changes nothing. */
  lemma FilterIdempotent(mappings: seq<PathMapping>)
    ensures ValidChains(ValidChains(mappings)) == ValidChains(mappings)
  {
    var targets := TargetByRequest(mappings);
    var kept := ValidChains(mappings);
    TargetsOfKept(mappings, Endless(targets));
    forall k | k in TargetByRequest(kept) ensures Ends(TargetByRequest(kept), k) {
      EndsAfterDrop(targets, k, MAX_PATH_MAPPING_DEPTH);
    }
    assert Endless(TargetByRequest(kept)) == {};
    WithoutNothing(kept, {});
  }

  // ----- filter and walker -----

  /** An exact match is the longest of the requests that cover a path, and of several the rule the
      hash map remembers. */
  lemma ExactIsLongest(mappings: seq<PathMapping>, p: string)
    requires MatchKey(p) in TargetByRequest(mappings)
    ensures var b := Best(p, mappings);
            && b >= 0 && MatchKey(mappings[b].request) == MatchKey(p)
            && MatchKey(mappings[b].final) == TargetByRequest(mappings)[MatchKey(p)]
  {
    RequestsAreKeys(mappings);
    var targets, b := TargetByRequest(mappings), Best(p, mappings);
    var i :| 0 <= i < |mappings| && MatchKey(mappings[i].request) == MatchKey(p)
             && MatchKey(mappings[i].final) == targets[MatchKey(p)]
             && forall j :: i < j < |mappings| ==> MatchKey(mappings[j].request) != MatchKey(p);
    assert Covers(mappings[i].request, p);
    assert |mappings[i].request| == |MatchKey(mappings[i].request)| == |p|;
    CoversByKey(mappings[b].request, p);
    CoversComparable(mappings[i].request, mappings[b].request, p);
  }

  /** One exact step of a key is one rewrite of any path with that key, onto a target. */
  lemma ExactStep(mappings: seq<PathMapping>, p: string)
    requires MatchKey(p) in TargetByRequest(mappings)
    ensures Rewriting(mappings)(p).Some?
    ensures MatchKey(Rewriting(mappings)(p).value) == TargetByRequest(mappings)[MatchKey(p)]
    ensures exists m :: m in mappings && Rewriting(mappings)(p).value == m.final
  {
    ExactIsLongest(mappings, p);
    var m := mappings[Best(p, mappings)];
    assert m in mappings;
    assert Rewrite(p, m) == m.final + "" == m.final;
  }

  /** The walker steps along every exact chain. */
  lemma WalkerFollowsChains(mappings: seq<PathMapping>)
    ensures Follows(Rewriting(mappings), Following(TargetByRequest(mappings)), MatchKey)
  {
    forall p
      ensures FollowsAt(Rewriting(mappings), Following(TargetByRequest(mappings)), MatchKey, p)
    {
      if MatchKey(p) in TargetByRequest(mappings) {
        ExactStep(mappings, p);
      }
    }
  }

  lemma {:induction false} EndIsTarget(mappings: seq<PathMapping>, p: string, n: nat)
    requires n > 0 && ResolvesIn(Following(TargetByRequest(mappings)), MatchKey(p), n)
    ensures exists m :: m in mappings && After(Rewriting(mappings), p, n) == m.final
    decreases n
  {
    ExactStep(mappings, p);
    var q := Rewriting(mappings)(p).value;
    assert After(Rewriting(mappings), p, n) == After(Rewriting(mappings), q, n - 1);
    if n > 1 {
      EndIsTarget(mappings, q, n - 1);
    }
  }

  /** The filter drops nothing the walker would answer, on any list. */
  lemma DroppedIsRefused(mappings: seq<PathMapping>, m: PathMapping)
    requires m in mappings && m !in ValidChains(mappings)
    ensures MapPath(m.request, mappings) == ""
  {
    KeptIffChainEnds(mappings, m);
    WalkerFollowsChains(mappings);
    FollowsTooLong(Rewriting(mappings), Following(TargetByRequest(mappings)), MatchKey, m.request, MAX_PATH_MAPPING_DEPTH);
  }

  /** What the walker answers from `p` with `n` rewrites to go, the empty text for a refusal. */
  function AnswerWithin(p: string, mappings: seq<PathMapping>, n: nat): string {
    match NormalForm(Rewriting(mappings), p, n) case None => "" case Some(q) => q
  }

  /** The exact relation of filter and walker on any list: for a kept rule the walker goes along the
      exact chain to its end, a target, and from there on answers what the remaining rewrites give.
      So a kept rule is refused exactly when a rule that lies above the end of its chain leads on and
      is not done with in time. */
  lemma KeptIsAnsweredIff(mappings: seq<PathMapping>, m: PathMapping) returns (n: nat, end: string)
    requires m in ValidChains(mappings) && m.request != ""
    ensures 1 <= n <= MAX_PATH_MAPPING_DEPTH && ResolvesIn(Following(TargetByRequest(mappings)), MatchKey(m.request), n)
    ensures end == After(Rewriting(mappings), m.request, n) && MatchKey(end) !in TargetByRequest(mappings)
    ensures exists r :: r in mappings && end == r.final
    ensures MatchKey(end) == After(Following(TargetByRequest(mappings)), MatchKey(m.request), n)
    ensures MapPath(m.request, mappings) == AnswerWithin(end, mappings, MAX_PATH_MAPPING_DEPTH - n)
    ensures NonEmptyFinals(mappings) ==>
              (MapPath(m.request, mappings) != "" <==>
               NormalForm(Rewriting(mappings), end, MAX_PATH_MAPPING_DEPTH - n).Some?)
  {
    n := ChainOfKept(mappings, m);
    end := After(Rewriting(mappings), m.request, n);
    AlongChain(mappings, m.request, n, MAX_PATH_MAPPING_DEPTH);
    EndIsTarget(mappings, m.request, n);
    AnsweredIffFinished(m.request, mappings);
    AnswerCarries(mappings, m.request, MAX_PATH_MAPPING_DEPTH, end, MAX_PATH_MAPPING_DEPTH - n);
  }

  lemma AnswerCarries(mappings: seq<PathMapping>, p: string, k: nat, end: string, n: nat)
    requires NormalForm(Rewriting(mappings), p, k) == NormalForm(Rewriting(mappings), end, n)
    ensures AnswerWithin(p, mappings, k) == AnswerWithin(end, mappings, n)
  {
  }

  lemma ChainOfKept(mappings: seq<PathMapping>, m: PathMapping) returns (n: nat)
    requires m in ValidChains(mappings)
    ensures 1 <= n <= MAX_PATH_MAPPING_DEPTH && ResolvesIn(Following(TargetByRequest(mappings)), MatchKey(m.request), n)
  {
    KeptIffChainEnds(mappings, m);
    RequestsAreKeys(mappings);
    n := NormalFormSteps(Following(TargetByRequest(mappings)), MatchKey(m.request), MAX_PATH_MAPPING_DEPTH);
  }

  lemma AlongChain(mappings: seq<PathMapping>, p: string, n: nat, bound: nat)
    requires 1 <= n <= bound && ResolvesIn(Following(TargetByRequest(mappings)), MatchKey(p), n)
    ensures var end := After(Rewriting(mappings), p, n);
            && MatchKey(end) == After(Following(TargetByRequest(mappings)), MatchKey(p), n)
            && MatchKey(end) !in TargetByRequest(mappings) && Rewriting(mappings)(p).Some?
            && NormalForm(Rewriting(mappings), p, bound) == NormalForm(Rewriting(mappings), end, bound - n)
  {
    WalkerFollowsChains(mappings);
    FollowsToEnd(Rewriting(mappings), Following(TargetByRequest(mappings)), MatchKey, p, n, bound);
  }

  lemma AnsweredIffFinished(p: string, mappings: seq<PathMapping>)
    requires p != "" && Rewriting(mappings)(p).Some?
    ensures MapPath(p, mappings) == AnswerWithin(p, mappings, MAX_PATH_MAPPING_DEPTH)
    ensures NonEmptyFinals(mappings) ==>
              (MapPath(p, mappings) != "" <==> NormalForm(Rewriting(mappings), p, MAX_PATH_MAPPING_DEPTH).Some?)
  {
    if NonEmptyFinals(mappings) && NormalForm(Rewriting(mappings), p, MAX_PATH_MAPPING_DEPTH).Some? {
      var k := NormalFormSteps(Rewriting(mappings), p, MAX_PATH_MAPPING_DEPTH);
      AfterNonEmpty(p, mappings, k);
    }
  }

  /** No request lies strictly above a target. */
  ghost predicate Flat(mappings: seq<PathMapping>) {
    forall r, m :: r in mappings && m in mappings && Covers(r.request, m.final) ==> MatchKey(r.request) == MatchKey(m.final)
  }

  lemma FlatEnd(mappings: seq<PathMapping>, m: PathMapping)
    requires Flat(mappings) && m in mappings && MatchKey(m.final) !in TargetByRequest(mappings)
    ensures Rewriting(mappings)(m.final).None?
  {
    RequestsAreKeys(mappings);
    assert forall i :: 0 <= i < |mappings| ==> mappings[i] in mappings;
  }

  /** Where no request lies above a target, the ends of the chains are final, and filter and walker
      draw the same line: a rule is kept exactly when the walker on the unfiltered list answers its
      request, and the answer is the end of the exact chain. */
  lemma FilterAgreesWithWalker(mappings: seq<PathMapping>, m: PathMapping)
    requires Flat(mappings) && NonEmptyFinals(mappings) && m in mappings && m.request != ""
    ensures m in ValidChains(mappings) <==> MapPath(m.request, mappings) != ""
    ensures m in ValidChains(mappings) ==>
              NormalForm(Following(TargetByRequest(mappings)), MatchKey(m.request), MAX_PATH_MAPPING_DEPTH)
              == Some(MatchKey(MapPath(m.request, mappings)))
  {
    if m in ValidChains(mappings) {
      var n, end := KeptIsAnsweredIff(mappings, m);
      var r :| r in mappings && end == r.final;
      FlatEnd(mappings, r);
      ResolvesInNormalForm(Following(TargetByRequest(mappings)), MatchKey(m.request), n, MAX_PATH_MAPPING_DEPTH);
    } else {
      DroppedIsRefused(mappings, m);
    }
  }

  /** Nesting is what separates them: a rule whose target lies strictly below its own request is
      kept by the filter, yet the walker refuses every path under that request. */
  lemma NestedTargetKeptButRefused(m: PathMapping, p: string)
    requires Covers(m.request, m.final) && MatchKey(m.request) != MatchKey(m.final)
    requires Covers(m.request, p)
    ensures m in ValidChains([m])
    ensures MapPath(p, [m]) == ""
  {
    KeptIffChainEnds([m], m);
    assert TargetByRequest([m]) == map[MatchKey(m.request) := MatchKey(m.final)] by {
      assert [m][..0] == [];
    }
    assert NormalForm(Following(TargetByRequest([m])), MatchKey(m.final), MAX_PATH_MAPPING_DEPTH - 1).Some?;
    NestedTargetGrows(m, p, MAX_PATH_MAPPING_DEPTH);
  }

  lemma {:induction false} NestedTargetGrows(m: PathMapping, p: string, n: nat)
    requires Covers(m.request, m.final) && MatchKey(m.request) != MatchKey(m.final)
    requires Covers(m.request, p)
    ensures NormalForm(Rewriting([m]), p, n).None?
    decreases n
  {
    assert Best(p, [m]) == 0;
    var q := Rewrite(p, m);
    RewriteKey(p, m);
    CoversByKey(m.request, p);
    CoversByKey(m.request, m.final);
    CoversByKey(m.request, q);
    assert Rewriting([m])(p) == Some(q);
    if n > 0 {
      NestedTargetGrows(m, q, n - 1);
    }
  }
}
