/** The breadth-first worklist inside `expand_namespace_path_mappings`. */
module MappingWorklist {
  import opened Paths
  import opened MappingChain
  import opened MappingExpansion

  type Pending = seq<(string, nat)>

  // ----- termination -----

  /** What a queue entry at level `d` can still cost with `n` rules: itself, and one entry per
      rule one level down. */
  ghost function Weight(n: nat, d: nat): (w: nat)
    ensures w >= 1
    decreases MAX_PATH_MAPPING_DEPTH - d
  {
    if d >= MAX_PATH_MAPPING_DEPTH then 1 else 1 + n * Weight(n, d + 1)
  }

  ghost function TotalWeight(n: nat, pending: Pending): nat {
    if |pending| == 0 then 0 else Weight(n, pending[0].1) + TotalWeight(n, pending[1..])
  }

  lemma {:induction false} TotalWeightAppends(n: nat, xs: Pending, ys: Pending)
    ensures TotalWeight(n, xs + ys) == TotalWeight(n, xs) + TotalWeight(n, ys)
  {
    if |xs| == 0 {
      assert xs + ys == ys;
    } else {
      TotalWeightAppends(n, xs[1..], ys);
      assert (xs + ys)[1..] == xs[1..] + ys;
    }
  }

  lemma {:induction false} TotalWeightLevel(n: nat, xs: Pending, d: nat)
    requires forall t :: 0 <= t < |xs| ==> xs[t].1 == d
    ensures TotalWeight(n, xs) == |xs| * Weight(n, d)
  {
    if |xs| > 0 {
      var w := Weight(n, d);
      assert TotalWeight(n, xs) == w + TotalWeight(n, xs[1..]);
      TotalWeightLevel(n, xs[1..], d);
      OneMoreTimes(|xs| - 1, w);
    }
  }

  lemma OneMoreTimes(a: nat, w: nat)
    ensures (a + 1) * w == w + a * w
  {
  }

  lemma TimesMonotone(a: nat, b: nat, w: nat)
    requires a <= b
    ensures a * w <= b * w
  {
  }

  /** Replacing the head by at most one deeper entry per rule makes the queue lighter. */
  lemma PushesAreLighter(n: nat, d: nat, rest: Pending, extra: Pending)
    requires d < MAX_PATH_MAPPING_DEPTH && |extra| <= n
    requires forall t :: 0 <= t < |extra| ==> extra[t].1 == d + 1
    ensures TotalWeight(n, rest + extra) < Weight(n, d) + TotalWeight(n, rest)
  {
    TotalWeightAppends(n, rest, extra);
    TotalWeightLevel(n, extra, d + 1);
    TimesMonotone(|extra|, n, Weight(n, d + 1));
  }

  // ----- the state of the worklist -----

  /** `key` has been worked at a level up to `bound`, or still will be. */
  ghost predicate Due(x: Worked, pending: Pending, key: string, bound: nat) {
    || (key in x.depths && x.depths[key] <= bound)
    || exists t :: 0 <= t < |pending| && MatchKey(pending[t].0) == key && pending[t].1 <= bound
  }

  /** Levels in the queue never decrease, span at most two values, and are not below any level
      already worked. */
  ghost predicate Ordered(x: Worked, pending: Pending) {
    && (forall t, u :: 0 <= t <= u < |pending| ==> pending[t].1 <= pending[u].1 <= pending[t].1 + 1)
    && (forall t :: 0 <= t < |pending| ==> pending[t].1 <= MAX_PATH_MAPPING_DEPTH)
    && (forall k, t :: k in x.depths && 0 <= t < |pending| ==> x.depths[k] <= pending[t].1)
  }

  ghost predicate RequestsDue(x: Worked, pending: Pending) {
    forall j :: 0 <= j < |x.mappings| ==> Due(x, pending, MatchKey(x.mappings[j].request), 0)
  }

  ghost predicate PullBackDue(x: Worked, pending: Pending, i: nat, j: nat)
    requires x.Emitted() && i < |x.mounts| && j < |x.mappings|
  {
    (x.depths[MatchKey(x.mounts[i].request)] < MAX_PATH_MAPPING_DEPTH
     && StrictlyCovers(x.mappings[j].final, x.mounts[i].request)) ==>
      Due(x, pending, MatchKey(PullBack(x.mounts[i].request, x.mappings[j])),
          x.depths[MatchKey(x.mounts[i].request)] + 1)
  }

  ghost predicate PendingDerived(x: Worked, pending: Pending) {
    forall t :: 0 <= t < |pending| ==> x.Derived(MatchKey(pending[t].0), pending[t].1)
  }

  ghost predicate Working(x: Worked, pending: Pending) {
    && x.Emitted() && x.Sound()
    && Ordered(x, pending) && RequestsDue(x, pending) && PendingDerived(x, pending)
    && (forall i: nat, j: nat :: i < |x.mounts| && j < |x.mappings| ==> PullBackDue(x, pending, i, j))
  }

  datatype Queue = Queue(x: Worked, pending: Pending)

  type Running = q: Queue | Working(q.x, q.pending) witness Queue(Worked([], [], map[]), [])

  lemma DrainedIsFinished(x: Worked)
    requires Working(x, [])
    ensures x.Finished()
  {
    forall i, j |
      0 <= i < |x.mounts| && 0 <= j < |x.mappings|
      && x.depths[MatchKey(x.mounts[i].request)] < MAX_PATH_MAPPING_DEPTH
      && StrictlyCovers(x.mappings[j].final, x.mounts[i].request)
      ensures var k := MatchKey(PullBack(x.mounts[i].request, x.mappings[j]));
              k in x.depths && x.depths[k] <= x.depths[MatchKey(x.mounts[i].request)] + 1
    {
      assert PullBackDue(x, [], i, j);
    }
    assert forall j :: 0 <= j < |x.mappings| ==> Due(x, [], MatchKey(x.mappings[j].request), 0);
  }

  lemma DueAfterPop(x: Worked, pending: Pending, key: string, bound: nat)
    requires |pending| > 0 && Due(x, pending, key, bound)
    ensures Due(x, pending[1..], key, bound) || (key == MatchKey(pending[0].0) && pending[0].1 <= bound)
  {
    if !(key in x.depths && x.depths[key] <= bound) {
      var t :| 0 <= t < |pending| && MatchKey(pending[t].0) == key && pending[t].1 <= bound;
      if t > 0 {
        assert pending[1..][t - 1] == pending[t];
      }
    }
  }

  lemma PopSeen(x: Worked, pending: Pending)
    requires |pending| > 0 && Working(x, pending) && MatchKey(pending[0].0) in x.depths
    ensures Working(x, pending[1..])
  {
    forall j | 0 <= j < |x.mappings| ensures Due(x, pending[1..], MatchKey(x.mappings[j].request), 0) {
      DueAfterPop(x, pending, MatchKey(x.mappings[j].request), 0);
    }
    forall i: nat, j: nat | i < |x.mounts| && j < |x.mappings| ensures PullBackDue(x, pending[1..], i, j) {
      assert PullBackDue(x, pending, i, j);
      if x.depths[MatchKey(x.mounts[i].request)] < MAX_PATH_MAPPING_DEPTH
         && StrictlyCovers(x.mappings[j].final, x.mounts[i].request) {
        DueAfterPop(x, pending, MatchKey(PullBack(x.mounts[i].request, x.mappings[j])),
                    x.depths[MatchKey(x.mounts[i].request)] + 1);
      }
    }
  }

  /** `y` knows everything `x` knew. */
  ghost predicate Extends(x: Worked, y: Worked) {
    && y.mappings == x.mappings && x.mounts <= y.mounts
    && (forall k :: k in x.depths ==> k in y.depths && y.depths[k] == x.depths[k])
  }

  lemma DerivedExtends(x: Worked, y: Worked, key: string, d: nat)
    requires Extends(x, y) && x.Derived(key, d)
    ensures y.Derived(key, d)
  {
    if !(d == 0 && exists j :: 0 <= j < |x.mappings| && key == MatchKey(x.mappings[j].request)) {
      var i, j :| 0 <= i < |x.mounts| && 0 <= j < |x.mappings|
                  && MatchKey(x.mounts[i].request) in x.depths
                  && x.depths[MatchKey(x.mounts[i].request)] + 1 == d
                  && StrictlyCovers(x.mappings[j].final, x.mounts[i].request)
                  && key == MatchKey(PullBack(x.mounts[i].request, x.mappings[j]));
      assert y.mounts[i] == x.mounts[i];
    }
  }

  /** The state after the head of the queue has been worked. */
  ghost function Advance(x: Worked, head: (string, nat)): Worked {
    var target := MapPath(head.0, x.mappings);
    x.(depths := x.depths[MatchKey(head.0) := head.1],
       mounts := x.mounts + if target == "" then [] else [PathMapping(head.0, target)])
  }

  lemma StepEmits(x: Worked, head: (string, nat))
    requires x.Emitted() && MatchKey(head.0) !in x.depths
    ensures Advance(x, head).Emitted() && Extends(x, Advance(x, head))
  {
    var y := Advance(x, head);
    forall i: nat | i < |y.mounts| ensures y.AnsweredAt(i) {
      if i < |x.mounts| {
        assert x.AnsweredAt(i) && y.mounts[i] == x.mounts[i];
      }
    }
    forall p | MatchKey(p) in y.depths && MapPath(p, y.mappings) != "" ensures y.HasMount(MatchKey(p)) {
      if MatchKey(p) == MatchKey(head.0) {
        WalkerRespell(p, head.0, x.mappings);
        assert |MapPath(p, x.mappings)| == |MatchKey(MapPath(p, x.mappings))|;
        assert |MapPath(head.0, x.mappings)| == |MatchKey(MapPath(head.0, x.mappings))|;
        assert y.mounts[|x.mounts|].request == head.0;
      } else {
        assert x.HasMount(MatchKey(p));
        var i :| 0 <= i < |x.mounts| && MatchKey(x.mounts[i].request) == MatchKey(p);
        assert y.mounts[i] == x.mounts[i];
      }
    }
  }

  lemma StepSound(x: Worked, pending: Pending)
    requires |pending| > 0 && Working(x, pending) && MatchKey(pending[0].0) !in x.depths
    ensures Advance(x, pending[0]).Sound()
  {
    var y := Advance(x, pending[0]);
    StepEmits(x, pending[0]);
    forall k, d | k in y.depths && d == y.depths[k]
      ensures d <= MAX_PATH_MAPPING_DEPTH && y.Derived(k, d)
    {
      assert x.Derived(k, d) by {
        if k == MatchKey(pending[0].0) {
          assert x.Derived(MatchKey(pending[0].0), pending[0].1);
        }
      }
      DerivedExtends(x, y, k, d);
    }
  }

  lemma DueAfterStep(x: Worked, pending: Pending, extra: Pending, key: string, bound: nat)
    requires |pending| > 0 && MatchKey(pending[0].0) !in x.depths && Due(x, pending, key, bound)
    ensures Due(Advance(x, pending[0]), pending[1..] + extra, key, bound)
  {
    DueAfterPop(x, pending, key, bound);
    var rest := pending[1..];
    if key != MatchKey(pending[0].0) && !(key in x.depths && x.depths[key] <= bound) {
      var t :| 0 <= t < |rest| && MatchKey(rest[t].0) == key && rest[t].1 <= bound;
      assert (rest + extra)[t] == rest[t];
    } else if key == MatchKey(pending[0].0) && !(pending[0].1 <= bound) {
      var t :| 0 <= t < |rest| && MatchKey(rest[t].0) == key && rest[t].1 <= bound;
      assert (rest + extra)[t] == rest[t];
    }
  }

  /** A queue entry the head gives rise to. */
  ghost predicate Pushed(mappings: seq<PathMapping>, head: (string, nat), e: (string, nat)) {
    && e.1 == head.1 + 1
    && exists j :: 0 <= j < |mappings| && StrictlyCovers(mappings[j].final, head.0)
                   && e.0 == PullBack(head.0, mappings[j])
  }

  ghost predicate Provided(m: PathMapping, head: (string, nat), seen: set<string>, extra: Pending) {
    StrictlyCovers(m.final, head.0) ==>
      || MatchKey(PullBack(head.0, m)) in seen
      || exists t :: 0 <= t < |extra| && MatchKey(extra[t].0) == MatchKey(PullBack(head.0, m))
  }

  /** What the loop over the first `n` rules pushes for a mount point not at the last level. */
  ghost predicate Pushes(mappings: seq<PathMapping>, n: nat, head: (string, nat), seen: set<string>, extra: Pending)
    requires n <= |mappings|
  {
    && (forall t :: 0 <= t < |extra| ==> Pushed(mappings, head, extra[t]))
    && (forall j :: 0 <= j < n ==> Provided(mappings[j], head, seen, extra))
  }

  /** `extra` is right for the head: empty at the last level or for a refused request. */
  ghost predicate Follow(mappings: seq<PathMapping>, head: (string, nat), seen: set<string>, extra: Pending) {
    if MapPath(head.0, mappings) == "" || head.1 >= MAX_PATH_MAPPING_DEPTH
    then extra == []
    else Pushes(mappings, |mappings|, head, seen, extra)
  }

  lemma StepOrdered(x: Worked, pending: Pending, extra: Pending)
    requires |pending| > 0 && Ordered(x, pending) && MatchKey(pending[0].0) !in x.depths
    requires forall t :: 0 <= t < |extra| ==> extra[t].1 == pending[0].1 + 1 <= MAX_PATH_MAPPING_DEPTH
    ensures Ordered(Advance(x, pending[0]), pending[1..] + extra)
  {
    var d, k := pending[0].1, |pending| - 1;
    var next := pending[1..] + extra;
    assert forall t :: 0 <= t < k ==> next[t] == pending[t + 1] && d <= next[t].1 <= d + 1;
    assert forall t :: k <= t < |next| ==> next[t].1 == d + 1;
  }

  lemma FollowLevels(x: Worked, pending: Pending, seen: set<string>, extra: Pending)
    requires |pending| > 0 && Follow(x.mappings, pending[0], seen, extra)
    ensures forall t :: 0 <= t < |extra| ==> extra[t].1 == pending[0].1 + 1 <= MAX_PATH_MAPPING_DEPTH
  {
    forall t | 0 <= t < |extra| ensures extra[t].1 == pending[0].1 + 1 <= MAX_PATH_MAPPING_DEPTH {
      assert Pushed(x.mappings, pending[0], extra[t]);
    }
  }

  lemma StepPendingDerived(x: Worked, pending: Pending, seen: set<string>, extra: Pending)
    requires |pending| > 0 && Working(x, pending) && MatchKey(pending[0].0) !in x.depths
    requires Follow(x.mappings, pending[0], seen, extra)
    ensures PendingDerived(Advance(x, pending[0]), pending[1..] + extra)
  {
    var y, next := Advance(x, pending[0]), pending[1..] + extra;
    StepEmits(x, pending[0]);
    forall t | 0 <= t < |next| ensures y.Derived(MatchKey(next[t].0), next[t].1) {
      if t < |pending| - 1 {
        assert next[t] == pending[t + 1];
        DerivedExtends(x, y, MatchKey(next[t].0), next[t].1);
      } else {
        var e := extra[t - (|pending| - 1)];
        assert Pushed(x.mappings, pending[0], e);
        var j :| 0 <= j < |x.mappings| && StrictlyCovers(x.mappings[j].final, pending[0].0)
                 && e.0 == PullBack(pending[0].0, x.mappings[j]);
        assert y.mounts[|x.mounts|].request == pending[0].0;
      }
    }
  }

  lemma OldPullBackDue(x: Worked, pending: Pending, extra: Pending, i: nat, j: nat)
    requires |pending| > 0 && MatchKey(pending[0].0) !in x.depths && x.Emitted()
    requires i < |x.mounts| && j < |x.mappings| && PullBackDue(x, pending, i, j)
    requires Advance(x, pending[0]).Emitted()
    ensures PullBackDue(Advance(x, pending[0]), pending[1..] + extra, i, j)
  {
    var e := x.mounts[i].request;
    if x.depths[MatchKey(e)] < MAX_PATH_MAPPING_DEPTH && StrictlyCovers(x.mappings[j].final, e) {
      DueAfterStep(x, pending, extra, MatchKey(PullBack(e, x.mappings[j])), x.depths[MatchKey(e)] + 1);
    }
  }

  lemma ProvidedIsDue(y: Worked, rest: Pending, extra: Pending, head: (string, nat), m: PathMapping)
    requires StrictlyCovers(m.final, head.0) && Provided(m, head, y.depths.Keys, extra)
    requires forall k :: k in y.depths ==> y.depths[k] <= head.1
    requires forall t :: 0 <= t < |extra| ==> extra[t].1 == head.1 + 1
    ensures Due(y, rest + extra, MatchKey(PullBack(head.0, m)), head.1 + 1)
  {
    var key := MatchKey(PullBack(head.0, m));
    if key !in y.depths {
      var t :| 0 <= t < |extra| && MatchKey(extra[t].0) == key;
      assert (rest + extra)[|rest| + t] == extra[t];
    }
  }

  lemma NewPullBackDue(x: Worked, pending: Pending, seen: set<string>, extra: Pending, j: nat)
    requires |pending| > 0 && MatchKey(pending[0].0) !in x.depths && j < |x.mappings|
    requires Ordered(x, pending) && Follow(x.mappings, pending[0], seen, extra)
    requires seen == x.depths.Keys + {MatchKey(pending[0].0)}
    requires Advance(x, pending[0]).Emitted() && |x.mounts| < |Advance(x, pending[0]).mounts|
    ensures PullBackDue(Advance(x, pending[0]), pending[1..] + extra, |x.mounts|, j)
  {
    var y, m := Advance(x, pending[0]), x.mappings[j];
    assert y.mounts[|x.mounts|].request == pending[0].0;
    if pending[0].1 < MAX_PATH_MAPPING_DEPTH && StrictlyCovers(m.final, pending[0].0) {
      FollowLevels(x, pending, seen, extra);
      assert y.depths.Keys == seen;
      ProvidedIsDue(y, pending[1..], extra, pending[0], m);
    }
  }

  /** One turn of the loop keeps the state of the worklist. */
  lemma StepWorks(x: Worked, pending: Pending, seen: set<string>, extra: Pending)
    requires |pending| > 0 && Working(x, pending) && MatchKey(pending[0].0) !in x.depths
    requires Follow(x.mappings, pending[0], seen, extra) && seen == x.depths.Keys + {MatchKey(pending[0].0)}
    ensures Working(Advance(x, pending[0]), pending[1..] + extra)
  {
    var y, next := Advance(x, pending[0]), pending[1..] + extra;
    StepEmits(x, pending[0]);
    StepSound(x, pending);
    FollowLevels(x, pending, seen, extra);
    StepOrdered(x, pending, extra);
    StepPendingDerived(x, pending, seen, extra);
    forall j | 0 <= j < |y.mappings| ensures Due(y, next, MatchKey(y.mappings[j].request), 0) {
      DueAfterStep(x, pending, extra, MatchKey(x.mappings[j].request), 0);
    }
    forall i: nat, j: nat | i < |y.mounts| && j < |y.mappings| ensures PullBackDue(y, next, i, j) {
      if i < |x.mounts| {
        assert PullBackDue(x, pending, i, j);
        OldPullBackDue(x, pending, extra, i, j);
      } else {
        NewPullBackDue(x, pending, seen, extra, j);
      }
    }
  }

  // ----- the worklist -----

  method PushPullBacks(mappings: seq<PathMapping>, head: (string, nat), seen: set<string>) returns (extra: Pending)
    ensures |extra| <= |mappings|
    ensures Pushes(mappings, |mappings|, head, seen, extra)
  {
    extra := [];
    for n := 0 to |mappings|
      invariant |extra| <= n
      invariant Pushes(mappings, n, head, seen, extra)
    {
      var parent := mappings[n];
      if StrictlyCovers(parent.final, head.0) && MatchKey(PullBack(head.0, parent)) !in seen {
        PushOne(mappings, n, head, seen, extra);
        extra := extra + [(PullBack(head.0, parent), head.1 + 1)];
      } else {
        PushNone(mappings, n, head, seen, extra);
      }
    }
  }

  lemma PushNone(mappings: seq<PathMapping>, n: nat, head: (string, nat), seen: set<string>, extra: Pending)
    requires n < |mappings| && Pushes(mappings, n, head, seen, extra)
    requires StrictlyCovers(mappings[n].final, head.0) ==> MatchKey(PullBack(head.0, mappings[n])) in seen
    ensures Pushes(mappings, n + 1, head, seen, extra)
  {
    assert Provided(mappings[n], head, seen, extra);
  }

  lemma PushOne(mappings: seq<PathMapping>, n: nat, head: (string, nat), seen: set<string>, extra: Pending)
    requires n < |mappings| && Pushes(mappings, n, head, seen, extra) && StrictlyCovers(mappings[n].final, head.0)
    ensures Pushes(mappings, n + 1, head, seen, extra + [(PullBack(head.0, mappings[n]), head.1 + 1)])
  {
    var e := (PullBack(head.0, mappings[n]), head.1 + 1);
    var more := extra + [e];
    assert more[|extra|] == e;
    assert Pushed(mappings, head, e);
    forall j | 0 <= j < n ensures Provided(mappings[j], head, seen, more) {
      assert Provided(mappings[j], head, seen, extra);
      if StrictlyCovers(mappings[j].final, head.0) && MatchKey(PullBack(head.0, mappings[j])) !in seen {
        var t :| 0 <= t < |extra| && MatchKey(extra[t].0) == MatchKey(PullBack(head.0, mappings[j]));
        assert more[t] == extra[t];
      }
    }
  }

  lemma Start(mappings: seq<PathMapping>, pending: Pending) returns (q: Running)
    requires |pending| == |mappings|
    requires forall j :: 0 <= j < |mappings| ==> pending[j] == (mappings[j].request, 0)
    ensures q == Queue(Worked(mappings, [], map[]), pending)
  {
    q := Queue(Worked(mappings, [], map[]), pending);
  }

  /** A turn that finds its head already worked. */
  lemma SkipTurn(q: Running) returns (r: Running)
    requires |q.pending| > 0 && MatchKey(q.pending[0].0) in q.x.depths
    ensures r == Queue(q.x, q.pending[1..])
    ensures TotalWeight(|q.x.mappings|, r.pending) < TotalWeight(|q.x.mappings|, q.pending)
  {
    PopSeen(q.x, q.pending);
    r := Queue(q.x, q.pending[1..]);
  }

  /** A turn that works its head keeps the state of the worklist and lightens the queue. */
  lemma WorkTurn(q: Running, seen: set<string>, extra: Pending) returns (r: Running)
    requires |q.pending| > 0 && MatchKey(q.pending[0].0) !in q.x.depths
    requires Follow(q.x.mappings, q.pending[0], seen, extra) && |extra| <= |q.x.mappings|
    requires seen == q.x.depths.Keys + {MatchKey(q.pending[0].0)}
    ensures r == Queue(Advance(q.x, q.pending[0]), q.pending[1..] + extra)
    ensures TotalWeight(|q.x.mappings|, r.pending) < TotalWeight(|q.x.mappings|, q.pending)
  {
    StepWorks(q.x, q.pending, seen, extra);
    r := Queue(Advance(q.x, q.pending[0]), q.pending[1..] + extra);
    FollowLevels(q.x, q.pending, seen, extra);
    if extra == [] {
      assert q.pending[1..] + extra == q.pending[1..];
    } else {
      PushesAreLighter(|q.x.mappings|, q.pending[0].1, q.pending[1..], extra);
    }
  }

  lemma Drained(q: Running)
    requires q.pending == []
    ensures IsExpansion(q.x.mappings, q.x.mounts)
  {
    DrainedIsFinished(q.x);
    assert FinishedWith(q.x.mappings, q.x.mounts, q.x.depths);
  }

  /** The new part of one turn: the answer for the head and the entries it gives rise to. */
  method WorkHead(mappings: seq<PathMapping>, head: (string, nat), seen: set<string>)
    returns (mount: seq<PathMapping>, extra: Pending)
    ensures mount == var target := MapPath(head.0, mappings);
                     if target == "" then [] else [PathMapping(head.0, target)]
    ensures |extra| <= |mappings|
    ensures Follow(mappings, head, seen, extra)
  {
    mount, extra := [], [];
    var target := MapMappingChain(head.0, mappings, false);
    if target != "" {
      mount := [PathMapping(head.0, target)];
      if head.1 < MAX_PATH_MAPPING_DEPTH {
        extra := PushPullBacks(mappings, head, seen);
      }
    }
  }

  ghost predicate FinishedWith(mappings: seq<PathMapping>, expanded: seq<PathMapping>, depths: map<string, nat>) {
    Worked(mappings, expanded, depths).Finished()
  }

  /** `expanded` is the expansion of `mappings`, for some levels of its keys. */
  ghost predicate IsExpansion(mappings: seq<PathMapping>, expanded: seq<PathMapping>) {
    exists depths :: FinishedWith(mappings, expanded, depths)
  }

  /** What the returned list means, in the terms of its callers: wherever the walker answers, one
      lookup gives the same path, and the keys of the list are distinct. */
  lemma ExpansionAnswers(mappings: seq<PathMapping>, expanded: seq<PathMapping>, p: string)
    requires IsExpansion(mappings, expanded) && NonEmptyFinals(mappings)
    ensures DistinctRequests(expanded)
    ensures MapPath(p, mappings) != "" ==> MatchKey(Lookup(p, expanded)) == MatchKey(MapPath(p, mappings))
    ensures Inherited(mappings) ==> MatchKey(Lookup(p, expanded)) == MatchKey(MapPath(p, mappings))
  {
    var depths :| FinishedWith(mappings, expanded, depths);
    var x: Expansion := Worked(mappings, expanded, depths);
    if MapPath(p, mappings) != "" {
      LookupMatchesWalker(x, p);
    }
    if Inherited(mappings) {
      InheritedIsEquivalent(x);
      assert MatchKey(Lookup(p, x.mounts)) == MatchKey(MapPath(p, x.mappings));
    }
  }

  /** The loop's variables are the parts of `q`. */
  ghost predicate Holds(q: Running, mappings: seq<PathMapping>, expanded: seq<PathMapping>, seen: set<string>, pending: Pending) {
    seen == q.x.depths.Keys && pending == q.pending && mappings == q.x.mappings && expanded == q.x.mounts
  }

  /** One turn of the loop. */
  method Turn(mappings: seq<PathMapping>, expanded0: seq<PathMapping>, seen0: set<string>, pending0: Pending, ghost q0: Running)
    returns (expanded: seq<PathMapping>, seen: set<string>, pending: Pending, ghost q: Running)
    requires |pending0| > 0 && Holds(q0, mappings, expanded0, seen0, pending0)
    ensures Holds(q, mappings, expanded, seen, pending)
    ensures TotalWeight(|mappings|, pending) < TotalWeight(|mappings|, pending0)
  {
    expanded, seen := expanded0, seen0;
    var head := pending0[0];
    pending := pending0[1..];
    if MatchKey(head.0) in seen {
      q := SkipTurn(q0);
    } else {
      seen := seen + {MatchKey(head.0)};
      var mount, extra := WorkHead(mappings, head, seen);
      expanded := expanded + mount;
      pending := pending + extra;
      q := WorkTurn(q0, seen, extra);
    }
  }

  /** `expand_namespace_path_mappings` terminates on every list and returns its expansion. */
  method ExpandNamespacePathMappings(mappings: seq<PathMapping>) returns (expanded: seq<PathMapping>)
    ensures IsExpansion(mappings, expanded)
  {
    expanded := [];
    var seen: set<string> := {};
    var pending: Pending := seq(|mappings|, j requires 0 <= j < |mappings| => (mappings[j].request, 0));
    ghost var q := Start(mappings, pending);
    while |pending| > 0
      invariant Holds(q, mappings, expanded, seen, pending)
      decreases TotalWeight(|mappings|, pending)
    {
      expanded, seen, pending, q := Turn(mappings, expanded, seen, pending, q);
    }
    Drained(q);
  }
}
