/** The query-access index of src/monitor.rs: the callers of recent media queries by path, in a
    map with a queue of generation stamps that is pruned on every insert. */
module QueryAccess {
  import opened Collections
  import opened Paths

  const QUERY_ACCESS_WINDOW_MS: int := 8000
  const MAX_QUERY_ACCESS_PATHS: nat := 1024
  const QUEUE_COMPACTION_LIMIT: nat := MAX_QUERY_ACCESS_PATHS * 2
  const GENERATIONS: nat := 0x1_0000_0000_0000_0000

  datatype Record = Record(package: string, uid: int, updatedMs: int, source: string, confidence: string, generation: nat)

  /** One insert, as the caller made it. */
  datatype Insert = Insert(path: string, package: string, uid: int, nowMs: int, source: string, confidence: string)

  type History = seq<Insert>

  // ----- what the history says -----

  type LastIndex = map<string, nat>

  ghost predicate Indexes(h: History, last: LastIndex) {
    forall p :: p in last ==> last[p] < |h| && h[last[p]].path == p
  }

  /** For each path the index of its last insert. */
  ghost function Latest(h: History): (last: LastIndex)
    ensures Indexes(h, last)
  {
    if |h| == 0 then map[]
    else
      var rest := h[..|h| - 1];
      Latest(rest)[h[|h| - 1].path := |h| - 1]
  }

  lemma {:induction false} LatestIsLast(h: History, i: nat)
    requires i < |h|
    ensures h[i].path in Latest(h) && i <= Latest(h)[h[i].path]
  {
    if i < |h| - 1 {
      LatestIsLast(h[..|h| - 1], i);
    }
  }

  lemma LatestAppend(h: History, x: Insert)
    ensures Latest(h + [x]) == Latest(h)[x.path := |h|]
  {
    assert (h + [x])[..|h|] == h;
  }

  ghost function RecordOf(h: History, i: nat): Record
    requires i < |h|
  {
    Record(h[i].package, h[i].uid, h[i].nowMs, h[i].source, h[i].confidence, i + 1)
  }

  /** The paths whose latest insert came after that of `p`. */
  ghost function Newer(last: LastIndex, p: string): set<string>
    requires p in last
  {
    set q | q in last && last[q] > last[p]
  }

  ghost predicate Expired(h: History, last: LastIndex, p: string)
    requires Indexes(h, last) && p in last
  {
    h[|h| - 1].nowMs - h[last[p]].nowMs > QUERY_ACCESS_WINDOW_MS
  }

  ghost function RetainedBy(h: History, last: LastIndex): map<string, Record>
    requires Indexes(h, last)
  {
    map p | p in last && !Expired(h, last, p) && |Newer(last, p)| < MAX_QUERY_ACCESS_PATHS :: RecordOf(h, last[p])
  }

  /** What is to be held after the last insert: the latest record of each of the newest 1024
      distinct paths, unless it is older than the window. */
  ghost function Retained(h: History): map<string, Record> {
    RetainedBy(h, Latest(h))
  }

  ghost function PathsAfter(h: History, i: nat): set<string> {
    set j | i < j < |h| :: h[j].path
  }

  ghost predicate IsLast(h: History, i: nat) {
    i < |h| && h[i].path !in PathsAfter(h, i)
  }

  lemma {:induction false} LatestIff(h: History, i: nat)
    requires i < |h|
    ensures IsLast(h, i) <==> h[i].path in Latest(h) && Latest(h)[h[i].path] == i
  {
    LatestIsLast(h, i);
    var k := Latest(h)[h[i].path];
    if k > i {
      assert h[k].path in PathsAfter(h, i);
    }
    forall j | i < j < |h|
      ensures h[j].path in Latest(h) && j <= Latest(h)[h[j].path]
    {
      LatestIsLast(h, j);
    }
  }

  lemma NewerIsAfter(h: History, i: nat)
    requires IsLast(h, i)
    ensures h[i].path in Latest(h) && Newer(Latest(h), h[i].path) == PathsAfter(h, i)
  {
    LatestIff(h, i);
    forall j | i < j < |h|
      ensures h[j].path in Newer(Latest(h), h[i].path)
    {
      LatestIsLast(h, j);
    }
    forall q | q in Newer(Latest(h), h[i].path)
      ensures q in PathsAfter(h, i)
    {
      assert h[Latest(h)[q]].path == q;
    }
  }

  /** What is held after the last insert, read from the inserts: the last one of its path is held exactly
      when it is no more than 8000 ms older and inserts of fewer than 1024 other paths came behind it. */
  lemma RetainedIff(h: History, i: nat)
    requires IsLast(h, i)
    ensures h[i].path in Retained(h) <==> h[|h| - 1].nowMs - h[i].nowMs <= 8000 && |PathsAfter(h, i)| < 1024
    ensures h[i].path in Retained(h) ==>
              Retained(h)[h[i].path] == Record(h[i].package, h[i].uid, h[i].nowMs, h[i].source, h[i].confidence, i + 1)
  {
    LatestIff(h, i);
    NewerIsAfter(h, i);
  }

  /** And nothing else is held. */
  lemma RetainedFrom(h: History, p: string) returns (i: nat)
    requires p in Retained(h)
    ensures IsLast(h, i) && h[i].path == p
  {
    i := Latest(h)[p];
    LatestIff(h, i);
  }

  ghost predicate ClockMonotone(h: History) {
    forall i, j :: 0 <= i <= j < |h| ==> h[i].nowMs <= h[j].nowMs
  }

  // ----- the state between the steps of an insert -----

  /** The paths last inserted at `c` or later, with their latest records. */
  ghost function Live(h: History, last: LastIndex, c: nat): map<string, Record>
    requires Indexes(h, last)
  {
    map p | p in last && last[p] >= c :: RecordOf(h, last[p])
  }

  type Stamps = seq<(string, nat)>

  ghost predicate Increasing(order: Stamps) {
    forall t, u :: 0 <= t < u < |order| ==> order[t].1 < order[u].1
  }

  ghost predicate HasStamp(last: LastIndex, order: Stamps, p: string)
    requires p in last
  {
    (p, last[p] + 1) in order
  }

  /** The queue holds increasing stamps, among them that of every live path. */
  ghost predicate Stamped(last: LastIndex, c: nat, order: Stamps) {
    && Increasing(order)
    && (forall p {:trigger HasStamp(last, order, p)} :: p in last && last[p] >= c ==> HasStamp(last, order, p))
  }

  ghost predicate Gone(h: History, last: LastIndex, p: string)
    requires Indexes(h, last) && p in last
  {
    Expired(h, last, p) || |Newer(last, p)| >= MAX_QUERY_ACCESS_PATHS
  }

  /** What is no longer live has expired or has been overtaken by 1024 newer paths. */
  ghost predicate Justified(h: History, last: LastIndex, c: nat)
    requires Indexes(h, last)
  {
    forall p {:trigger Gone(h, last, p)} :: p in last && last[p] < c ==> Gone(h, last, p)
  }

  // ----- pushing -----

  lemma PushLive(h: History, last: LastIndex, c: nat, x: Insert)
    requires Indexes(h, last) && c <= |h|
    ensures Indexes(h + [x], last[x.path := |h|])
    ensures Live(h + [x], last[x.path := |h|], c) == Live(h, last, c)[x.path := RecordOf(h + [x], |h|)]
  {
  }

  lemma PushStamped(last: LastIndex, c: nat, order: Stamps, x: Insert, n: nat)
    requires Stamped(last, c, order) && forall t :: 0 <= t < |order| ==> order[t].1 <= n
    ensures Stamped(last[x.path := n], c, order + [(x.path, n + 1)])
  {
    var order' := order + [(x.path, n + 1)];
    assert order'[|order|] == (x.path, n + 1);
    var last' := last[x.path := n];
    forall p | p in last' && last'[p] >= c ensures HasStamp(last', order', p) {
      if p != x.path {
        assert HasStamp(last, order, p);
      }
    }
  }

  lemma PushJustified(h: History, last: LastIndex, c: nat, x: Insert)
    requires Indexes(h, last) && Justified(h, last, c) && c <= |h| && ClockMonotone(h + [x])
    ensures Indexes(h + [x], last[x.path := |h|])
    ensures Justified(h + [x], last[x.path := |h|], c)
  {
    var h', last' := h + [x], last[x.path := |h|];
    forall p | p in last' && last'[p] < c
      ensures Gone(h', last', p)
    {
      assert Gone(h, last, p);
      if Expired(h, last, p) {
        assert h'[|h| - 1].nowMs <= h'[|h|].nowMs;
      } else {
        SubsetSize(Newer(last, p), Newer(last', p));
      }
    }
  }

  // ----- popping -----

  ghost predicate FrontMatches(last: LastIndex, c: nat, order: Stamps) {
    |order| > 0 && order[0].0 in last && c <= last[order[0].0] && order[0].1 == last[order[0].0] + 1
  }

  lemma PopStale(last: LastIndex, c: nat, order: Stamps)
    requires Stamped(last, c, order) && |order| > 0 && !FrontMatches(last, c, order)
    ensures Stamped(last, c, order[1..])
  {
    forall p | p in last && last[p] >= c ensures HasStamp(last, order[1..], p) {
      assert HasStamp(last, order, p);
      var t :| 0 <= t < |order| && order[t] == (p, last[p] + 1);
      assert order[1..][t - 1] == order[t];
    }
  }

  /** A matching front stamp belongs to the live path that was inserted longest ago. */
  lemma FrontIsOldest(last: LastIndex, c: nat, order: Stamps, q: string)
    requires Stamped(last, c, order) && FrontMatches(last, c, order) && q in last && last[q] >= c
    ensures q == order[0].0 || last[order[0].0] < last[q]
  {
    assert HasStamp(last, order, q);
    var t :| 0 <= t < |order| && order[t] == (q, last[q] + 1);
  }

  lemma PopOldest(h: History, last: LastIndex, c: nat, order: Stamps)
    requires Indexes(h, last) && Stamped(last, c, order) && FrontMatches(last, c, order)
    ensures Stamped(last, order[0].1, order[1..])
    ensures Live(h, last, order[0].1) == Live(h, last, c) - {order[0].0}
  {
    forall q | q in last && last[q] >= c ensures q == order[0].0 || last[q] >= order[0].1 {
      FrontIsOldest(last, c, order, q);
    }
    forall q | q in last && last[q] >= order[0].1 ensures HasStamp(last, order[1..], q) {
      assert HasStamp(last, order, q);
      var t :| 0 <= t < |order| && order[t] == (q, last[q] + 1);
      assert order[1..][t - 1] == order[t];
    }
  }

  lemma NewerThanOldest(h: History, last: LastIndex, c: nat, order: Stamps)
    requires Indexes(h, last) && Stamped(last, c, order) && FrontMatches(last, c, order)
    ensures |Newer(last, order[0].0)| == |Live(h, last, c)| - 1
  {
    var p := order[0].0;
    forall q | q in last && last[q] >= c ensures q == p || last[p] < last[q] {
      FrontIsOldest(last, c, order, q);
    }
    assert Newer(last, p) == Live(h, last, c).Keys - {p};
  }

  lemma PopJustified(h: History, last: LastIndex, c: nat, order: Stamps)
    requires Indexes(h, last) && Stamped(last, c, order) && FrontMatches(last, c, order) && Justified(h, last, c)
    requires Expired(h, last, order[0].0) || |Live(h, last, c)| > MAX_QUERY_ACCESS_PATHS
    ensures Justified(h, last, order[0].1)
  {
    NewerThanOldest(h, last, c, order);
    forall q | q in last && last[q] < order[0].1 ensures Gone(h, last, q) {
      if last[q] >= c {
        FrontIsOldest(last, c, order, q);
      } else {
        assert Gone(h, last, q);
      }
    }
  }

  // ----- stopping -----

  lemma LiveNotRemovable(h: History, last: LastIndex, c: nat, order: Stamps, p: string)
    requires Indexes(h, last) && Stamped(last, c, order) && ClockMonotone(h) && FrontMatches(last, c, order)
    requires !Expired(h, last, order[0].0) && |Live(h, last, c)| <= MAX_QUERY_ACCESS_PATHS
    requires p in last && last[p] >= c
    ensures !Expired(h, last, p) && |Newer(last, p)| < MAX_QUERY_ACCESS_PATHS
  {
    FrontIsOldest(last, c, order, p);
    assert h[last[order[0].0]].nowMs <= h[last[p]].nowMs;
    assert p in Live(h, last, c).Keys;
    SubsetSize(Newer(last, p), Live(h, last, c).Keys - {p});
  }

  /** The loop stops with exactly the retained records. */
  lemma StopsRetained(h: History, last: LastIndex, c: nat, order: Stamps)
    requires Indexes(h, last) && Stamped(last, c, order) && Justified(h, last, c) && ClockMonotone(h)
    requires |order| > 0 ==> FrontMatches(last, c, order) && !Expired(h, last, order[0].0)
                             && |Live(h, last, c)| <= MAX_QUERY_ACCESS_PATHS
    ensures Live(h, last, c) == RetainedBy(h, last)
  {
    forall p | p in last && last[p] >= c ensures !Expired(h, last, p) && |Newer(last, p)| < MAX_QUERY_ACCESS_PATHS {
      assert HasStamp(last, order, p);
      LiveNotRemovable(h, last, c, order, p);
    }
    assert forall p :: p in last && last[p] < c ==> Gone(h, last, p);
  }

  // ----- the queue -----

  ghost predicate Matching(order: Stamps, paths: map<string, Record>) {
    forall t :: 0 <= t < |order| ==> order[t].0 in paths && paths[order[t].0].generation == order[t].1
  }

  lemma {:induction false} MatchingIsShort(order: Stamps, paths: map<string, Record>)
    requires Matching(order, paths) && Increasing(order)
    ensures |order| <= |paths|
  {
    if |order| > 0 {
      var p := order[0].0;
      var rest := order[1..];
      forall t | 0 <= t < |rest| ensures rest[t].0 != p {
        assert order[t + 1].1 > order[0].1;
      }
      MatchingIsShort(rest, paths - {p});
      assert paths.Keys == (paths - {p}).Keys + {p};
    }
  }

  /** `retain` on the queue: keep the stamps that match their record. */
  method Compact(order: Stamps, paths: map<string, Record>) returns (kept: Stamps)
    requires Increasing(order)
    ensures Matching(kept, paths) && Increasing(kept)
    ensures forall s :: s in kept <==> s in order && s.0 in paths && paths[s.0].generation == s.1
  {
    kept := [];
    for n := 0 to |order|
      invariant Matching(kept, paths) && Increasing(kept)
      invariant forall s :: s in kept <==> s in order[..n] && s.0 in paths && paths[s.0].generation == s.1
      invariant forall t :: 0 <= t < |kept| && n < |order| ==> kept[t].1 < order[n].1
    {
      var stamp := order[n];
      assert order[..n + 1] == order[..n] + [stamp];
      if stamp.0 in paths && paths[stamp.0].generation == stamp.1 {
        kept := kept + [stamp];
      }
    }
    assert order[..|order|] == order;
  }

  // ----- the index -----

  /** Map and queue while an insert is being worked off, with the last index of each path. */
  datatype Contents = Contents(history: History, last: LastIndex, paths: map<string, Record>, order: Stamps, cut: nat)
  {
    /** They describe the paths last inserted at `cut` or later. */
    ghost predicate Consistent() {
      && Indexes(history, last) && cut <= |history| && ClockMonotone(history)
      && paths == Live(history, last, cut)
      && Stamped(last, cut, order) && Justified(history, last, cut)
      && forall t :: 0 <= t < |order| ==> order[t].1 <= |history|
    }
  }

  type Pruning = c: Contents | c.Consistent() witness Contents([], map[], map[], [], 0)

  lemma Pushed(c: Pruning, x: Insert) returns (d: Pruning)
    requires |c.history| > 0 ==> c.history[|c.history| - 1].nowMs <= x.nowMs
    ensures var n := |c.history|;
            d == Contents(c.history + [x], c.last[x.path := n], c.paths[x.path := RecordOf(c.history + [x], n)],
                          c.order + [(x.path, n + 1)], c.cut)
  {
    var n := |c.history|;
    assert ClockMonotone(c.history + [x]);
    PushLive(c.history, c.last, c.cut, x);
    PushStamped(c.last, c.cut, c.order, x, n);
    PushJustified(c.history, c.last, c.cut, x);
    d := Contents(c.history + [x], c.last[x.path := n], c.paths[x.path := RecordOf(c.history + [x], n)],
                  c.order + [(x.path, n + 1)], c.cut);
  }

  ghost predicate FrontLive(c: Contents) {
    |c.order| > 0 && c.order[0].0 in c.paths && c.paths[c.order[0].0].generation == c.order[0].1
  }

  lemma PoppedStale(c: Pruning) returns (d: Pruning)
    requires |c.order| > 0 && !FrontLive(c)
    ensures d == c.(order := c.order[1..])
  {
    PopStale(c.last, c.cut, c.order);
    d := c.(order := c.order[1..]);
  }

  ghost predicate Removable(c: Contents, p: string)
    requires p in c.paths && |c.history| > 0
  {
    c.history[|c.history| - 1].nowMs - c.paths[p].updatedMs > QUERY_ACCESS_WINDOW_MS || |c.paths| > MAX_QUERY_ACCESS_PATHS
  }

  lemma FrontLiveMatches(c: Pruning)
    requires |c.history| > 0 && FrontLive(c)
    ensures FrontMatches(c.last, c.cut, c.order)
    ensures Removable(c, c.order[0].0) <==>
            Expired(c.history, c.last, c.order[0].0) || |Live(c.history, c.last, c.cut)| > MAX_QUERY_ACCESS_PATHS
  {
  }

  lemma PoppedOldest(c: Pruning) returns (d: Pruning)
    requires |c.history| > 0 && FrontLive(c) && Removable(c, c.order[0].0)
    ensures d == c.(order := c.order[1..], paths := c.paths - {c.order[0].0}, cut := c.order[0].1)
  {
    FrontLiveMatches(c);
    PopOldest(c.history, c.last, c.cut, c.order);
    PopJustified(c.history, c.last, c.cut, c.order);
    d := c.(order := c.order[1..], paths := c.paths - {c.order[0].0}, cut := c.order[0].1);
  }

  lemma Stopped(c: Pruning)
    requires |c.history| > 0 && (|c.order| > 0 ==> FrontLive(c) && !Removable(c, c.order[0].0))
    ensures c.paths == RetainedBy(c.history, c.last) && |c.paths| <= MAX_QUERY_ACCESS_PATHS
  {
    if |c.order| > 0 {
      FrontLiveMatches(c);
    }
    StopsRetained(c.history, c.last, c.cut, c.order);
    forall p ensures |c.order| == 0 ==> p !in c.paths {
      assert p in c.paths ==> HasStamp(c.last, c.order, p);
    }
    assert |c.order| == 0 ==> c.paths == map[];
  }

  lemma Compacted(c: Pruning, kept: Stamps) returns (d: Pruning)
    requires Increasing(kept) && Matching(kept, c.paths)
    requires forall s :: s in kept <==> s in c.order && s.0 in c.paths && c.paths[s.0].generation == s.1
    ensures d == c.(order := kept) && |kept| <= |c.paths|
  {
    MatchingIsShort(kept, c.paths);
    forall p | p in c.last && c.last[p] >= c.cut ensures HasStamp(c.last, kept, p) {
      assert HasStamp(c.last, c.order, p);
      assert p in c.paths && c.paths[p] == RecordOf(c.history, c.last[p]);
    }
    forall t | 0 <= t < |kept| ensures kept[t].1 <= |c.history| {
      assert kept[t] in c.order;
    }
    d := c.(order := kept);
  }

  /** Every entry has exactly one matching stamp in the queue. */
  lemma OneStampPerEntry(c: Pruning, p: string)
    requires p in c.paths
    ensures exists t :: 0 <= t < |c.order| && c.order[t] == (p, c.paths[p].generation)
    ensures forall t, u :: 0 <= t < u < |c.order| ==> c.order[t] != c.order[u]
  {
    assert HasStamp(c.last, c.order, p);
  }

  lemma Inserted(c: Pruning, x: Insert) returns (d: Pruning)
    requires |c.history| > 0 ==> c.history[|c.history| - 1].nowMs <= x.nowMs
    requires c.last == Latest(c.history)
    ensures d.history == c.history + [x] && d.last == Latest(d.history)
    ensures d.order == c.order + [(x.path, |c.history| + 1)]
    ensures d.paths == c.paths[x.path := Record(x.package, x.uid, x.nowMs, x.source, x.confidence, |c.history| + 1)]
  {
    d := Pushed(c, x);
    LatestAppend(c.history, x);
  }

  lemma NoWrap(n: nat)
    requires n + 1 < GENERATIONS
    ensures (n + 1) % GENERATIONS == n + 1
  {
  }

  datatype Identity = Identity(package: string, source: string, confidence: string)

  ghost function IdentityOf(c: Pruning, q: string): Identity
    requires q in c.last
  {
    var x := c.history[c.last[q]];
    Identity(x.package, x.source, x.confidence)
  }

  /** The latest insert for `q` lies inside the window and names an app that asked itself. */
  ghost predicate Usable(c: Pruning, q: string, nowMs: int, intermediate: string -> bool)
    requires q in c.last
  {
    var x := c.history[c.last[q]];
    && 0 <= nowMs - x.nowMs <= QUERY_ACCESS_WINDOW_MS
    && x.uid >= 10_000 && x.package != "" && !intermediate(x.package)
  }

  /** Whose record a lookup of `path` is about: its own if the history retains it, else that of its
      display name. */
  ghost function Meant(c: Pruning, path: string, displayPath: string -> Option<string>): (q: Option<string>)
    ensures q.Some? ==> q.value in c.last
  {
    var retained := RetainedBy(c.history, c.last);
    if path == "" then None
    else if path in retained then Some(path)
    else if displayPath(path).Some? && displayPath(path).value in retained then displayPath(path)
    else None
  }

  /** What a lookup answers: the latest insert of the path that is meant, exactly when that is usable. */
  ghost function Resolved(c: Pruning, path: string, nowMs: int, displayPath: string -> Option<string>, intermediate: string -> bool): Option<Identity> {
    var q := Meant(c, path, displayPath);
    if q.Some? && Usable(c, q.value, nowMs, intermediate) then Some(IdentityOf(c, q.value)) else None
  }

  lemma ResolvedAs(c: Pruning, path: string, nowMs: int, displayPath: string -> Option<string>, intermediate: string -> bool, q: string)
    requires Meant(c, path, displayPath) == Some(q)
    ensures Resolved(c, path, nowMs, displayPath, intermediate) ==
            if Usable(c, q, nowMs, intermediate) then Some(IdentityOf(c, q)) else None
  {
  }

  // ----- the answer, read from the inserts -----

  /** Insert `i` is the last of its path, not too old for the newest insert, and not overtaken by too many
      other paths. */
  ghost predicate Held(h: History, i: nat) {
    IsLast(h, i) && h[|h| - 1].nowMs - h[i].nowMs <= 8000 && |PathsAfter(h, i)| < 1024
  }

  ghost predicate HoldsPath(h: History, p: string) {
    exists i: nat :: Held(h, i) && h[i].path == p
  }

  lemma HoldsPathIff(h: History, p: string)
    ensures HoldsPath(h, p) <==> p in Retained(h)
  {
    if i: nat :| Held(h, i) && h[i].path == p {
      RetainedIff(h, i);
    }
    if p in Retained(h) {
      var i := RetainedFrom(h, p);
      RetainedIff(h, i);
      assert Held(h, i);
    }
  }

  /** Where the path is held, or else the name it is shown by, that insert alone decides: it is answered if
      it is no older than the window and no younger than the query, and comes from an app with a name of
      its own that does not only pass queries on. */
  lemma ResolvedFrom(c: Pruning, path: string, nowMs: int, displayPath: string -> Option<string>, intermediate: string -> bool, i: nat)
    requires c.last == Latest(c.history) && path != "" && Held(c.history, i)
    requires c.history[i].path == path || (!HoldsPath(c.history, path) && displayPath(path) == Some(c.history[i].path))
    ensures var x := c.history[i];
            Resolved(c, path, nowMs, displayPath, intermediate) ==
            if x.nowMs <= nowMs <= x.nowMs + 8000 && x.uid >= 10_000 && x.package != "" && !intermediate(x.package)
            then Some(Identity(x.package, x.source, x.confidence)) else None
  {
    var h := c.history;
    HoldsPathIff(h, path);
    HoldsPathIff(h, h[i].path);
    LatestIff(h, i);
  }

  lemma ResolvedNothing(c: Pruning, path: string, nowMs: int, displayPath: string -> Option<string>, intermediate: string -> bool)
    requires c.last == Latest(c.history)
    requires path == "" || !HoldsPath(c.history, path)
    requires path == "" || displayPath(path).None? || !HoldsPath(c.history, displayPath(path).value)
    ensures Resolved(c, path, nowMs, displayPath, intermediate).None?
  {
    HoldsPathIff(c.history, path);
    if displayPath(path).Some? {
      HoldsPathIff(c.history, displayPath(path).value);
    }
  }

  class QueryAccessIndex {
    var paths: map<string, Record>
    var order: Stamps
    var nextGeneration: nat
    /** The same contents with the history of inserts they stand for. */
    ghost var contents: Pruning

    ghost predicate Tied()
      reads this
    {
      contents.paths == paths && contents.order == order && nextGeneration == |contents.history| < GENERATIONS
    }

    ghost predicate Valid()
      reads this
    {
      && Tied() && contents.last == Latest(contents.history)
      && paths == RetainedBy(contents.history, contents.last)
      && |paths| <= MAX_QUERY_ACCESS_PATHS && |order| <= QUEUE_COMPACTION_LIMIT
    }

    constructor ()
      ensures Valid() && contents.history == []
    {
      paths, order, nextGeneration, contents := map[], [], 0, Contents([], map[], map[], [], 0);
    }

    /** `remember_query_access_locked`: after every insert the map is the retained history. */
    method Remember(path: string, package: string, uid: int, nowMs: int, source: string, confidence: string)
      requires Valid() && |contents.history| + 1 < GENERATIONS
      requires var h := contents.history; |h| > 0 ==> h[|h| - 1].nowMs <= nowMs
      modifies this
      ensures Valid() && paths == Retained(contents.history)
      ensures contents.history == old(contents.history) + [Insert(path, package, uid, nowMs, source, confidence)]
    {
      Push(path, package, uid, nowMs, source, confidence);
      Prune(nowMs);
    }

    /** The insert before pruning. */
    method Push(path: string, package: string, uid: int, nowMs: int, source: string, confidence: string)
      requires Tied() && contents.last == Latest(contents.history) && |contents.history| + 1 < GENERATIONS
      requires var h := contents.history; |h| > 0 ==> h[|h| - 1].nowMs <= nowMs
      modifies this
      ensures Tied() && contents.last == Latest(contents.history)
      ensures contents.history == old(contents.history) + [Insert(path, package, uid, nowMs, source, confidence)]
    {
      ghost var x := Insert(path, package, uid, nowMs, source, confidence);
      ghost var after := Inserted(contents, x);
      ghost var n := |contents.history|;
      NoWrap(nextGeneration);
      nextGeneration := (nextGeneration + 1) % GENERATIONS;
      assert nextGeneration == n + 1;
      order := order + [(path, nextGeneration)];
      paths := paths[path := Record(package, uid, nowMs, source, confidence, nextGeneration)];
      contents := after;
    }

    /** `prune_query_access_locked` */
    method Prune(nowMs: int)
      requires Tied() && var h := contents.history; |h| > 0 && nowMs == h[|h| - 1].nowMs
      modifies this`paths, this`order, this`contents
      ensures Tied() && contents.history == old(contents.history) && contents.last == old(contents.last)
      ensures paths == RetainedBy(contents.history, contents.last)
      ensures |paths| <= MAX_QUERY_ACCESS_PATHS && |order| <= QUEUE_COMPACTION_LIMIT
    {
      while |order| > 0
        invariant Tied() && contents.history == old(contents.history) && contents.last == old(contents.last)
        decreases |order|
      {
        var (oldest, generation) := order[0];
        if oldest !in paths || paths[oldest].generation != generation {
          contents := PoppedStale(contents);
          order := order[1..];
          continue;
        }
        if !(nowMs - paths[oldest].updatedMs > QUERY_ACCESS_WINDOW_MS || |paths| > MAX_QUERY_ACCESS_PATHS) {
          break;
        }
        contents := PoppedOldest(contents);
        order := order[1..];
        paths := paths - {oldest};
      }
      Stopped(contents);
      if |order| > QUEUE_COMPACTION_LIMIT {
        order := Compact(order, paths);
        contents := Compacted(contents, order);
      }
    }

    /** `resolve_query_access_identity_locked`; `displayPath` undoes the pending-file naming of
        MediaStore and `intermediate` names the packages that only pass queries on. The answer is
        the latest insert of the path the history says is meant, exactly when that is usable. */
    method Resolve(path: string, nowMs: int, displayPath: string -> Option<string>, intermediate: string -> bool)
      returns (r: Option<Identity>)
      requires Valid()
      ensures r == Resolved(contents, path, nowMs, displayPath, intermediate)
    {
      if path == "" {
        return None;
      }
      var q := path;
      if path !in paths {
        var display := displayPath(path);
        if display.None? || display.value !in paths {
          return None;
        }
        q := display.value;
      }
      ResolvedAs(contents, path, nowMs, displayPath, intermediate, q);
      var record := paths[q];
      assert q in contents.last && record == RecordOf(contents.history, contents.last[q]);
      var age := nowMs - record.updatedMs;
      if !(0 <= age <= QUERY_ACCESS_WINDOW_MS) {
        return None;
      }
      if record.uid < 10_000 || record.package == "" || intermediate(record.package) {
        return None;
      }
      r := Some(Identity(record.package, record.source, record.confidence));
    }
  }
}
