/** The per-sender record limit of src/log_daemon.rs. */
module RateLimit {
  import opened Collections
  import opened Paths
  import opened Text

  const MAX_RECORDS_PER_UID_WINDOW: nat := 4096
  const RATE_LIMIT_WINDOW_MS: int := 10_000
  const MAX_TRACKED_SENDERS: nat := 256

  type Uid = nat

  datatype SenderQuota = SenderQuota(windowStartedMs: int, count: nat, dropped: nat)

  type Quotas = map<Uid, SenderQuota>

  predicate InWindow(quota: SenderQuota, nowMs: int) {
    nowMs - quota.windowStartedMs < RATE_LIMIT_WINDOW_MS
  }

  /** The table with room for `uid`: a full table gives up the senders whose window is over. */
  function WithRoom(quotas: Quotas, uid: Uid, nowMs: int): Quotas {
    if |quotas| >= MAX_TRACKED_SENDERS && uid !in quotas
    then map u | u in quotas && InWindow(quotas[u], nowMs) :: quotas[u]
    else quotas
  }

  /** The window a record of `uid` at `nowMs` falls into. */
  function CurrentQuota(quotas: Quotas, uid: Uid, nowMs: int): SenderQuota {
    if uid in quotas && InWindow(quotas[uid], nowMs) then quotas[uid] else SenderQuota(nowMs, 0, 0)
  }

  predicate Accepts(quotas: Quotas, uid: Uid, nowMs: int) {
    var room := WithRoom(quotas, uid, nowMs);
    (uid in room || |room| < MAX_TRACKED_SENDERS) && CurrentQuota(room, uid, nowMs).count < MAX_RECORDS_PER_UID_WINDOW
  }

  function Updated(quotas: Quotas, uid: Uid, nowMs: int): Quotas {
    var room := WithRoom(quotas, uid, nowMs);
    if uid !in room && |room| >= MAX_TRACKED_SENDERS then room
    else
      var quota := CurrentQuota(room, uid, nowMs);
      room[uid := if quota.count < MAX_RECORDS_PER_UID_WINDOW then quota.(count := quota.count + 1)
                  else quota.(dropped := if quota.dropped < U32_MAX then quota.dropped + 1 else U32_MAX)]
  }

  class LogState {
    var senderQuotas: Quotas

    constructor ()
      ensures senderQuotas == map[]
    {
      senderQuotas := map[];
    }

    /** `allow_from_sender` */
    method AllowFromSender(senderUid: Option<Uid>, nowMs: int) returns (allowed: bool)
      modifies this
      ensures senderUid.None? ==> allowed && senderQuotas == old(senderQuotas)
      ensures senderUid.Some? ==>
                && allowed == Accepts(old(senderQuotas), senderUid.value, nowMs)
                && senderQuotas == Updated(old(senderQuotas), senderUid.value, nowMs)
    {
      if senderUid.None? {
        return true;
      }
      var uid := senderUid.value;
      if |senderQuotas| >= MAX_TRACKED_SENDERS && uid !in senderQuotas {
        senderQuotas := map u | u in senderQuotas && InWindow(senderQuotas[u], nowMs) :: senderQuotas[u];
        if |senderQuotas| >= MAX_TRACKED_SENDERS {
          return false;
        }
      }
      if uid !in senderQuotas {
        senderQuotas := senderQuotas[uid := SenderQuota(nowMs, 0, 0)];
      }
      var quota := senderQuotas[uid];
      if nowMs - quota.windowStartedMs >= RATE_LIMIT_WINDOW_MS {
        quota := SenderQuota(nowMs, 0, 0);
      }
      if quota.count >= MAX_RECORDS_PER_UID_WINDOW {
        quota := quota.(dropped := if quota.dropped < U32_MAX then quota.dropped + 1 else U32_MAX);
        senderQuotas := senderQuotas[uid := quota];
        return false;
      }
      quota := quota.(count := quota.count + 1);
      senderQuotas := senderQuotas[uid := quota];
      return true;
    }
  }

  // ----- whole traces -----

  datatype Packet = Packet(uid: Option<Uid>, nowMs: int)

  ghost predicate ClockMonotone(trace: seq<Packet>) {
    forall i, j :: 0 <= i <= j < |trace| ==> trace[i].nowMs <= trace[j].nowMs
  }

  /** The table after a trace, from an empty one. */
  function TableAfter(trace: seq<Packet>): Quotas {
    if |trace| == 0 then map[]
    else
      var before, p := TableAfter(trace[..|trace| - 1]), trace[|trace| - 1];
      if p.uid.None? then before else Updated(before, p.uid.value, p.nowMs)
  }

  predicate LastAccepted(trace: seq<Packet>, uid: Uid)
    requires |trace| > 0
  {
    var p := trace[|trace| - 1];
    p.uid == Some(uid) && Accepts(TableAfter(trace[..|trace| - 1]), uid, p.nowMs)
  }

  /** Records of `uid` accepted at a time in `[from, from + 10000)`. */
  function AcceptedIn(trace: seq<Packet>, uid: Uid, from: int): nat {
    if |trace| == 0 then 0
    else
      AcceptedIn(trace[..|trace| - 1], uid, from)
      + if LastAccepted(trace, uid) && from <= trace[|trace| - 1].nowMs < from + RATE_LIMIT_WINDOW_MS then 1 else 0
  }

  // ----- the accepted records of one sender -----

  /** An accepted record and the window it was counted in. */
  datatype Entry = Entry(nowMs: int, window: int)

  /** What one packet adds to the log of `uid`. */
  ghost function Added(quotas: Quotas, uid: Uid, p: Packet): seq<Entry> {
    if p.uid == Some(uid) && Accepts(quotas, uid, p.nowMs) && uid in Updated(quotas, uid, p.nowMs)
    then [Entry(p.nowMs, Updated(quotas, uid, p.nowMs)[uid].windowStartedMs)] else []
  }

  ghost function LogOf(trace: seq<Packet>, uid: Uid): seq<Entry> {
    if |trace| == 0 then []
    else
      var rest := trace[..|trace| - 1];
      LogOf(rest, uid) + Added(TableAfter(rest), uid, trace[|trace| - 1])
  }

  ghost function CountWindow(log: seq<Entry>, window: int): nat {
    if |log| == 0 then 0
    else CountWindow(log[..|log| - 1], window) + if log[|log| - 1].window == window then 1 else 0
  }

  ghost function CountIn(log: seq<Entry>, from: int): nat {
    if |log| == 0 then 0
    else CountIn(log[..|log| - 1], from) + if from <= log[|log| - 1].nowMs < from + RATE_LIMIT_WINDOW_MS then 1 else 0
  }

  ghost predicate ApartWindows(a: int, b: int) {
    a == b || a + RATE_LIMIT_WINDOW_MS <= b
  }

  /** Each entry lies in its window, windows follow each other without overlap, none holds more
      than the limit, and each was opened by a record accepted at its start. */
  ghost predicate Windowed(log: seq<Entry>) {
    && (forall i :: 0 <= i < |log| ==> log[i].window <= log[i].nowMs < log[i].window + RATE_LIMIT_WINDOW_MS)
    && (forall i, j :: 0 <= i < j < |log| ==> ApartWindows(log[i].window, log[j].window))
    && (forall w :: CountWindow(log, w) <= MAX_RECORDS_PER_UID_WINDOW)
    && (forall i {:trigger Opened(log, log[i].window)} :: 0 <= i < |log| ==> Opened(log, log[i].window))
  }

  ghost predicate Opened(log: seq<Entry>, w: int) {
    Entry(w, w) in log
  }

  /** The table knows the last window of the sender, or that window is over. */
  ghost predicate Tracked(log: seq<Entry>, quotas: Quotas, uid: Uid, nowMs: int) {
    if uid in quotas then
      && quotas[uid].windowStartedMs <= nowMs && quotas[uid].count > 0
      && quotas[uid].count == CountWindow(log, quotas[uid].windowStartedMs)
      && (forall i :: 0 <= i < |log| ==> ApartWindows(log[i].window, quotas[uid].windowStartedMs))
    else
      forall i :: 0 <= i < |log| ==> log[i].window + RATE_LIMIT_WINDOW_MS <= nowMs
  }

  lemma {:induction false} NoEntries(log: seq<Entry>, w: int)
    requires forall i :: 0 <= i < |log| ==> log[i].window != w
    ensures CountWindow(log, w) == 0
  {
    if |log| > 0 {
      NoEntries(log[..|log| - 1], w);
    }
  }

  lemma {:induction false} SomeEntry(log: seq<Entry>, w: int) returns (i: nat)
    requires CountWindow(log, w) > 0
    ensures i < |log| && log[i].window == w
  {
    if log[|log| - 1].window == w {
      i := |log| - 1;
    } else {
      i := SomeEntry(log[..|log| - 1], w);
    }
  }

  /** Time passing, or making room for another sender, keeps the sender tracked. */
  lemma RoomTracks(log: seq<Entry>, quotas: Quotas, uid: Uid, other: Uid, before: int, nowMs: int)
    requires Tracked(log, quotas, uid, before) && before <= nowMs
    ensures Tracked(log, WithRoom(quotas, other, nowMs), uid, nowMs)
  {
  }

  /** The window a record is counted in follows all earlier ones. */
  lemma CurrentFollows(log: seq<Entry>, quotas: Quotas, uid: Uid, nowMs: int)
    requires Tracked(log, quotas, uid, nowMs)
    ensures var quota := CurrentQuota(quotas, uid, nowMs);
            && quota.windowStartedMs <= nowMs < quota.windowStartedMs + RATE_LIMIT_WINDOW_MS
            && quota.count == CountWindow(log, quota.windowStartedMs)
            && (quota.windowStartedMs == nowMs || quota.count > 0)
            && forall i :: 0 <= i < |log| ==> ApartWindows(log[i].window, quota.windowStartedMs)
  {
    if !(uid in quotas && InWindow(quotas[uid], nowMs)) {
      NoEntries(log, nowMs);
    }
  }

  lemma AppendOpened(log: seq<Entry>, e: Entry, i: nat)
    requires Windowed(log) && i <= |log|
    requires e.window == e.nowMs || CountWindow(log, e.window) > 0
    ensures Opened(log + [e], (log + [e])[i].window)
  {
    assert (log + [e])[|log|] == e;
    if i < |log| {
      assert Opened(log, log[i].window);
    } else if e.window != e.nowMs {
      var j := SomeEntry(log, e.window);
      assert Opened(log, log[j].window);
    }
  }

  lemma AppendEntry(log: seq<Entry>, e: Entry)
    requires Windowed(log) && e.window <= e.nowMs < e.window + RATE_LIMIT_WINDOW_MS
    requires forall i :: 0 <= i < |log| ==> ApartWindows(log[i].window, e.window)
    requires CountWindow(log, e.window) < MAX_RECORDS_PER_UID_WINDOW
    requires e.window == e.nowMs || CountWindow(log, e.window) > 0
    ensures Windowed(log + [e])
    ensures CountWindow(log + [e], e.window) == CountWindow(log, e.window) + 1
  {
    var longer := log + [e];
    AppendApart(log, e);
    AppendCounts(log, e, e.window);
    forall w
      ensures CountWindow(longer, w) <= MAX_RECORDS_PER_UID_WINDOW
    {
      AppendCounts(log, e, w);
    }
    forall i | 0 <= i < |longer|
      ensures Opened(longer, longer[i].window)
    {
      AppendOpened(log, e, i);
    }
  }

  lemma AppendApart(log: seq<Entry>, e: Entry)
    requires Windowed(log) && e.window <= e.nowMs < e.window + RATE_LIMIT_WINDOW_MS
    requires forall i :: 0 <= i < |log| ==> ApartWindows(log[i].window, e.window)
    ensures var longer := log + [e];
            && (forall i :: 0 <= i < |longer| ==> longer[i].window <= longer[i].nowMs < longer[i].window + RATE_LIMIT_WINDOW_MS)
            && (forall i, j :: 0 <= i < j < |longer| ==> ApartWindows(longer[i].window, longer[j].window))
  {
    var longer := log + [e];
    assert longer[|log|] == e;
    forall i, j | 0 <= i < j < |longer|
      ensures ApartWindows(longer[i].window, longer[j].window)
    {
      if j < |log| {
        assert longer[i] == log[i] && longer[j] == log[j];
      }
    }
  }

  lemma AppendCounts(log: seq<Entry>, e: Entry, w: int)
    ensures CountWindow(log + [e], w) == CountWindow(log, w) + if w == e.window then 1 else 0
  {
    assert (log + [e])[..|log|] == log;
  }

  lemma OtherTracked(log: seq<Entry>, quotas: Quotas, uid: Uid, other: Uid, before: int, nowMs: int)
    requires Tracked(log, quotas, uid, before) && before <= nowMs && uid != other
    ensures Tracked(log, Updated(quotas, other, nowMs), uid, nowMs)
  {
    RoomTracks(log, quotas, uid, other, before, nowMs);
  }

  /** An accepted record of the sender itself. */
  lemma OwnAccepted(log: seq<Entry>, quotas: Quotas, uid: Uid, before: int, nowMs: int) returns (e: Entry)
    requires Windowed(log) && Tracked(log, quotas, uid, before) && before <= nowMs && Accepts(quotas, uid, nowMs)
    ensures uid in Updated(quotas, uid, nowMs) && e == Entry(nowMs, Updated(quotas, uid, nowMs)[uid].windowStartedMs)
    ensures Windowed(log + [e])
    ensures Tracked(log + [e], Updated(quotas, uid, nowMs), uid, nowMs)
  {
    var room := WithRoom(quotas, uid, nowMs);
    RoomTracks(log, quotas, uid, uid, before, nowMs);
    CurrentFollows(log, room, uid, nowMs);
    e := Entry(nowMs, CurrentQuota(room, uid, nowMs).windowStartedMs);
    AppendEntry(log, e);
    AcceptedTracks(log, room, uid, e, Updated(quotas, uid, nowMs));
  }

  lemma AcceptedTracks(log: seq<Entry>, room: Quotas, uid: Uid, e: Entry, after: Quotas)
    requires uid in after && after[uid].windowStartedMs == e.window <= e.nowMs
    requires after[uid].count == CountWindow(log, e.window) + 1 == CountWindow(log + [e], e.window)
    requires forall i :: 0 <= i < |log| ==> ApartWindows(log[i].window, e.window)
    ensures Tracked(log + [e], after, uid, e.nowMs)
  {
  }

  lemma OwnRejected(log: seq<Entry>, quotas: Quotas, uid: Uid, before: int, nowMs: int)
    requires Tracked(log, quotas, uid, before) && before <= nowMs && !Accepts(quotas, uid, nowMs)
    ensures Tracked(log, Updated(quotas, uid, nowMs), uid, nowMs)
  {
    RoomTracks(log, quotas, uid, uid, before, nowMs);
    CurrentFollows(log, WithRoom(quotas, uid, nowMs), uid, nowMs);
  }

  lemma {:induction false} TraceWindowed(trace: seq<Packet>, uid: Uid)
    requires ClockMonotone(trace)
    ensures Windowed(LogOf(trace, uid))
    ensures |trace| > 0 ==> Tracked(LogOf(trace, uid), TableAfter(trace), uid, trace[|trace| - 1].nowMs)
  {
    if |trace| > 0 {
      var rest, p := trace[..|trace| - 1], trace[|trace| - 1];
      TraceWindowed(rest, uid);
      var before := if |rest| > 0 then rest[|rest| - 1].nowMs else p.nowMs;
      TraceStep(LogOf(rest, uid), TableAfter(rest), uid, before, p);
      assert LogOf(rest, uid) + [] == LogOf(rest, uid);
    }
  }

  lemma TraceStep(log: seq<Entry>, quotas: Quotas, uid: Uid, before: int, p: Packet)
    requires Windowed(log) && Tracked(log, quotas, uid, before) && before <= p.nowMs
    ensures var after := if p.uid.None? then quotas else Updated(quotas, p.uid.value, p.nowMs);
            Windowed(log + Added(quotas, uid, p)) && Tracked(log + Added(quotas, uid, p), after, uid, p.nowMs)
  {
    assert log + [] == log;
    if p.uid == Some(uid) {
      if Accepts(quotas, uid, p.nowMs) {
        var e := OwnAccepted(log, quotas, uid, before, p.nowMs);
      } else {
        OwnRejected(log, quotas, uid, before, p.nowMs);
      }
    } else if p.uid.Some? {
      OtherTracked(log, quotas, uid, p.uid.value, before, p.nowMs);
    }
  }

  // ----- counting -----

  lemma {:induction false} CountsAgree(trace: seq<Packet>, uid: Uid, from: int)
    ensures AcceptedIn(trace, uid, from) == CountIn(LogOf(trace, uid), from)
  {
    if |trace| > 0 {
      var rest := trace[..|trace| - 1];
      CountsAgree(rest, uid, from);
      var log := LogOf(rest, uid);
      if LastAccepted(trace, uid) {
        var e := LogOf(trace, uid)[|log|];
        assert LogOf(trace, uid)[..|log|] == log;
      } else {
        assert log + [] == log;
      }
    }
  }

  ghost predicate Inside(e: Entry, from: int) {
    from <= e.nowMs < from + RATE_LIMIT_WINDOW_MS
  }

  ghost function CountInWindow(log: seq<Entry>, from: int, w: int): nat {
    if |log| == 0 then 0
    else CountInWindow(log[..|log| - 1], from, w)
         + if Inside(log[|log| - 1], from) && log[|log| - 1].window == w then 1 else 0
  }

  lemma {:induction false} TwoWindows(log: seq<Entry>, from: int, a: int, b: int)
    requires a != b
    requires forall i :: 0 <= i < |log| && Inside(log[i], from) ==> log[i].window == a || log[i].window == b
    ensures CountIn(log, from) == CountInWindow(log, from, a) + CountInWindow(log, from, b)
  {
    if |log| > 0 {
      TwoWindows(log[..|log| - 1], from, a, b);
    }
  }

  lemma {:induction false} WindowShare(log: seq<Entry>, from: int, w: int)
    ensures CountInWindow(log, from, w) <= CountWindow(log, w)
    ensures (exists i :: 0 <= i < |log| && log[i].window == w && !Inside(log[i], from)) ==>
              CountInWindow(log, from, w) < CountWindow(log, w)
  {
    if |log| > 0 {
      WindowShare(log[..|log| - 1], from, w);
    }
  }

  /** No interval as long as a window meets three of them. */
  lemma ThreeWindowsAreTooLong(log: seq<Entry>, from: int, i: nat, j: nat, k: nat)
    requires Windowed(log) && i < j < |log| && k < |log|
    requires Inside(log[i], from) && Inside(log[j], from) && Inside(log[k], from) && log[i].window != log[j].window
    ensures log[k].window == log[i].window || log[k].window == log[j].window
  {
  }

  /** If it meets two, the earlier one was opened before it. */
  lemma EarlierOpenedBefore(log: seq<Entry>, from: int, i: nat, j: nat)
    requires Windowed(log) && i < j < |log|
    requires Inside(log[i], from) && Inside(log[j], from) && log[i].window != log[j].window
    ensures CountInWindow(log, from, log[i].window) < MAX_RECORDS_PER_UID_WINDOW
  {
    assert Opened(log, log[i].window);
    var t :| 0 <= t < |log| && log[t] == Entry(log[i].window, log[i].window);
    WindowShare(log, from, log[i].window);
  }

  lemma IntervalBound(log: seq<Entry>, from: int)
    requires Windowed(log)
    ensures CountIn(log, from) <= 2 * MAX_RECORDS_PER_UID_WINDOW - 1
  {
    if i, j :| 0 <= i < j < |log| && Inside(log[i], from) && Inside(log[j], from) && log[i].window != log[j].window {
      forall k | 0 <= k < |log| && Inside(log[k], from)
        ensures log[k].window == log[i].window || log[k].window == log[j].window
      {
        ThreeWindowsAreTooLong(log, from, i, j, k);
      }
      TwoWindows(log, from, log[i].window, log[j].window);
      EarlierOpenedBefore(log, from, i, j);
      WindowShare(log, from, log[j].window);
    } else {
      var w := if k :| 0 <= k < |log| && Inside(log[k], from) then log[k].window else 0;
      OneWindow(log, from, w);
    }
  }

  lemma OneWindow(log: seq<Entry>, from: int, w: int)
    requires Windowed(log)
    requires forall i :: 0 <= i < |log| && Inside(log[i], from) ==> log[i].window == w
    ensures CountIn(log, from) <= 2 * MAX_RECORDS_PER_UID_WINDOW - 1
  {
    TwoWindows(log, from, w, w + 1);
    WindowShare(log, from, w);
    NoneInside(log, from, w + 1);
  }

  lemma {:induction false} NoneInside(log: seq<Entry>, from: int, w: int)
    requires forall i :: 0 <= i < |log| && Inside(log[i], from) ==> log[i].window != w
    ensures CountInWindow(log, from, w) == 0
  {
    if |log| > 0 {
      NoneInside(log[..|log| - 1], from, w);
    }
  }

  /** Whatever a sender does, and however the table evicts others or itself, any interval of one
      window length holds fewer than twice the limit of its accepted records. */
  lemma RateBound(trace: seq<Packet>, uid: Uid, from: int)
    requires ClockMonotone(trace)
    ensures AcceptedIn(trace, uid, from) <= 8191
  {
    TraceWindowed(trace, uid);
    IntervalBound(LogOf(trace, uid), from);
    CountsAgree(trace, uid, from);
  }

  // ----- the bound is reached -----

  /** Only `uid` is tracked, in window `w` with `c` records, and `n` of its records lie in the
      interval from `from` on. */
  ghost predicate Stands(trace: seq<Packet>, uid: Uid, w: int, c: nat, from: int, n: nat) {
    TableAfter(trace) == map[uid := SenderQuota(w, c, 0)] && AcceptedIn(trace, uid, from) == n
  }

  ghost predicate EndsAt(trace: seq<Packet>, t: int) {
    ClockMonotone(trace) && |trace| > 0 && trace[|trace| - 1].nowMs == t
  }

  lemma OneRecord(trace: seq<Packet>, uid: Uid, t: int, w: int, c: nat, from: int, n: nat)
    requires Stands(trace, uid, w, c, from, n) && InWindow(SenderQuota(w, c, 0), t)
    requires c < MAX_RECORDS_PER_UID_WINDOW && from <= t < from + RATE_LIMIT_WINDOW_MS
    ensures Stands(trace + [Packet(Some(uid), t)], uid, w, c + 1, from, n + 1)
  {
    assert (trace + [Packet(Some(uid), t)])[..|trace|] == trace;
  }

  lemma {:induction false} Burst(trace: seq<Packet>, uid: Uid, t: int, k: nat, w: int, c: nat, from: int, n: nat)
    returns (after: seq<Packet>)
    requires Stands(trace, uid, w, c, from, n) && InWindow(SenderQuota(w, c, 0), t)
    requires ClockMonotone(trace) && |trace| > 0 && trace[|trace| - 1].nowMs <= t && k > 0
    requires c + k <= MAX_RECORDS_PER_UID_WINDOW && from <= t < from + RATE_LIMIT_WINDOW_MS
    ensures Stands(after, uid, w, c + k, from, n + k) && EndsAt(after, t)
  {
    if k == 1 {
      OneRecord(trace, uid, t, w, c, from, n);
      after := trace + [Packet(Some(uid), t)];
    } else {
      var before := Burst(trace, uid, t, k - 1, w, c, from, n);
      OneRecord(before, uid, t, w, c + k - 1, from, n + k - 1);
      after := before + [Packet(Some(uid), t)];
    }
  }

  lemma OpenWindow(trace: seq<Packet>, uid: Uid, t: int, from: int)
    requires TableAfter(trace) == map[] || (exists q :: TableAfter(trace) == map[uid := q] && !InWindow(q, t))
    ensures Stands(trace + [Packet(Some(uid), t)], uid, t, 1, from,
                   AcceptedIn(trace, uid, from) + if from <= t < from + RATE_LIMIT_WINDOW_MS then 1 else 0)
  {
    assert (trace + [Packet(Some(uid), t)])[..|trace|] == trace;
  }

  /** One record at 0, 4095 at 9999 and 4096 at 10000: all accepted, 8191 of them within the
      window length from 9999 on. */
  lemma BoundIsReached(uid: Uid) returns (trace: seq<Packet>)
    ensures ClockMonotone(trace)
    ensures AcceptedIn(trace, uid, 9999) == 8191
  {
    var k := MAX_RECORDS_PER_UID_WINDOW - 1;
    OpenWindow([], uid, 0, 9999);
    trace := [] + [Packet(Some(uid), 0)];
    trace := Burst(trace, uid, 9999, k, 0, 1, 9999, 0);
    OpenWindow(trace, uid, 10_000, 9999);
    trace := trace + [Packet(Some(uid), 10_000)];
    trace := Burst(trace, uid, 10_000, k, 10_000, 1, 9999, k + 1);
  }

  /** The table never tracks more than 256 senders. */
  lemma {:induction false} TableBounded(trace: seq<Packet>)
    ensures |TableAfter(trace)| <= 256
  {
    if |trace| > 0 {
      var rest, p := trace[..|trace| - 1], trace[|trace| - 1];
      TableBounded(rest);
      if p.uid.Some? {
        RoomShrinks(TableAfter(rest), p.uid.value, p.nowMs);
      }
    }
  }

  lemma RoomShrinks(quotas: Quotas, uid: Uid, nowMs: int)
    ensures |WithRoom(quotas, uid, nowMs)| <= |quotas|
    ensures |quotas| <= MAX_TRACKED_SENDERS ==> |Updated(quotas, uid, nowMs)| <= MAX_TRACKED_SENDERS
  {
    var room := WithRoom(quotas, uid, nowMs);
    SubsetSize(room.Keys, quotas.Keys);
    var after := Updated(quotas, uid, nowMs);
    if uid in room {
      assert after.Keys == room.Keys;
    } else if |room| < MAX_TRACKED_SENDERS {
      assert after.Keys == room.Keys + {uid};
    }
  }

  // ----- who is accepted -----

  predicate IsOpen(quota: SenderQuota, nowMs: int) {
    nowMs < quota.windowStartedMs + 10_000
  }

  ghost function OpenSenders(quotas: Quotas, nowMs: int): set<Uid> {
    set u | u in quotas && IsOpen(quotas[u], nowMs)
  }

  lemma RoomMeans(quotas: Quotas, uid: Uid, nowMs: int)
    ensures var room := WithRoom(quotas, uid, nowMs);
            && (uid in room <==> uid in quotas)
            && room.Keys == (if uid !in quotas && |quotas| >= 256 then OpenSenders(quotas, nowMs) else quotas.Keys)
            && forall u :: u in room ==> room[u] == quotas[u]
  {
  }

  /** Exactly when a record is accepted, read from the table: a tracked sender has its window over or
      room in it, and another finds the table with room, counting only open windows if it is full. */
  lemma AcceptsIff(quotas: Quotas, uid: Uid, nowMs: int)
    ensures uid in quotas ==> (Accepts(quotas, uid, nowMs) <==> !IsOpen(quotas[uid], nowMs) || quotas[uid].count < 4096)
    ensures uid !in quotas ==> (Accepts(quotas, uid, nowMs) <==> |quotas| < 256 || |OpenSenders(quotas, nowMs)| < 256)
  {
    RoomMeans(quotas, uid, nowMs);
    var room := WithRoom(quotas, uid, nowMs);
    assert |room| == |room.Keys|;
  }

  /** What a record does to the table. Its own sender's count goes up in an open window and starts at one
      in a new one; if it is not accepted, only the dropped ones are counted. Of the other senders none
      changes, and only those with a window over are forgotten, for an untracked sender and a full
      table. */
  lemma TableMeans(quotas: Quotas, uid: Uid, nowMs: int)
    ensures var after := Updated(quotas, uid, nowMs);
            && (uid in after <==> uid in quotas || Accepts(quotas, uid, nowMs))
            && (uid in quotas && !Accepts(quotas, uid, nowMs) ==>
                  after[uid] == quotas[uid].(dropped := if quotas[uid].dropped < U32_MAX then quotas[uid].dropped + 1 else U32_MAX))
            && (Accepts(quotas, uid, nowMs) ==>
                  var goesOn := uid in quotas && IsOpen(quotas[uid], nowMs);
                  after[uid] == if goesOn then quotas[uid].(count := quotas[uid].count + 1) else SenderQuota(nowMs, 1, 0))
            && forall u :: u != uid ==>
                 && (u in after <==> u in quotas && (uid in quotas || |quotas| < 256 || IsOpen(quotas[u], nowMs)))
                 && (u in after ==> after[u] == quotas[u])
  {
    RoomMeans(quotas, uid, nowMs);
    AcceptsIff(quotas, uid, nowMs);
  }

  lemma {:induction false} WindowsAreOld(trace: seq<Packet>, bound: int)
    requires forall i :: 0 <= i < |trace| ==> trace[i].nowMs <= bound
    ensures forall u :: u in TableAfter(trace) ==> TableAfter(trace)[u].windowStartedMs <= bound
  {
    if |trace| > 0 {
      var rest, p := trace[..|trace| - 1], trace[|trace| - 1];
      WindowsAreOld(rest, bound);
      if p.uid.Some? {
        TableMeans(TableAfter(rest), p.uid.value, p.nowMs);
      }
    }
  }

  /** Nobody is shut out: whatever has filled the table, after a silence of one window length a record of
      any sender is accepted. */
  lemma AcceptedAfterSilence(trace: seq<Packet>, uid: Uid, nowMs: int)
    requires forall i :: 0 <= i < |trace| ==> trace[i].nowMs + 10_000 <= nowMs
    ensures Accepts(TableAfter(trace), uid, nowMs)
  {
    var quotas := TableAfter(trace);
    WindowsAreOld(trace, nowMs - 10_000);
    AcceptsIff(quotas, uid, nowMs);
    assert OpenSenders(quotas, nowMs) == {};
  }
}
