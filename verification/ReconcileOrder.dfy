/** The order of the plan identities, and where a round starts in it when the process attempted last
    may be gone. */
module ReconcileOrder {
  import opened Paths
  import opened Reconcile
  import opened Sorting

  // ----- the order -----

  /** `None` before every start time. */
  predicate StartsEarlier(a: Option<nat>, b: Option<nat>) {
    match b case None => false case Some(t) => a.None? || a.value < t
  }

  /** The package decides first, then the pid, the uid and the start time. */
  lemma BeforeMeans(a: Identity, b: Identity)
    ensures Before(a, b) <==>
            || TextBefore(a.package, b.package)
            || (a.package == b.package && a.pid < b.pid)
            || (a.package == b.package && a.pid == b.pid && a.uid < b.uid)
            || (a.package == b.package && a.pid == b.pid && a.uid == b.uid && StartsEarlier(a.start, b.start))
  {
    CompareTextMeans(a.package, b.package);
    TextFlips(a.package, b.package);
  }

  lemma BeforeIsTotal(a: Identity, b: Identity)
    ensures !Before(a, a)
    ensures a == b || Before(a, b) || Before(b, a)
    ensures !(Before(a, b) && Before(b, a))
  {
    TextFlips(a.package, b.package);
    TextFlips(a.package, a.package);
  }

  lemma BeforeIsTransitive(a: Identity, b: Identity, c: Identity)
    requires Before(a, b) && Before(b, c)
    ensures Before(a, c)
  {
    TextOrder();
    TextFlips(a.package, b.package);
    TextFlips(b.package, c.package);
    TextFlips(a.package, c.package);
    if CompareText(a.package, c.package) == Equal {
      LessThenAtMost(CompareText, a.package, b.package, c.package);
    }
  }

  ghost predicate Increasing(ids: seq<Identity>) {
    forall i, j :: 0 <= i < j < |ids| ==> Before(ids[i], ids[j])
  }

  // ----- where a round starts -----

  /** Everything in front of `p` is before `id` and everything from `p` on behind it; past the end that
      is the front of the list. */
  ghost predicate CutsAt(ids: seq<Identity>, id: Identity, p: nat) {
    || (p < |ids| && forall i :: 0 <= i < |ids| ==> if i < p then Before(ids[i], id) else Before(id, ids[i]))
    || (p == 0 && forall i :: 0 <= i < |ids| ==> Before(ids[i], id))
  }

  lemma BehindOn(ids: seq<Identity>, id: Identity, from: nat)
    requires Increasing(ids) && from < |ids| && Before(id, ids[from])
    ensures forall i :: from <= i < |ids| ==> Before(id, ids[i])
  {
    forall i | from < i < |ids|
      ensures Before(id, ids[i])
    {
      BeforeIsTransitive(id, ids[from], ids[i]);
    }
  }

  lemma {:induction false} FirstAfterIs(ids: seq<Identity>, id: Identity, from: nat)
    requires from <= |ids|
    ensures var p := FirstAfter(ids, id, from);
            (p < |ids| ==> Before(id, ids[p])) && forall i :: from <= i < p ==> !Before(id, ids[i])
    decreases |ids| - from
  {
    if from < |ids| && !Before(id, ids[from]) {
      FirstAfterIs(ids, id, from + 1);
    }
  }

  lemma FirstAfterCuts(ids: seq<Identity>, id: Identity)
    requires Increasing(ids) && id !in ids
    ensures var p := FirstAfter(ids, id, 0);
            forall i :: 0 <= i < |ids| ==> if i < p then Before(ids[i], id) else Before(id, ids[i])
  {
    var p := FirstAfter(ids, id, 0);
    FirstAfterIs(ids, id, 0);
    if p < |ids| {
      BehindOn(ids, id, p);
    }
    forall i | 0 <= i < p
      ensures Before(ids[i], id)
    {
      BeforeIsTotal(ids[i], id);
    }
  }

  /** Where an identity stands in the list, and where it would stand if it is not there. */
  lemma PositionMeans(ids: seq<Identity>, id: Identity)
    requires Increasing(ids) && |ids| > 0
    ensures if id in ids then ids[PositionOf(ids, id)] == id else CutsAt(ids, id, PositionOf(ids, id))
  {
    if id !in ids {
      FirstAfterCuts(ids, id);
    }
  }

  /** The next round starts behind the identity attempted last, at the front once there is none behind,
      whether or not that identity is still in the list. */
  lemma NextStartMeans(ids: seq<Identity>, last: Identity)
    requires Increasing(ids) && |ids| > 0
    ensures last !in ids ==> CutsAt(ids, last, NextStart(Some(last), ids))
    ensures last in ids && last != ids[|ids| - 1] ==>
              var p := NextStart(Some(last), ids); p > 0 && ids[p - 1] == last
    ensures last == ids[|ids| - 1] ==> NextStart(Some(last), ids) == 0
    ensures NextStart(None, ids) == 0
  {
    PositionMeans(ids, last);
    if last in ids {
      var p := PositionOf(ids, last);
      if p < |ids| - 1 {
        BeforeIsTotal(last, ids[|ids| - 1]);
      }
    }
  }

  // ----- what a round tries -----

  /** Going round the list from `last`, `id` comes before `other`. */
  predicate ComesFirst(last: Identity, id: Identity, other: Identity) {
    if Before(last, other) then Before(last, id) && Before(id, other)
    else Before(last, id) || Before(id, other)
  }

  /** The round starts right behind `last`. */
  ghost predicate StartsBehind(ids: seq<Identity>, last: Identity, start: nat) {
    || (start < |ids| && forall i :: 0 <= i < |ids| ==> (Before(last, ids[i]) <==> start <= i))
    || (start == 0 && forall i :: 0 <= i < |ids| ==> !Before(last, ids[i]))
  }

  lemma StartIsBehind(ids: seq<Identity>, last: Identity)
    requires Increasing(ids) && |ids| > 0
    ensures StartsBehind(ids, last, NextStart(Some(last), ids))
  {
    NextStartMeans(ids, last);
    var start := NextStart(Some(last), ids);
    forall i | 0 <= i < |ids|
      ensures !(Before(last, ids[i]) && Before(ids[i], last))
      ensures last in ids && start > 0 ==> (Before(last, ids[i]) <==> start <= i)
      ensures last == ids[|ids| - 1] ==> !Before(last, ids[i])
    {
      BeforeIsTotal(last, ids[i]);
      BeforeIsTotal(last, last);
      if last in ids && i < start {
        assert i < start - 1 ==> Before(ids[i], ids[start - 1]);
      }
    }
  }

  /** Offsets from the start of the round are the order round the list. */
  lemma OffsetsAreOrder(ids: seq<Identity>, last: Identity, start: nat, d: nat, e: nat)
    requires Increasing(ids) && StartsBehind(ids, last, start) && start < |ids|
    requires d < |ids| && e < |ids| && d != e
    ensures d < e <==> ComesFirst(last, ids[At(start, d, |ids|)], ids[At(start, e, |ids|)])
  {
    var i, j := At(start, d, |ids|), At(start, e, |ids|);
    BeforeIsTotal(ids[i], ids[j]);
    assert i < j ==> Before(ids[i], ids[j]);
    assert j < i ==> Before(ids[j], ids[i]);
  }

  /** The plan at `i` is the first in need of work, going round from the identity attempted last. */
  ghost predicate FirstBehind(mode: Mode, plans: seq<Plan>, refused: set<Identity>, last: Identity, i: nat) {
    && i < |plans| && Eligible(mode, plans[i], refused)
    && forall k :: 0 <= k < |plans| && ComesFirst(last, plans[k].id, plans[i].id) ==> !Eligible(mode, plans[k], refused)
  }

  lemma OffsetOfPlace(start: nat, i: nat, n: nat) returns (d: nat)
    requires start < n && i < n
    ensures d < n && At(start, d, n) == i
  {
    d := if start <= i then i - start else i + n - start;
  }

  lemma NextIsFirstBehind(mode: Mode, plans: seq<Plan>, refused: set<Identity>, last: Identity, start: nat, i: nat)
    requires Increasing(Ids(plans)) && start < |plans| && StartsBehind(Ids(plans), last, start) && i < |plans|
    ensures var x := NextEligible(mode, plans, refused, start, 0);
            FirstBehind(mode, plans, refused, last, i) <==> x < |plans| && At(start, x, |plans|) == i
  {
    var ids, n, x := Ids(plans), |plans|, NextEligible(mode, plans, refused, start, 0);
    var d := OffsetOfPlace(start, i, n);
    BeforeIsTotal(ids[i], ids[i]);
    if x < n && At(start, x, n) == i {
      forall k | 0 <= k < n && ComesFirst(last, plans[k].id, plans[i].id)
        ensures !Eligible(mode, plans[k], refused)
      {
        var e := OffsetOfPlace(start, k, n);
        if e != x {
          OffsetsAreOrder(ids, last, start, e, x);
        }
      }
    }
    if FirstBehind(mode, plans, refused, last, i) {
      assert x <= d;
      if x != d {
        assert ids[At(start, x, n)] == plans[At(start, x, n)].id;
        OffsetsAreOrder(ids, last, start, x, d);
      }
    }
  }

  /** A round attempts the first plan in need of work behind the identity attempted last, whether or not
      that process still runs, and nothing if this cycle has attempted the plan already. */
  lemma RoundTriesFirstBehind(mode: Mode, cursor: Cursor, plans: seq<Plan>, outcome: Outcome, i: nat)
    requires Increasing(Ids(plans)) && cursor.last.Some?
    requires FirstBehind(mode, plans, cursor.refused, cursor.last.value, i)
    ensures RoundOf(mode, cursor, plans, outcome).tried ==
            if plans[i].id in cursor.attempted then None else Some(plans[i].id)
  {
    var ids := Ids(plans);
    StartIsBehind(ids, cursor.last.value);
    NextIsFirstBehind(mode, plans, cursor.refused, cursor.last.value, NextStart(cursor.last, ids), i);
  }

  /** There is such a plan as long as any needs work, so a round without an attempt has found none. */
  lemma SomeFirstBehind(mode: Mode, cursor: Cursor, plans: seq<Plan>, k: nat) returns (i: nat)
    requires Increasing(Ids(plans)) && cursor.last.Some? && k < |plans| && Eligible(mode, plans[k], cursor.refused)
    ensures FirstBehind(mode, plans, cursor.refused, cursor.last.value, i)
  {
    var ids := Ids(plans);
    var start := NextStart(cursor.last, ids);
    var x := NextEligible(mode, plans, cursor.refused, start, 0);
    var d := OffsetOfPlace(start, k, |plans|);
    i := At(start, x, |plans|);
    StartIsBehind(ids, cursor.last.value);
    NextIsFirstBehind(mode, plans, cursor.refused, cursor.last.value, start, i);
  }
}
