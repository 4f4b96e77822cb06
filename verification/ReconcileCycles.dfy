/** What a finished reconcile cycle has done. */
module ReconcileCycles {
  import opened Paths
  import opened Reconcile
  import opened ReconcileRuns

  /** Every plan still in need of work has been attempted in this cycle. */
  ghost predicate Complete(mode: Mode, plans: seq<Plan>, cursor: Cursor) {
    forall i :: 0 <= i < |plans| && Eligible(mode, plans[i], cursor.refused) ==> plans[i].id in cursor.attempted
  }

  ghost predicate Covered(mode: Mode, plan: Plan, cursor: Cursor) {
    Eligible(mode, plan, cursor.refused) ==> plan.id in cursor.attempted
  }

  /** The cycle has swept the `m` places from `s` on: all of them are covered, nothing beyond
      them has been attempted, and the next round starts right after them. */
  ghost predicate Swept(mode: Mode, s: nat, m: nat, plans: seq<Plan>, cursor: Cursor) {
    && s < |plans| && m <= |plans|
    && NextStart(cursor.last, Ids(plans)) == At(s, m, |plans|)
    && (forall k :: 0 <= k < m ==> Covered(mode, plans[At(s, k, |plans|)], cursor))
    && (forall k :: m <= k < |plans| ==> plans[At(s, k, |plans|)].id !in cursor.attempted)
  }

  /** Place `m + w` from `s` is offset `w` of a round that starts at place `m`. */
  function Place(m: nat, w: nat, n: nat): nat
    requires m <= n && w < n
  {
    if m + w < n then m + w else m + w - n
  }

  lemma PlaceOfOffset(s: nat, m: nat, w: nat, n: nat)
    requires s < n && m <= n && w < n
    ensures At(At(s, m, n), w, n) == At(s, Place(m, w, n), n)
  {
  }

  lemma PlaceOfIndex(s: nat, i: nat, n: nat) returns (k: nat)
    requires s < n && i < n
    ensures k < n && At(s, k, n) == i
  {
    k := if s <= i then i - s else i + n - s;
  }

  /** All places covered means the cycle is complete. */
  lemma CoveredIsComplete(mode: Mode, s: nat, plans: seq<Plan>, cursor: Cursor)
    requires s < |plans|
    requires forall k :: 0 <= k < |plans| ==> Covered(mode, plans[At(s, k, |plans|)], cursor)
    ensures Complete(mode, plans, cursor)
  {
    forall i | 0 <= i < |plans| && Eligible(mode, plans[i], cursor.refused) ensures plans[i].id in cursor.attempted {
      var k := PlaceOfIndex(s, i, |plans|);
      assert Covered(mode, plans[At(s, k, |plans|)], cursor);
    }
  }

  /** An attempt only adds to what is covered: no plan becomes eligible through it. */
  lemma AttemptCovers(mode: Mode, plans: seq<Plan>, i: nat, outcome: Outcome, cursor: Cursor, j: nat)
    requires Distinct(Ids(plans)) && i < |plans| && j < |plans|
    ensures var (c, p) := AfterAttempt(plans[i], outcome, cursor);
            && Covered(mode, plans[i := p][i], c)
            && (Covered(mode, plans[j], cursor) ==> Covered(mode, plans[i := p][j], c))
            && (j != i && plans[j].id !in cursor.attempted ==> plans[i := p][j].id !in c.attempted)
            && (j != i && !Eligible(mode, plans[j], cursor.refused) ==> !Eligible(mode, plans[i := p][j], c.refused))
  {
    assert Ids(plans)[i] == plans[i].id && Ids(plans)[j] == plans[j].id;
  }

  /** If a round over a swept cycle gets past its start without attempting, or attempts the plan
      at offset `x`, the sweep extends to that plan. */
  lemma SweepExtends(mode: Mode, s: nat, m: nat, plans: seq<Plan>, cursor: Cursor, outcome: Outcome, x: nat)
    requires Distinct(Ids(plans)) && Swept(mode, s, m, plans, cursor)
    requires x == NextEligible(mode, plans, cursor.refused, At(s, m, |plans|), 0) < |plans|
    requires plans[At(At(s, m, |plans|), x, |plans|)].id !in cursor.attempted
    ensures m + x < |plans|
    ensures var i := At(At(s, m, |plans|), x, |plans|);
            var (c, p) := AfterAttempt(plans[i], outcome, cursor);
            Swept(mode, s, m + x + 1, plans[i := p], c)
  {
    var n, start := |plans|, At(s, m, |plans|);
    var i := At(start, x, n);
    PlaceOfOffset(s, m, x, n);
    assert m + x >= n ==> Covered(mode, plans[At(s, Place(m, x, n), n)], cursor);
    var (c, p) := AfterAttempt(plans[i], outcome, cursor);
    var ps := plans[i := p];
    assert Ids(ps) == Ids(plans);
    StartAfter(Ids(plans), i);
    forall k | 0 <= k < m + x + 1 ensures Covered(mode, ps[At(s, k, n)], c) {
      SweptOverCovered(mode, s, m, plans, cursor, outcome, x, k);
    }
    forall k | m + x + 1 <= k < n ensures ps[At(s, k, n)].id !in c.attempted {
      AttemptCovers(mode, plans, i, outcome, cursor, At(s, k, n));
    }
  }

  lemma SweptOverCovered(mode: Mode, s: nat, m: nat, plans: seq<Plan>, cursor: Cursor, outcome: Outcome, x: nat, k: nat)
    requires Distinct(Ids(plans)) && Swept(mode, s, m, plans, cursor)
    requires x == NextEligible(mode, plans, cursor.refused, At(s, m, |plans|), 0) < |plans|
    requires k <= m + x < |plans|
    ensures var i := At(At(s, m, |plans|), x, |plans|);
            var (c, p) := AfterAttempt(plans[i], outcome, cursor);
            Covered(mode, plans[i := p][At(s, k, |plans|)], c)
  {
    var n, start := |plans|, At(s, m, |plans|);
    var i := At(start, x, n);
    AttemptCovers(mode, plans, i, outcome, cursor, At(s, k, n));
    PlaceOfOffset(s, m, x, n);
    if m <= k < m + x {
      PlaceOfOffset(s, m, k - m, n);
      assert !Eligible(mode, plans[At(start, k - m, n)], cursor.refused);
    } else if k < m {
      assert Covered(mode, plans[At(s, k, n)], cursor);
    }
  }

  /** Scanning on from the end of the sweep, an attempted plan first, or nothing, means all is
      covered. */
  lemma SweepEnds(mode: Mode, s: nat, m: nat, plans: seq<Plan>, cursor: Cursor, from: nat, y: nat)
    requires from <= |plans| && m + from <= |plans| && Swept(mode, s, m + from, plans, cursor)
    requires y == NextEligible(mode, plans, cursor.refused, At(s, m, |plans|), from)
    requires y < |plans| ==> plans[At(At(s, m, |plans|), y, |plans|)].id in cursor.attempted
    ensures Complete(mode, plans, cursor)
  {
    var n := |plans|;
    if y < n {
      PlaceOfOffset(s, m, y, n);
    }
    forall k | 0 <= k < n ensures Covered(mode, plans[At(s, k, n)], cursor) {
      if k >= m + from {
        PlaceOfOffset(s, m, k - m, n);
      }
    }
    CoveredIsComplete(mode, s, plans, cursor);
  }

  /** The attempt at offset `x` over a swept cycle: the sweep goes on behind it, and is complete if
      the scan then finds an attempted plan first or nothing. */
  lemma SweptAttempt(mode: Mode, s: nat, m: nat, plans: seq<Plan>, cursor: Cursor, outcome: Outcome, x: nat,
                     c: Cursor, ps: seq<Plan>, y: nat)
    requires Distinct(Ids(plans)) && Swept(mode, s, m, plans, cursor)
    requires x == NextEligible(mode, plans, cursor.refused, At(s, m, |plans|), 0) < |plans|
    requires plans[At(At(s, m, |plans|), x, |plans|)].id !in cursor.attempted
    requires var i := At(At(s, m, |plans|), x, |plans|);
             var (c', p) := AfterAttempt(plans[i], outcome, cursor);
             c == c' && ps == plans[i := p]
    requires y == NextEligible(mode, ps, c.refused, At(s, m, |plans|), x + 1)
    ensures m + x < |plans| && Swept(mode, s, m + x + 1, ps, c)
    ensures y == |plans| || ps[At(At(s, m, |plans|), y, |plans|)].id in c.attempted ==> Complete(mode, ps, c)
  {
    SweepExtends(mode, s, m, plans, cursor, outcome, x);
    if y == |plans| || ps[At(At(s, m, |plans|), y, |plans|)].id in c.attempted {
      SweepEnds(mode, s, m, ps, c, x + 1, y);
    }
  }

  /** One round over a swept cycle: an incomplete round extends the sweep; a round that ends the
      cycle by wrapping or by itself has left nothing unattempted. */
  lemma SweptRound(mode: Mode, s: nat, m: nat, plans: seq<Plan>, cursor: Cursor, outcome: Outcome) returns (m': nat)
    requires Distinct(Ids(plans)) && Swept(mode, s, m, plans, cursor)
    ensures var r := RoundOf(mode, cursor, plans, outcome);
            && (r.ending.Open? ==> Swept(mode, s, m', r.plans, r.cursor))
            && (r.ending.Wrapped? || r.ending.Natural? ==> Complete(mode, r.plans, r.worked))
  {
    var n, start := |plans|, At(s, m, |plans|);
    var x := NextEligible(mode, plans, cursor.refused, start, 0);
    if x == n || plans[At(start, x, n)].id in cursor.attempted {
      m' := m;
      IdleRound(mode, plans, cursor, outcome);
      SweepEnds(mode, s, m, plans, cursor, 0, x);
    } else {
      m' := m + x + 1;
      SweptTry(mode, s, m, plans, cursor, outcome, x);
    }
  }

  lemma IdleRound(mode: Mode, plans: seq<Plan>, cursor: Cursor, outcome: Outcome)
    requires var start := NextStart(cursor.last, Ids(plans));
             var x := NextEligible(mode, plans, cursor.refused, start, 0);
             x == |plans| || plans[At(start, x, |plans|)].id in cursor.attempted
    ensures var r := RoundOf(mode, cursor, plans, outcome); !r.ending.Open? && r.plans == plans && r.worked == cursor
  {
  }

  lemma SweptTry(mode: Mode, s: nat, m: nat, plans: seq<Plan>, cursor: Cursor, outcome: Outcome, x: nat)
    requires Distinct(Ids(plans)) && Swept(mode, s, m, plans, cursor)
    requires x == NextEligible(mode, plans, cursor.refused, At(s, m, |plans|), 0) < |plans|
    requires plans[At(At(s, m, |plans|), x, |plans|)].id !in cursor.attempted
    ensures var r := RoundOf(mode, cursor, plans, outcome);
            && (r.ending.Open? ==> Swept(mode, s, m + x + 1, r.plans, r.cursor))
            && (r.ending.Wrapped? || r.ending.Natural? ==> Complete(mode, r.plans, r.worked))
  {
    var r := RoundOf(mode, cursor, plans, outcome);
    var y := NextEligible(mode, r.plans, r.worked.refused, At(s, m, |plans|), x + 1);
    SweptAttempt(mode, s, m, plans, cursor, outcome, x, r.worked, r.plans, y);
  }

  lemma {:induction false} SweptUntil(run: Run, s: nat, n: nat) returns (m: nat)
    requires OneBatch(run) && n < |run.calls| && forall k :: 0 <= k < n ==> run.rounds[k].ending.Open?
    requires var plans := PlansFor(run.states[0], run.calls[0]);
             |plans| > 0 && Distinct(Ids(plans)) && s == NextStart(run.states[0].cursor.last, Ids(plans))
    requires run.states[0].cursor.attempted == {}
    ensures Swept(run.calls[0].signature.mode, s, m, PlansFor(run.states[n], run.calls[n]),
                  run.states[n].cursor.Freshened(run.calls[n].hostChanged))
  {
    BatchKept(run, n);
    m := 0;
    if n > 0 {
      var k := n - 1;
      m := SweptUntil(run, s, k);
      BatchKept(run, k);
      assert StepAt(run, k);
      assert run.rounds[k].ending.Open?;
      m := SweptRound(run.calls[0].signature.mode, s, m, PlansFor(run.states[k], run.calls[k]),
                      run.states[k].cursor.Freshened(run.calls[k].hostChanged), run.calls[k].outcome);
    }
  }

  /** Cycle completeness: a cycle that begins with nothing attempted and runs on one batch has,
      when it ends by wrapping round or by a round that defers nothing, attempted every plan
      that is still in need of work. */
  lemma CycleCompleteness(run: Run)
    requires OneBatch(run) && |run.calls| > 0 && run.states[0].cursor.attempted == {}
    requires Distinct(Ids(PlansFor(run.states[0], run.calls[0])))
    requires forall k :: 0 <= k < |run.calls| - 1 ==> run.rounds[k].ending.Open?
    requires var last := run.rounds[|run.calls| - 1]; last.ending.Wrapped? || last.ending.Natural?
    ensures var last := run.rounds[|run.calls| - 1]; Complete(run.calls[0].signature.mode, last.plans, last.worked)
  {
    var n := |run.calls| - 1;
    BatchKept(run, n);
    assert StepAt(run, n);
    var plans := PlansFor(run.states[0], run.calls[0]);
    IdsUnchanged(run.calls[n].signature.mode, run.states[n].cursor.Freshened(run.calls[n].hostChanged),
                 PlansFor(run.states[n], run.calls[n]), run.calls[n].outcome);
    if |plans| > 0 {
      var s := NextStart(run.states[0].cursor.last, Ids(plans));
      var m := SweptUntil(run, s, n);
      m := SweptRound(run.calls[n].signature.mode, s, m, PlansFor(run.states[n], run.calls[n]),
                      run.states[n].cursor.Freshened(run.calls[n].hostChanged), run.calls[n].outcome);
    }
  }

  /** The position test is the ending that gives up early: it always leaves a plan that needs
      work and was not attempted in the cycle. */
  lemma FallbackLeavesWork(mode: Mode, cursor: Cursor, plans: seq<Plan>, outcome: Outcome)
    requires RoundOf(mode, cursor, plans, outcome).ending.Fallback?
    ensures var r := RoundOf(mode, cursor, plans, outcome); !Complete(mode, r.plans, r.worked)
  {
    var r := RoundOf(mode, cursor, plans, outcome);
    var n, start := |plans|, NextStart(cursor.last, Ids(plans));
    var x := NextEligible(mode, plans, cursor.refused, start, 0);
    var y := NextEligible(mode, r.plans, r.worked.refused, start, x + 1);
    assert Eligible(mode, r.plans[At(start, y, n)], r.worked.refused);
  }

  /** Three plans in need of work, the first of them attempted last before the cycle began. */
  ghost predicate ThreePending(plans: seq<Plan>, cursor: Cursor) {
    && |plans| == 3 && Distinct(Ids(plans))
    && (forall i :: 0 <= i < 3 ==> !plans[i].isCurrent)
    && cursor == Cursor(Some(plans[0].id), None, {}, {})
  }

  lemma FirstOfThree(plans: seq<Plan>, cursor: Cursor, outcome: Outcome)
    requires ThreePending(plans, cursor)
    ensures var r := RoundOf(Full, cursor, plans, outcome);
            && r.ending.Open? && r.tried == Some(plans[1].id)
            && r.cursor.last == r.cursor.head == Some(plans[1].id) && r.cursor.attempted == {plans[1].id}
            && r.cursor.refused <= {plans[1].id}
            && |r.plans| == 3 && Ids(r.plans) == Ids(plans) && r.plans[0] == plans[0] && r.plans[2] == plans[2]
  {
    var ids := Ids(plans);
    assert ids[0] == plans[0].id && ids[1] == plans[1].id && ids[2] == plans[2].id;
    StartAfter(ids, 0);
    StartAfter(ids, 1);
    var x := NextEligible(Full, plans, {}, 1, 0);
    assert x == 0;
    var (c, p) := AfterAttempt(plans[1], outcome, cursor);
    var ps := plans[1 := p];
    assert Ids(ps) == ids;
    var y := NextEligible(Full, ps, c.refused, 1, 1);
    assert Eligible(Full, ps[At(1, 1, 3)], c.refused);
    assert y == 1;
    assert PositionOf(ids, ids[1]) == 1;
  }

  lemma SecondOfThree(plans: seq<Plan>, cursor: Cursor, outcome: Outcome)
    requires |plans| == 3 && Distinct(Ids(plans)) && !plans[0].isCurrent && !plans[2].isCurrent
    requires cursor.last == cursor.head == Some(plans[1].id) && cursor.attempted == {plans[1].id}
    requires cursor.refused <= {plans[1].id}
    ensures var r := RoundOf(Full, cursor, plans, outcome);
            && r.ending.Fallback? && r.tried == Some(plans[2].id)
            && r.plans[0] == plans[0] && Eligible(Full, plans[0], r.worked.refused) && plans[0].id !in r.worked.attempted
  {
    var ids := Ids(plans);
    assert ids[0] == plans[0].id && ids[1] == plans[1].id && ids[2] == plans[2].id;
    StartAfter(ids, 1);
    StartAfter(ids, 2);
    var x := NextEligible(Full, plans, cursor.refused, 2, 0);
    assert Eligible(Full, plans[At(2, 0, 3)], cursor.refused);
    assert x == 0;
    var (c, p) := AfterAttempt(plans[2], outcome, cursor);
    var ps := plans[2 := p];
    var y := NextEligible(Full, ps, c.refused, 2, 1);
    assert Eligible(Full, ps[At(2, 1, 3)], c.refused);
    assert y == 1;
  }

  /** Such rounds happen, whatever the outcomes: of three pending plans the second and third are
      attempted, and the position test closes the cycle before the first. */
  lemma FallbackHappens(plans: seq<Plan>, cursor: Cursor, first: Outcome, second: Outcome)
    requires ThreePending(plans, cursor)
    ensures var r := RoundOf(Full, cursor, plans, first);
            var s := RoundOf(Full, r.cursor, r.plans, second);
            && r.ending.Open? && s.ending.Fallback?
            && s.plans[0] == plans[0] && Eligible(Full, plans[0], s.worked.refused) && plans[0].id !in s.worked.attempted
  {
    FirstOfThree(plans, cursor, first);
    var r := RoundOf(Full, cursor, plans, first);
    assert Ids(r.plans)[1] == r.plans[1].id && Ids(plans)[1] == plans[1].id;
    SecondOfThree(r.plans, r.cursor, second);
  }

  /** It strikes exactly when the attempted plan is the last of the list or lies before the first
      attempted plan of the cycle, and something is deferred. */
  lemma FallbackExactly(mode: Mode, cursor: Cursor, plans: seq<Plan>, outcome: Outcome, i: nat)
    requires Distinct(Ids(plans)) && i < |plans|
    requires RoundOf(mode, cursor, plans, outcome).tried == Some(plans[i].id)
    requires RoundOf(mode, cursor, plans, outcome).ending.Fallback? || RoundOf(mode, cursor, plans, outcome).ending.Open?
    ensures var r := RoundOf(mode, cursor, plans, outcome);
            && r.worked.head.Some?
            && (r.ending.Fallback? <==> i == |plans| - 1 || i < PositionOf(Ids(plans), r.worked.head.value))
  {
    StartAfter(Ids(plans), i);
    assert Ids(plans)[i] == plans[i].id;
  }
}
