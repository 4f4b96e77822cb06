/** What the reconcile scheduler guarantees over whole runs of rounds. */
module ReconcileRuns {
  import opened Collections
  import opened Paths
  import opened Reconcile

  datatype Trace = Trace(states: seq<State>, calls: seq<Call>, rounds: seq<Round>)

  ghost predicate StepAt(run: Trace, k: nat) {
    && k < |run.calls| && k < |run.rounds| && k + 1 < |run.states|
    && run.rounds[k] == RoundFor(run.states[k], run.calls[k])
    && run.states[k + 1] == Next(run.states[k], run.calls[k])
  }

  ghost predicate Steps(run: Trace) {
    && |run.states| == |run.calls| + 1 && |run.rounds| == |run.calls|
    && forall k: nat {:trigger StepAt(run, k)} :: k < |run.calls| ==> StepAt(run, k)
  }

  /** A run of any number of calls: the states between them and the rounds they run. */
  type Run = run: Trace | Steps(run) witness Trace([State(Cursor(None, None, {}, {}), None)], [], [])

  lemma IdsUnchanged(mode: Mode, cursor: Cursor, plans: seq<Plan>, outcome: Outcome)
    ensures Ids(RoundOf(mode, cursor, plans, outcome).plans) == Ids(plans)
  {
  }

  // ----- no starvation -----

  /** Round `k` works on the identities `ids` and finds the plan of `t` in need of work. */
  ghost predicate OfferedAt(t: Identity, ids: seq<Identity>, run: Run, k: nat)
    requires k < |run.calls|
  {
    var plans := PlansFor(run.states[k], run.calls[k]);
    && Ids(plans) == ids
    && exists i :: 0 <= i < |plans| && plans[i].id == t && Eligible(run.calls[k].signature.mode, plans[i], {})
  }

  ghost predicate TriedBefore(t: Identity, run: Run, k: nat)
    requires k <= |run.calls|
  {
    exists j :: 0 <= j < k && run.rounds[j].tried == Some(t)
  }

  /** `t` is in need of work in every round until it is attempted; the other plans may change
      between rounds in any way. */
  ghost predicate Offered(t: Identity, ids: seq<Identity>, run: Run) {
    forall k :: 0 <= k < |run.calls| ==> TriedBefore(t, run, k) || OfferedAt(t, ids, run, k)
  }

  lemma StartAfter(ids: seq<Identity>, i: nat)
    requires Distinct(ids) && i < |ids|
    ensures NextStart(Some(ids[i]), ids) == At(i, 1, |ids|)
  {
    assert PositionOf(ids, ids[i]) == i;
  }

  /** One round with an eligible plan at offset `d`: either the cycle is closed because the first
      eligible plan was already attempted, or an attempt moves the cursor towards that plan. */
  lemma RoundMovesOn(mode: Mode, cursor: Cursor, plans: seq<Plan>, outcome: Outcome, d: nat)
    requires Distinct(Ids(plans)) && d < |plans|
    requires Eligible(mode, plans[At(NextStart(cursor.last, Ids(plans)), d, |plans|)], cursor.refused)
    ensures var ids, start := Ids(plans), NextStart(cursor.last, Ids(plans));
            var t, r := ids[At(start, d, |ids|)], RoundOf(mode, cursor, plans, outcome);
            && (r.tried.None? ==> cursor.attempted != {} && r.cursor == cursor.Close())
            && (r.tried.Some? && r.tried.value != t ==>
                  && t !in r.cursor.refused
                  && exists e :: 0 <= e < d && At(NextStart(r.cursor.last, ids), e, |ids|) == At(start, d, |ids|))
  {
    var ids, n, start := Ids(plans), |plans|, NextStart(cursor.last, Ids(plans));
    var r := RoundOf(mode, cursor, plans, outcome);
    var x := NextEligible(mode, plans, cursor.refused, start, 0);
    assert x <= d;
    if r.tried.Some? && r.tried.value != ids[At(start, d, n)] {
      assert r.cursor.last == Some(ids[At(start, x, n)]);
      var e := StillAhead(ids, start, x, d);
    }
  }

  /** After an attempt at offset `x` the plan at offset `d` lies that much nearer. */
  lemma StillAhead(ids: seq<Identity>, start: nat, x: nat, d: nat) returns (e: nat)
    requires Distinct(ids) && start < |ids| && x < d < |ids|
    ensures e < d && At(NextStart(Some(ids[At(start, x, |ids|)]), ids), e, |ids|) == At(start, d, |ids|)
  {
    StartAfter(ids, At(start, x, |ids|));
    e := d - x - 1;
  }

  /** The cursor stands `d` places before `t`, which is not refused. */
  ghost predicate Aiming(t: Identity, ids: seq<Identity>, state: State, d: nat) {
    d < |ids| && ids[At(NextStart(state.cursor.last, ids), d, |ids|)] == t && t !in state.cursor.refused
  }

  /** Each round attempts `t`, or comes nearer to it, or clears the cycle and stays. */
  lemma RoundAims(t: Identity, ids: seq<Identity>, run: Run, k: nat, d: nat) returns (e: nat)
    requires Distinct(ids) && k < |run.calls| && OfferedAt(t, ids, run, k) && Aiming(t, ids, run.states[k], d)
    ensures var tried, next := run.rounds[k].tried, run.states[k + 1];
            || tried == Some(t)
            || (tried.Some? && e < d && Aiming(t, ids, next, e))
            || (tried.None? && e == d && run.states[k].cursor.attempted != {} && next.cursor.attempted == {}
                && Aiming(t, ids, next, d))
  {
    assert StepAt(run, k);
    var state, call := run.states[k], run.calls[k];
    var plans, mode := PlansFor(state, call), call.signature.mode;
    var cursor := state.cursor.Freshened(call.hostChanged);
    var i :| 0 <= i < |plans| && plans[i].id == t && Eligible(mode, plans[i], {});
    assert ids[i] == t;
    var r := RoundFor(state, call);
    RoundMovesOn(mode, cursor, plans, call.outcome, d);
    e := d;
    if r.tried.Some? && r.tried.value != t {
      e :| 0 <= e < d && At(NextStart(r.cursor.last, ids), e, |ids|) == At(NextStart(cursor.last, ids), d, |ids|);
    }
  }

  /** Rounds that may pass before `t` is attempted: two per place, one less on a new cycle. */
  function Patience(state: State, d: nat): nat {
    2 * d + if state.cursor.attempted == {} then 1 else 2
  }

  lemma {:induction false} AttemptedWithin(t: Identity, ids: seq<Identity>, run: Run, k: nat, d: nat) returns (j: nat)
    requires Distinct(ids) && Offered(t, ids, run) && k <= |run.calls| && !TriedBefore(t, run, k)
    requires Aiming(t, ids, run.states[k], d) && k + Patience(run.states[k], d) <= |run.calls|
    ensures k <= j < k + Patience(run.states[k], d) && run.rounds[j].tried == Some(t)
    decreases |run.calls| - k
  {
    j := k;
    if run.rounds[k].tried != Some(t) {
      assert OfferedAt(t, ids, run, k);
      var e := RoundAims(t, ids, run, k, d);
      j := AttemptedWithin(t, ids, run, k + 1, e);
    }
  }

  lemma OffsetOf(ids: seq<Identity>, start: nat, t: Identity) returns (d: nat)
    requires t in ids && start < |ids|
    ensures d < |ids| && ids[At(start, d, |ids|)] == t
  {
    var i :| 0 <= i < |ids| && ids[i] == t;
    d := if start <= i then i - start else i + |ids| - start;
  }

  /** No starvation: from any cursor, a plan that stays in need of work and is not refused in the
      current cycle is attempted within 2n rounds, whatever happens to the others and however
      cycles close in between. */
  lemma NoStarvation(t: Identity, ids: seq<Identity>, run: Run) returns (j: nat)
    requires Distinct(ids) && t in ids && t !in run.states[0].cursor.refused
    requires Offered(t, ids, run) && |run.calls| >= 2 * |ids|
    ensures j < 2 * |ids| && run.rounds[j].tried == Some(t)
  {
    j := AttemptedFrom(t, ids, run, 0);
  }

  // ----- bounded continuation -----

  function IdSet(ids: seq<Identity>): set<Identity> {
    set i | 0 <= i < |ids| :: ids[i]
  }

  lemma {:induction false} IdSetSize(ids: seq<Identity>)
    ensures |IdSet(ids)| <= |ids|
  {
    if |ids| > 0 {
      var rest := ids[..|ids| - 1];
      IdSetSize(rest);
      assert IdSet(ids) == IdSet(rest) + {ids[|ids| - 1]};
    }
  }

  ghost predicate OpenUntil(ids: seq<Identity>, run: Run, n: nat)
    requires n <= |run.calls|
  {
    forall k :: 0 <= k < n ==> run.rounds[k].ending.Open? && Ids(PlansFor(run.states[k], run.calls[k])) == ids
  }

  /** An incomplete round attempts one plan this cycle has not attempted, and leaves another. */
  lemma OpenRound(mode: Mode, cursor: Cursor, plans: seq<Plan>, outcome: Outcome)
    requires RoundOf(mode, cursor, plans, outcome).ending.Open?
    ensures var r := RoundOf(mode, cursor, plans, outcome);
            && r.tried.Some? && r.tried.value in IdSet(Ids(plans)) - cursor.attempted
            && r.cursor.attempted == cursor.attempted + {r.tried.value}
            && IdSet(Ids(plans)) - r.cursor.attempted != {}
  {
    var r := RoundOf(mode, cursor, plans, outcome);
    var ids, n, start := Ids(plans), |plans|, NextStart(cursor.last, Ids(plans));
    var x := NextEligible(mode, plans, cursor.refused, start, 0);
    var y := NextEligible(mode, r.plans, r.worked.refused, start, x + 1);
    assert r.tried == Some(ids[At(start, x, n)]);
    assert r.plans[At(start, y, n)].id == ids[At(start, y, n)];
    assert ids[At(start, y, n)] in IdSet(ids) - r.cursor.attempted;
  }

  lemma OpenStep(ids: seq<Identity>, run: Run, k: nat)
    requires k < |run.calls| && run.rounds[k].ending.Open? && Ids(PlansFor(run.states[k], run.calls[k])) == ids
    ensures run.rounds[k].tried.Some? && run.rounds[k].tried.value in IdSet(ids) - run.states[k].cursor.attempted
    ensures run.states[k + 1].cursor.attempted == run.states[k].cursor.attempted + {run.rounds[k].tried.value}
    ensures IdSet(ids) - run.states[k + 1].cursor.attempted != {}
  {
    assert StepAt(run, k);
    var call := run.calls[k];
    OpenRound(call.signature.mode, run.states[k].cursor.Freshened(call.hostChanged), PlansFor(run.states[k], call), call.outcome);
  }

  lemma {:induction false} OpenRounds(ids: seq<Identity>, run: Run, n: nat)
    requires n <= |run.calls| && OpenUntil(ids, run, n)
    ensures |IdSet(ids) - run.states[n].cursor.attempted| + n == |IdSet(ids) - run.states[0].cursor.attempted|
    ensures n > 0 ==> IdSet(ids) - run.states[n].cursor.attempted != {}
  {
    if n > 0 {
      var k := n - 1;
      OpenRounds(ids, run, k);
      OpenStep(ids, run, k);
      var left, id := IdSet(ids) - run.states[k].cursor.attempted, run.rounds[k].tried.value;
      assert IdSet(ids) - run.states[n].cursor.attempted == left - {id};
    }
  }

  lemma {:induction false} AttemptedGrows(ids: seq<Identity>, run: Run, j: nat, k: nat)
    requires j <= k <= |run.calls| && OpenUntil(ids, run, k)
    ensures run.states[j].cursor.attempted <= run.states[k].cursor.attempted
    decreases k - j
  {
    if j < k {
      OpenStep(ids, run, j);
      AttemptedGrows(ids, run, j + 1, k);
    }
  }

  /** Round `k` attempts a plan that no earlier round of the run attempted. */
  lemma OpenTriesNew(ids: seq<Identity>, run: Run, k: nat)
    requires k < |run.calls| && OpenUntil(ids, run, k + 1)
    ensures run.rounds[k].tried.Some? && run.rounds[k].tried.value !in run.states[0].cursor.attempted
    ensures forall j :: 0 <= j < k ==> run.rounds[j].tried != run.rounds[k].tried
  {
    OpenStep(ids, run, k);
    AttemptedGrows(ids, run, 0, k);
    forall j | 0 <= j < k ensures run.rounds[j].tried != run.rounds[k].tried {
      OpenStep(ids, run, j);
      AttemptedGrows(ids, run, j + 1, k);
    }
  }

  /** The calls after the first reuse its batch: same signature, no host change. */
  ghost predicate OneBatch(run: Run) {
    forall k :: 0 < k < |run.calls| ==> run.calls[k].signature == run.calls[0].signature && !run.calls[k].hostChanged
  }

  lemma {:induction false} BatchKept(run: Run, n: nat)
    requires OneBatch(run) && n < |run.calls| && forall k :: 0 <= k < n ==> run.rounds[k].ending.Open?
    ensures n > 0 ==> PlansFor(run.states[n], run.calls[n]) == run.rounds[n - 1].plans
    ensures Ids(PlansFor(run.states[n], run.calls[n])) == Ids(PlansFor(run.states[0], run.calls[0]))
  {
    if n > 0 {
      BatchKept(run, n - 1);
      assert StepAt(run, n - 1);
      assert run.rounds[n - 1].ending.Open?;
      var call := run.calls[n - 1];
      IdsUnchanged(call.signature.mode, run.states[n - 1].cursor.Freshened(call.hostChanged),
                   PlansFor(run.states[n - 1], call), call.outcome);
    }
  }

  /** Bounded continuation: on one batch of n plans the scheduler reports "incomplete" fewer than
      n times in a row, each of these rounds attempts exactly one plan, and no plan is attempted
      twice in the cycle. */
  lemma BoundedContinuation(run: Run, ids: seq<Identity>)
    requires OneBatch(run) && |run.calls| > 0 && ids == Ids(PlansFor(run.states[0], run.calls[0]))
    requires forall k :: 0 <= k < |run.calls| ==> run.rounds[k].ending.Open?
    ensures |run.calls| < |ids|
    ensures forall k :: 0 <= k < |run.calls| ==>
              && run.rounds[k].tried.Some? && run.rounds[k].tried.value !in run.states[0].cursor.attempted
              && forall j :: 0 <= j < k ==> run.rounds[j].tried != run.rounds[k].tried
  {
    var n := |run.calls|;
    forall k | 0 <= k < n ensures Ids(PlansFor(run.states[k], run.calls[k])) == ids {
      BatchKept(run, k);
    }
    OpenRounds(ids, run, n);
    forall k | 0 <= k < n
      ensures run.rounds[k].tried.Some? && run.rounds[k].tried.value !in run.states[0].cursor.attempted
      ensures forall j :: 0 <= j < k ==> run.rounds[j].tried != run.rounds[k].tried
    {
      OpenTriesNew(ids, run, k);
    }
    IdSetSize(ids);
    var all, left := IdSet(ids), IdSet(ids) - run.states[0].cursor.attempted;
    assert |left| <= |all| by { SubsetSize(left, all); }
  }

  /** Even a plan refused in the current cycle is attempted again, within 3n rounds: the cycle
      that holds the refusal is over after at most n of them. */
  lemma NoStarvationAfterRefusal(t: Identity, ids: seq<Identity>, run: Run) returns (j: nat)
    requires Distinct(ids) && t in ids && Offered(t, ids, run) && |run.calls| >= 3 * |ids|
    ensures j < 3 * |ids| && run.rounds[j].tried == Some(t)
  {
    var n := |ids|;
    if TriedBefore(t, run, n) {
      j :| 0 <= j < n && run.rounds[j].tried == Some(t);
    } else {
      var k := CycleCloses(t, ids, run);
      assert StepAt(run, k);
      assert run.states[k + 1].cursor.refused == {};
      if run.rounds[k].tried == Some(t) {
        j := k;
      } else {
        j := AttemptedFrom(t, ids, run, k + 1);
      }
    }
  }

  lemma AttemptedFrom(t: Identity, ids: seq<Identity>, run: Run, k: nat) returns (j: nat)
    requires Distinct(ids) && t in ids && Offered(t, ids, run) && k + 2 * |ids| <= |run.calls|
    requires !TriedBefore(t, run, k) && t !in run.states[k].cursor.refused
    ensures k <= j < k + 2 * |ids| && run.rounds[j].tried == Some(t)
  {
    var d := OffsetOf(ids, NextStart(run.states[k].cursor.last, ids), t);
    j := AttemptedWithin(t, ids, run, k, d);
  }

  lemma CycleCloses(t: Identity, ids: seq<Identity>, run: Run) returns (k: nat)
    requires |ids| > 0 && |run.calls| >= |ids| && Offered(t, ids, run) && !TriedBefore(t, run, |ids|)
    ensures k < |ids| && !run.rounds[k].ending.Open? && !TriedBefore(t, run, k)
  {
    IdSetSize(ids);
    SubsetSize(IdSet(ids) - run.states[0].cursor.attempted, IdSet(ids));
    if forall i :: 0 <= i < |ids| ==> run.rounds[i].ending.Open? {
      forall i | 0 <= i < |ids| ensures Ids(PlansFor(run.states[i], run.calls[i])) == ids {
        assert OfferedAt(t, ids, run, i);
      }
      OpenRounds(ids, run, |ids|);
    }
    k :| 0 <= k < |ids| && !run.rounds[k].ending.Open?;
  }
}
