/** What one call of the scheduler attempts and leaves behind, read from its plans and outcomes. */
module ReconcileCalls {
  import opened Paths
  import opened Reconcile
  import opened ReconcileOrder
  import opened ReconcileRuns

  // ----- which plan is attempted -----

  /** Not current, not refused in this cycle, and in a round for missing mounts a reload without a
      state file. */
  predicate NeedsWork(mode: Mode, plan: Plan, refused: set<Identity>) {
    if plan.isCurrent || plan.id in refused then false
    else match mode
      case Full => true
      case MissingOnly => plan.operation == Reload && !plan.hasState
  }

  lemma NeedsWorkIff(mode: Mode, plan: Plan, refused: set<Identity>)
    ensures NeedsWork(mode, plan, refused) <==> Eligible(mode, plan, refused)
  {
  }

  /** The batch the call works on: the cached one only if nothing it depends on has changed. */
  ghost predicate WorksOn(state: State, call: Call, plans: seq<Plan>) {
    match state.cached
    case None => plans == call.enumerated
    case Some(batch) => plans == if call.hostChanged || batch.signature != call.signature then call.enumerated else batch.plans
  }

  /** The plan at `i` is the first in need of work, going round from the identity attempted last. */
  ghost predicate FirstInNeed(mode: Mode, plans: seq<Plan>, refused: set<Identity>, last: Identity, i: nat) {
    && i < |plans| && NeedsWork(mode, plans[i], refused)
    && forall k :: 0 <= k < |plans| && ComesFirst(last, plans[k].id, plans[i].id) ==> !NeedsWork(mode, plans[k], refused)
  }

  lemma FirstInNeedIff(mode: Mode, plans: seq<Plan>, refused: set<Identity>, last: Identity, i: nat)
    ensures FirstInNeed(mode, plans, refused, last, i) <==> FirstBehind(mode, plans, refused, last, i)
  {
    forall k | 0 <= k < |plans|
      ensures NeedsWork(mode, plans[k], refused) <==> Eligible(mode, plans[k], refused)
    {
      NeedsWorkIff(mode, plans[k], refused);
    }
  }

  ghost function RefusedFor(state: State, call: Call): set<Identity> {
    if call.hostChanged then {} else state.cursor.refused
  }

  /** One call attempts the first plan in need of work behind the identity attempted last, whether or not
      that process still runs, and nothing if this cycle has attempted the plan already. A new host
      makes every refused plan count again. */
  lemma CallTriesFirst(state: State, call: Call, plans: seq<Plan>, last: Identity, i: nat)
    requires WorksOn(state, call, plans) && Increasing(Ids(plans)) && state.cursor.last == Some(last)
    requires FirstInNeed(call.signature.mode, plans, RefusedFor(state, call), last, i)
    ensures RoundFor(state, call).tried == if plans[i].id in state.cursor.attempted then None else Some(plans[i].id)
  {
    FirstInNeedIff(call.signature.mode, plans, RefusedFor(state, call), last, i);
    RoundTriesFirstBehind(call.signature.mode, state.cursor.Freshened(call.hostChanged), plans, call.outcome, i);
  }

  /** Where any plan needs work there is such a first one, and where none does the call attempts nothing
      and its cycle is over. */
  lemma SomeFirstOrNone(state: State, call: Call, plans: seq<Plan>, last: Identity)
    requires WorksOn(state, call, plans) && Increasing(Ids(plans)) && state.cursor.last == Some(last)
    ensures var mode, refused := call.signature.mode, RefusedFor(state, call);
            if exists k :: 0 <= k < |plans| && NeedsWork(mode, plans[k], refused)
            then exists i :: FirstInNeed(mode, plans, refused, last, i)
            else RoundFor(state, call).tried.None? && RoundFor(state, call).ending.Natural?
  {
    var mode, refused, cursor := call.signature.mode, RefusedFor(state, call), state.cursor.Freshened(call.hostChanged);
    if k :| 0 <= k < |plans| && NeedsWork(mode, plans[k], refused) {
      NeedsWorkIff(mode, plans[k], refused);
      var i := SomeFirstBehind(mode, cursor, plans, k);
      FirstInNeedIff(mode, plans, refused, last, i);
    } else {
      forall k | 0 <= k < |plans|
        ensures !Eligible(mode, plans[k], refused)
      {
        NeedsWorkIff(mode, plans[k], refused);
      }
    }
  }

  // ----- what the attempt leaves -----

  /** Whether anything was carried out: not after a refusal by supervision, nor to disable what has no
      state file. */
  predicate Executed(plan: Plan, outcome: Outcome) {
    !outcome.refused && (plan.operation == Reload || plan.hasState)
  }

  /** The plan attempted is refused for the rest of the cycle exactly when supervision said so or what was
      carried out failed; carried out with success, a reload leaves a current mount with a state file and
      a disable neither. No other plan changes. */
  lemma RoundLeaves(mode: Mode, cursor: Cursor, plans: seq<Plan>, outcome: Outcome, i: nat)
    requires Distinct(Ids(plans)) && i < |plans| && RoundOf(mode, cursor, plans, outcome).tried == Some(plans[i].id)
    ensures var r, plan := RoundOf(mode, cursor, plans, outcome), plans[i];
            && r.worked.last == Some(plan.id) && r.worked.attempted == cursor.attempted + {plan.id}
            && r.worked.head == (match cursor.head case None => Some(plan.id) case Some(head) => Some(head))
            && r.worked.refused == (if outcome.refused || (Executed(plan, outcome) && !outcome.succeeded)
                                    then cursor.refused + {plan.id} else cursor.refused)
            && r.plans == plans[i := if Executed(plan, outcome) && outcome.succeeded
                                     then Plan(plan.id, plan.operation, plan.operation == Reload, plan.operation == Reload)
                                     else plan]
  {
    var n, start := |plans|, NextStart(cursor.last, Ids(plans));
    var x := NextEligible(mode, plans, cursor.refused, start, 0);
    assert Ids(plans)[At(start, x, n)] == plans[At(start, x, n)].id && Ids(plans)[i] == plans[i].id;
  }

  /** A round that attempts nothing changes neither plans nor cursor but for closing the cycle. */
  lemma IdleRoundLeaves(mode: Mode, cursor: Cursor, plans: seq<Plan>, outcome: Outcome)
    requires RoundOf(mode, cursor, plans, outcome).tried.None?
    ensures var r := RoundOf(mode, cursor, plans, outcome);
            r.worked == cursor && r.plans == plans && !r.ending.Open? && r.cursor == Cursor(cursor.last, None, {}, {})
  {
  }

  /** The batch as the round leaves it is worked on by the next call if the round was incomplete and
      nothing changes, and otherwise the apps are enumerated anew. */
  lemma NextWorksOn(state: State, call: Call, next: Call)
    ensures PlansFor(Next(state, call), next) ==
            if RoundFor(state, call).ending.Open? && !next.hostChanged && next.signature == call.signature
            then RoundFor(state, call).plans else next.enumerated
    ensures WorksOn(state, call, PlansFor(state, call))
  {
  }

  // ----- the head of a cycle -----

  /** The first `n` rounds are incomplete, on one host. */
  ghost predicate GoesOn(run: Run, n: nat) {
    n <= |run.calls| && forall k :: 0 <= k < n ==> run.rounds[k].ending.Open? && (k > 0 ==> !run.calls[k].hostChanged)
  }

  /** As long as the rounds are incomplete the head of the cycle is the plan its first round attempted. */
  lemma {:induction false} HeadIsFirst(run: Run, n: nat)
    requires GoesOn(run, n) && n > 0
    requires run.calls[0].hostChanged || run.states[0].cursor.head.None?
    ensures run.rounds[0].tried.Some? && run.states[n].cursor.head == run.rounds[0].tried
  {
    var k := n - 1;
    assert StepAt(run, k);
    var call := run.calls[k];
    OpenRound(call.signature.mode, run.states[k].cursor.Freshened(call.hostChanged), PlansFor(run.states[k], call), call.outcome);
    if k > 0 {
      HeadIsFirst(run, k);
    }
  }
}
