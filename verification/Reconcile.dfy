/** The reconcile scheduler of src/daemon.rs: a round-robin cursor over plan identities that
    attempts one plan per round and groups rounds into cycles. Modelled for the rounds that use
    the cursor, Full and MissingOnly without a list of changed packages. */
module Reconcile {
  import opened Paths
  import Sorting

  // ----- plans -----

  datatype Identity = Identity(package: string, pid: int, uid: int, start: Option<nat>)

  /** The derived order of the identity record: field by field, `None` first. */
  predicate Before(a: Identity, b: Identity) {
    if a.package != b.package then Sorting.CompareText(a.package, b.package).Less?
    else if a.pid != b.pid then a.pid < b.pid
    else if a.uid != b.uid then a.uid < b.uid
    else b.start.Some? && (a.start.None? || a.start.value < b.start.value)
  }

  datatype Operation = Reload | Disable

  datatype Plan = Plan(id: Identity, operation: Operation, hasState: bool, isCurrent: bool)
  {
    /** `mark_settled` */
    function Settled(): Plan {
      this.(isCurrent := operation.Reload?, hasState := operation.Reload?)
    }
  }

  datatype Mode = Full | MissingOnly

  /** What the environment answers for the attempted plan: whether supervision refuses it, and
      whether executing it succeeds. */
  datatype Outcome = Outcome(refused: bool, succeeded: bool)

  function Ids(plans: seq<Plan>): seq<Identity> {
    seq(|plans|, i requires 0 <= i < |plans| => plans[i].id)
  }

  ghost predicate Distinct(ids: seq<Identity>) {
    forall i, j :: 0 <= i < j < |ids| ==> ids[i] != ids[j]
  }

  // ----- the cursor -----

  datatype Cursor = Cursor(last: Option<Identity>, head: Option<Identity>,
                           attempted: set<Identity>, refused: set<Identity>)
  {
    function Advance(id: Identity): Cursor {
      Cursor(Some(id), if head.None? then Some(id) else head, attempted + {id}, refused)
    }

    function Refuse(id: Identity): Cursor {
      this.(refused := refused + {id})
    }

    function Close(): Cursor {
      Cursor(last, None, {}, {})
    }

    function Freshened(hostChanged: bool): Cursor {
      if hostChanged then this.(head := None, refused := {}) else this
    }
  }

  function FirstEqual(ids: seq<Identity>, id: Identity, from: nat): (p: nat)
    requires from <= |ids|
    ensures from <= p <= |ids|
    ensures forall i :: from <= i < p ==> ids[i] != id
    ensures p < |ids| ==> ids[p] == id
    decreases |ids| - from
  {
    if from == |ids| || ids[from] == id then from else FirstEqual(ids, id, from + 1)
  }

  function FirstAfter(ids: seq<Identity>, id: Identity, from: nat): (p: nat)
    requires from <= |ids|
    ensures from <= p <= |ids|
    decreases |ids| - from
  {
    if from == |ids| || Before(id, ids[from]) then from else FirstAfter(ids, id, from + 1)
  }

  /** `position_of`: where `id` is, else where it would be inserted, 0 past the end. */
  function PositionOf(ids: seq<Identity>, id: Identity): (p: nat)
    ensures |ids| > 0 ==> p < |ids|
    ensures id in ids ==> ids[p] == id
  {
    var p := FirstEqual(ids, id, 0);
    if p < |ids| then p
    else
      var q := FirstAfter(ids, id, 0);
      if q < |ids| then q else 0
  }

  /** `next_start_index`: one past the last attempted identity, round the list. */
  function NextStart(last: Option<Identity>, ids: seq<Identity>): (p: nat)
    ensures |ids| > 0 ==> p < |ids|
  {
    if |ids| == 0 || last.None? then 0
    else if last.value in ids then At(PositionOf(ids, last.value), 1, |ids|)
    else PositionOf(ids, last.value)
  }

  // ----- one round, by its first two eligible plans -----

  predicate Eligible(mode: Mode, plan: Plan, refused: set<Identity>) {
    && !plan.isCurrent
    && (mode.MissingOnly? ==> plan.operation.Reload? && !plan.hasState)
    && plan.id !in refused
  }

  /** `(start + offset) % n`, for a start inside the list and less than one turn. */
  function At(start: nat, offset: nat, n: nat): (i: nat)
    requires start < n && offset <= n
    ensures i < n
  {
    if start + offset < n then start + offset else start + offset - n
  }

  lemma AtIsModulo(start: nat, offset: nat, n: nat)
    requires start < n && offset <= n
    ensures At(start, offset, n) == (start + offset) % n
  {
    RemainderIs(start + offset, if start + offset < n then 0 else 1, At(start, offset, n), n);
  }

  lemma RemainderIs(x: nat, q: nat, r: nat, n: nat)
    requires r < n && x == q * n + r
    ensures x % n == r
  {
    var d := x / n - q;
    assert d * n == r - x % n;
    assert d >= 1 ==> d * n >= n;
    assert d <= -1 ==> d * n + n <= 0;
  }

  /** First offset from `from` on whose plan is eligible; the number of plans if none is. */
  function NextEligible(mode: Mode, plans: seq<Plan>, refused: set<Identity>, start: nat, from: nat): (o: nat)
    requires from <= |plans| && (|plans| > 0 ==> start < |plans|)
    ensures from <= o <= |plans|
    ensures forall k :: from <= k < o ==> !Eligible(mode, plans[At(start, k, |plans|)], refused)
    ensures o < |plans| ==> Eligible(mode, plans[At(start, o, |plans|)], refused)
    decreases |plans| - from
  {
    if from == |plans| || Eligible(mode, plans[At(start, from, |plans|)], refused) then from
    else NextEligible(mode, plans, refused, start, from + 1)
  }

  /** Why a round ended its cycle, if it did. */
  datatype Ending = Open | Wrapped | Fallback | Natural

  /** `worked` is the cursor after the plan loop, `cursor` after the cycle has been closed. */
  datatype Round = Round(worked: Cursor, cursor: Cursor, plans: seq<Plan>, tried: Option<Identity>, ending: Ending)

  function AfterAttempt(plan: Plan, outcome: Outcome, cursor: Cursor): (Cursor, Plan) {
    var c := cursor.Advance(plan.id);
    if outcome.refused then (c.Refuse(plan.id), plan)
    else if plan.operation.Disable? && !plan.hasState then (c, plan)
    else if outcome.succeeded then (c, plan.Settled())
    else (c.Refuse(plan.id), plan)
  }

  function Ended(worked: Cursor, plans: seq<Plan>, tried: Option<Identity>, ending: Ending): Round {
    Round(worked, if ending.Open? then worked else worked.Close(), plans, tried, ending)
  }

  /** The cycle is also closed when the next start has come round to the head's position. */
  predicate FallbackCloses(cursor: Cursor, ids: seq<Identity>) {
    cursor.head.Some? && NextStart(cursor.last, ids) <= PositionOf(ids, cursor.head.value)
  }

  /** One round on `plans`: the first eligible plan is attempted unless this cycle already has;
      a second eligible plan ends the cycle if it was attempted, and is deferred otherwise. */
  function RoundOf(mode: Mode, cursor: Cursor, plans: seq<Plan>, outcome: Outcome): Round {
    var n, start := |plans|, NextStart(cursor.last, Ids(plans));
    var x := NextEligible(mode, plans, cursor.refused, start, 0);
    if x == n then Ended(cursor, plans, None, Natural)
    else
      var i := At(start, x, n);
      if plans[i].id in cursor.attempted then Ended(cursor, plans, None, Wrapped)
      else
        var (c, p) := AfterAttempt(plans[i], outcome, cursor);
        var ps := plans[i := p];
        var y := NextEligible(mode, ps, c.refused, start, x + 1);
        var ending :=
          if y == n then Natural
          else if ps[At(start, y, n)].id in c.attempted then Wrapped
          else if FallbackCloses(c, Ids(plans)) then Fallback
          else Open;
        Ended(c, ps, Some(plans[i].id), ending)
  }

  // ----- the round as the source runs it -----

  /** Running one plan: the branches of the source after `batch_requests += 1`. */
  method Attempt(plan: Plan, outcome: Outcome, cursor0: Cursor) returns (cursor: Cursor, settled: Plan)
    ensures (cursor, settled) == AfterAttempt(plan, outcome, cursor0)
  {
    cursor, settled := cursor0.Advance(plan.id), plan;
    if outcome.refused {
      cursor := cursor.Refuse(plan.id);
      return;
    }
    match plan.operation
    case Reload =>
      if outcome.succeeded {
        settled := plan.Settled();
      } else {
        cursor := cursor.Refuse(plan.id);
      }
    case Disable =>
      if plan.hasState {
        if outcome.succeeded {
          settled := plan.Settled();
        } else {
          cursor := cursor.Refuse(plan.id);
        }
      }
  }

  /** The plan at offset `x` is eligible, and this cycle has not attempted it. */
  predicate Fresh(plans: seq<Plan>, start: nat, x: nat, cursor: Cursor)
    requires x <= |plans| && (|plans| > 0 ==> start < |plans|)
  {
    x < |plans| && plans[At(start, x, |plans|)].id !in cursor.attempted
  }

  /** The plan loop with its counters: nothing attempted yet, then one plan attempted, then every
      further eligible plan deferred. `x` is the first eligible offset, `after` and `settled0` what
      an attempt there leaves, `y` the next eligible offset after it. */
  method ScanPlans(mode: Mode, cursor0: Cursor, plans0: seq<Plan>, outcome: Outcome, start: nat,
                   ghost x: nat, ghost after: Cursor, ghost settled0: seq<Plan>, ghost y: nat)
    returns (cursor: Cursor, plans: seq<Plan>, tried: Option<Identity>, wrapped: bool, incomplete: bool)
    requires |plans0| > 0 ==> start < |plans0|
    requires x == NextEligible(mode, plans0, cursor0.refused, start, 0)
    requires Fresh(plans0, start, x, cursor0) ==>
               var i := At(start, x, |plans0|);
               var (c, p) := AfterAttempt(plans0[i], outcome, cursor0);
               after == c && settled0 == plans0[i := p]
               && y == NextEligible(mode, settled0, after.refused, start, x + 1)
    ensures !Fresh(plans0, start, x, cursor0) ==>
              cursor == cursor0 && plans == plans0 && tried.None? && (wrapped <==> x < |plans0|) && !incomplete
    ensures Fresh(plans0, start, x, cursor0) ==>
              && cursor == after && plans == settled0 && tried == Some(plans0[At(start, x, |plans0|)].id)
              && (wrapped <==> y < |plans0| && settled0[At(start, y, |plans0|)].id in after.attempted)
              && (incomplete && !wrapped <==> y < |plans0| && !wrapped)
  {
    cursor, plans, tried, wrapped, incomplete := cursor0, plans0, None, false, false;
    var n := |plans0|;
    var deferred, requests := 0, 0;
    for offset := 0 to n
      invariant |plans| == n && !wrapped && 0 <= requests <= 1
      invariant requests == 0 ==> offset <= x && cursor == cursor0 && plans == plans0 && tried.None?
      invariant requests == 1 ==> Fresh(plans0, start, x, cursor0) && x < offset && cursor == after && plans == settled0
                                  && tried == Some(plans0[At(start, x, n)].id)
      invariant requests == 1 ==> if deferred == 0 then offset <= y
                                  else y < offset && plans[At(start, y, n)].id !in cursor.attempted
      invariant incomplete <==> deferred > 0
      invariant deferred > 0 ==> requests == 1
    {
      var index := (start + offset) % n;
      assert index == At(start, offset, n) by { AtIsModulo(start, offset, n); }
      var plan := plans[index];
      if plan.isCurrent {
        continue;
      }
      if mode.MissingOnly? && !(plan.operation.Reload? && !plan.hasState) {
        continue;
      }
      if plan.id in cursor.refused {
        continue;
      }
      if deferred == 0 && plan.id in cursor.attempted {
        wrapped := true;
        return;
      }
      if requests >= 1 {
        deferred := deferred + 1;
        incomplete := true;
        continue;
      }
      requests := requests + 1;
      var settled;
      cursor, settled := Attempt(plan, outcome, cursor);
      plans, tried := plans[index := settled], Some(plan.id);
    }
  }

  /** A round read from its first two eligible offsets. */
  ghost predicate Parts(mode: Mode, cursor: Cursor, plans: seq<Plan>, outcome: Outcome, start: nat, x: nat, y: nat, r: Round)
    requires x <= |plans| && (|plans| > 0 ==> start < |plans|)
  {
    if !Fresh(plans, start, x, cursor) then
      r.worked == cursor && r.plans == plans && r.tried.None? && r.ending == if x < |plans| then Wrapped else Natural
    else
      var i := At(start, x, |plans|);
      var (c, p) := AfterAttempt(plans[i], outcome, cursor);
      && r.worked == c && r.plans == plans[i := p] && r.tried == Some(plans[i].id)
      && y == NextEligible(mode, r.plans, c.refused, start, x + 1)
      && (r.ending.Natural? <==> y == |plans|)
      && (r.ending.Wrapped? <==> y < |plans| && r.plans[At(start, y, |plans|)].id in c.attempted)
  }

  lemma RoundParts(mode: Mode, cursor: Cursor, plans: seq<Plan>, outcome: Outcome, start: nat, x: nat) returns (y: nat)
    requires start == NextStart(cursor.last, Ids(plans)) && x == NextEligible(mode, plans, cursor.refused, start, 0)
    ensures Parts(mode, cursor, plans, outcome, start, x, y, RoundOf(mode, cursor, plans, outcome))
  {
    y := 0;
    if Fresh(plans, start, x, cursor) {
      var r := RoundOf(mode, cursor, plans, outcome);
      y := NextEligible(mode, r.plans, r.worked.refused, start, x + 1);
    }
  }

  method PlanLoop(mode: Mode, cursor0: Cursor, plans0: seq<Plan>, outcome: Outcome)
    returns (cursor: Cursor, plans: seq<Plan>, tried: Option<Identity>, wrapped: bool, incomplete: bool)
    ensures Ran(RoundOf(mode, cursor0, plans0, outcome), cursor, plans, tried, wrapped, incomplete)
  {
    var start := NextStart(cursor0.last, Ids(plans0));
    ghost var x := NextEligible(mode, plans0, cursor0.refused, start, 0);
    ghost var y := RoundParts(mode, cursor0, plans0, outcome, start, x);
    ghost var r := RoundOf(mode, cursor0, plans0, outcome);
    cursor, plans, tried, wrapped, incomplete := ScanPlans(mode, cursor0, plans0, outcome, start, x, r.worked, r.plans, y);
  }

  /** What the plan loop has found out about its round. */
  ghost predicate Ran(r: Round, cursor: Cursor, plans: seq<Plan>, tried: Option<Identity>, wrapped: bool, incomplete: bool) {
    && cursor == r.worked && plans == r.plans && tried == r.tried
    && (wrapped <==> r.ending.Wrapped?)
    && ((incomplete && !wrapped) <==> (r.ending.Open? || r.ending.Fallback?))
  }

  // ----- rounds with the cached batch -----

  /** Everything that must be unchanged for a batch to be reused. */
  datatype Signature = Signature(mode: Mode, configVersion: int, configFingerprint: int)

  datatype Batch = Batch(plans: seq<Plan>, signature: Signature)

  datatype State = State(cursor: Cursor, cached: Option<Batch>)

  /** One call of the scheduler: `hostChanged` forces a fresh batch, `enumerated` is what a new
      enumeration of the running apps would yield. */
  datatype Call = Call(signature: Signature, hostChanged: bool, enumerated: seq<Plan>, outcome: Outcome)

  function PlansFor(state: State, call: Call): seq<Plan> {
    if !call.hostChanged && state.cached.Some? && state.cached.value.signature == call.signature
    then state.cached.value.plans else call.enumerated
  }

  function RoundFor(state: State, call: Call): Round {
    RoundOf(call.signature.mode, state.cursor.Freshened(call.hostChanged), PlansFor(state, call), call.outcome)
  }

  function Next(state: State, call: Call): State {
    var r := RoundFor(state, call);
    State(r.cursor, if r.ending.Open? then Some(Batch(r.plans, call.signature)) else None)
  }

  class ReconcileCursor {
    var lastAttempted: Option<Identity>
    var cycleHead: Option<Identity>
    var cycleAttempted: set<Identity>
    var cycleRefused: set<Identity>
    var cachedBatch: Option<Batch>

    function Value(): State
      reads this
    {
      State(Cursor(lastAttempted, cycleHead, cycleAttempted, cycleRefused), cachedBatch)
    }

    constructor ()
      ensures Value() == State(Cursor(None, None, {}, {}), None)
    {
      lastAttempted, cycleHead, cycleAttempted, cycleRefused, cachedBatch := None, None, {}, {}, None;
    }

    /** `close_cycle` */
    method CloseCycle()
      modifies this`cycleHead, this`cycleAttempted, this`cycleRefused
      ensures Value().cursor == old(Value().cursor).Close()
    {
      cycleHead, cycleAttempted, cycleRefused := None, {}, {};
    }

    /** The end of a round: close the cycle if it is over, keep the batch if it is not. */
    method Finish(ids: seq<Identity>, plans: seq<Plan>, signature: Signature, wrapped: bool, deferred: bool, ghost r: Round)
      returns (incomplete: bool)
      requires Value().cursor == r.worked && cachedBatch.None? && plans == r.plans
      requires wrapped <==> r.ending.Wrapped?
      requires (deferred && !wrapped) <==> (r.ending.Open? || r.ending.Fallback?)
      requires deferred && !wrapped ==> (r.ending.Fallback? <==> FallbackCloses(r.worked, ids))
      requires r.cursor == if r.ending.Open? then r.worked else r.worked.Close()
      modifies this
      ensures Value() == State(r.cursor, if r.ending.Open? then Some(Batch(r.plans, signature)) else None)
      ensures incomplete <==> r.ending.Open?
    {
      incomplete := deferred;
      if wrapped {
        incomplete := false;
        CloseCycle();
      } else if incomplete {
        if cycleHead.Some? && NextStart(lastAttempted, ids) <= PositionOf(ids, cycleHead.value) {
          incomplete := false;
          CloseCycle();
        }
      } else {
        CloseCycle();
      }
      if incomplete {
        cachedBatch := Some(Batch(plans, signature));
      }
    }

    /** The cursor part of `reconcile_running_apps`: take the cached batch or the new one, run the
        plan loop, decide whether the cycle is over, keep the batch if it is not. */
    method Reconcile(call: Call) returns (incomplete: bool)
      modifies this
      ensures Value() == Next(old(Value()), call)
      ensures incomplete <==> RoundFor(old(Value()), call).ending.Open?
    {
      if call.hostChanged {
        cycleHead, cycleRefused := None, {};
      }
      var plans := PlansFor(Value(), call);
      cachedBatch := None;
      var ids := Ids(plans);
      var cursor := Cursor(lastAttempted, cycleHead, cycleAttempted, cycleRefused);
      ghost var r := RoundOf(call.signature.mode, cursor, plans, call.outcome);
      EndingOf(call.signature.mode, cursor, plans, call.outcome);
      var tried, wrapped;
      cursor, plans, tried, wrapped, incomplete := PlanLoop(call.signature.mode, cursor, plans, call.outcome);
      lastAttempted, cycleHead := cursor.last, cursor.head;
      cycleAttempted, cycleRefused := cursor.attempted, cursor.refused;
      incomplete := Finish(ids, plans, call.signature, wrapped, incomplete, r);
    }
  }

  lemma EndingOf(mode: Mode, cursor: Cursor, plans: seq<Plan>, outcome: Outcome)
    ensures var r := RoundOf(mode, cursor, plans, outcome);
            && (r.ending.Open? || r.ending.Fallback? ==> (r.ending.Fallback? <==> FallbackCloses(r.worked, Ids(plans))))
            && r.cursor == if r.ending.Open? then r.worked else r.worked.Close()
  {
  }
}
