/** When the stop after repeated failed clean-ups comes, over whole runs, and when it does not. */
module LedgerPoison {
  import opened Paths
  import opened Text
  import opened LedgerCodec
  import opened Supervisor
  import opened LedgerRuns

  // ----- when a run ends poisoned -----

  /** What a step does to the count of failed clean-ups. */
  datatype Effect = Keep | Reset | Anew | Missed | Through

  /** `Anew` is a migration that takes, which alone also revives a poisoned ledger; `Missed` is a
      counted failure whose injection did not get through either, `Through` one
      whose injection did, if it was still tried. */
  ghost function EffectOf(store: Store, step: Step): Effect {
    match step
    case Prune(_, _) => Keep
    case Migrate(_) => if Renews(store, step) then Anew else Keep
    case Reload(view, round) =>
      if !round.fileWritable then Keep
      else if store.ledger.None? then Reset
      else
        var action := Gravest(Actions(store.ledger.value, view));
        if !AllowsInject(action) then Keep
        else if action == DropStale || !Counted(store, round) then Reset
        else if round.mounted.None? then Missed
        else Through
  }

  /** The effects along a run, without the steps that leave the count alone. */
  ghost function Effects(store: Store, packageName: string, pid: i32, steps: seq<Step>): seq<Effect>
    decreases |steps|
  {
    if |steps| == 0 then []
    else
      var e := EffectOf(store, steps[0]);
      (if e == Keep then [] else [e]) + Effects(Next(store, packageName, pid, steps[0]), packageName, pid, steps[1..])
  }

  function Count(store: Store): nat {
    if store.ledger.None? then 0
    else if store.ledger.value.detachAttempts < MAX_DETACH_ATTEMPTS then store.ledger.value.detachAttempts
    else MAX_DETACH_ATTEMPTS
  }

  function CountAfter(n: nat, e: Effect): nat {
    match e
    case Keep => n
    case Reset => 0
    case Anew => 0
    case Missed => n + 1
    case Through => if n + 1 >= MAX_DETACH_ATTEMPTS then n + 1 else 0
  }

  lemma EffectCounts(store: Store, packageName: string, pid: i32, step: Step)
    requires step.Prune? ==> step.targetIsCurrent
    ensures Poisoned(store) ==> EffectOf(store, step) in {Keep, Anew}
    ensures Count(Next(store, packageName, pid, step)) == CountAfter(Count(store), EffectOf(store, step))
  {
    match step
    case Prune(_, _) =>
    case Migrate(_) =>
    case Reload(view, round) =>
      if !round.fileWritable {
        UnwritableKeeps(store, packageName, pid, view, round);
      } else if store.ledger.Some? {
        SoundOrRefused(store.ledger.value, view);
        HandedOverMeans(store, view);
        if HandedOver(store, view) {
          HandedCounts(store, packageName, pid, round);
        }
      }
  }

  lemma UnwritableKeeps(store: Store, packageName: string, pid: i32, view: View, round: Round)
    requires !round.fileWritable
    ensures Reconciled(store, packageName, pid, view, round).ledger == store.ledger
  {
  }

  lemma HandedCounts(store: Store, packageName: string, pid: i32, round: Round)
    requires store.ledger.Some? && !Poisoned(store) && round.fileWritable
    ensures Count(Reloaded(store, packageName, pid, round)) ==
            CountAfter(Count(store), if !Counted(store, round) then Reset else if round.mounted.None? then Missed else Through)
  {
  }

  lemma SoundOrRefused(ledger: MountLedger, view: View)
    ensures AllowsInject(Gravest(Actions(ledger, view))) ==> !IsPoisoned(ledger)
  {
    SupervisionMeaning(ledger, view, Gravest(Actions(ledger, view)));
  }

  /** Two counted failures in a row without an injection between, and a third counted failure. */
  ghost predicate ThreeInARow(effects: seq<Effect>) {
    exists i :: ThreeAt(effects, i)
  }

  ghost predicate ThreeAt(effects: seq<Effect>, i: nat) {
    i + 2 < |effects| && effects[i] == Missed && effects[i + 1] == Missed && effects[i + 2] in {Missed, Through}
  }

  /** The count at the start of a run stands for that many missed rounds before it. */
  function Misses(n: nat): seq<Effect> {
    seq(n, i => Missed)
  }

  lemma BrokenRow(n: nat, e: Effect, rest: seq<Effect>)
    requires n < MAX_DETACH_ATTEMPTS && (e in {Reset, Anew} || (e == Through && n + 1 < MAX_DETACH_ATTEMPTS))
    ensures ThreeInARow(Misses(n) + [e] + rest) <==> ThreeInARow(rest)
  {
    var all := Misses(n) + [e] + rest;
    BehindIt(n, e, rest);
    if i: nat :| ThreeAt(all, i) {
      assert n != i && n != i + 1 && n != i + 2;
      assert ThreeAt(rest, i - n - 1);
    }
    if i: nat :| ThreeAt(rest, i) {
      assert ThreeAt(all, n + 1 + i);
    }
  }

  lemma BehindIt(n: nat, e: Effect, rest: seq<Effect>)
    ensures var all := Misses(n) + [e] + rest;
            && |all| == n + 1 + |rest| && all[n] == e
            && (forall i :: 0 <= i < n ==> all[i] == Missed) && (forall i :: n < i < |all| ==> all[i] == rest[i - n - 1])
  {
  }

  lemma ThreeStarts(effects: seq<Effect>, rest: seq<Effect>)
    requires ThreeAt(effects, 0)
    ensures ThreeInARow(effects + rest)
  {
    assert ThreeAt(effects + rest, 0);
  }

  /** The effects behind the last migration. */
  function SinceAnew(effects: seq<Effect>): seq<Effect> {
    if Anew in effects then SinceAnew(effects[1..]) else effects
  }

  lemma {:induction false} SinceAnewOf(a: seq<Effect>, rest: seq<Effect>)
    requires Anew in rest
    ensures SinceAnew(a + rest) == SinceAnew(rest)
  {
    if |a| == 0 {
      assert a + rest == rest;
    } else {
      assert Anew in a + rest;
      TailOfConcat(a, rest);
      SinceAnewOf(a[1..], rest);
    }
  }

  lemma SinceThis(a: seq<Effect>, rest: seq<Effect>)
    ensures SinceAnew(a + ([Anew] + rest)) == SinceAnew(rest)
  {
    assert Anew in [Anew] + rest;
    SinceAnewOf(a, [Anew] + rest);
    assert ([Anew] + rest)[1..] == rest;
  }

  /** Exactly when the promised stop comes: over every run in which the process lives, the ledger
      ends poisoned if and only if, among the steps behind the last migration that touch the count,
      two counted failures without an injection are followed at once by a third counted failure. */
  lemma {:induction false} PoisonedIff(store: Store, packageName: string, pid: i32, steps: seq<Step>)
    requires forall s <- steps :: s.Prune? ==> s.targetIsCurrent
    ensures Poisoned(Run(store, packageName, pid, steps)) <==>
            ThreeInARow(SinceAnew(Misses(Count(store)) + Effects(store, packageName, pid, steps)))
    decreases |steps|
  {
    var n, effects := Count(store), Effects(store, packageName, pid, steps);
    if |steps| == 0 {
      CountAlone(n);
      assert Misses(n) + effects == Misses(n);
    } else {
      assert steps[0] in steps;
      var e, next := EffectOf(store, steps[0]), Next(store, packageName, pid, steps[0]);
      EffectCounts(store, packageName, pid, steps[0]);
      PoisonedIff(next, packageName, pid, steps[1..]);
      SinceMovesOn(n, e, Effects(next, packageName, pid, steps[1..]), effects);
    }
  }

  lemma SinceMovesOn(n: nat, e: Effect, rest: seq<Effect>, effects: seq<Effect>)
    requires n < MAX_DETACH_ATTEMPTS || e in {Keep, Anew}
    requires effects == (if e == Keep then [] else [e]) + rest
    ensures ThreeInARow(SinceAnew(Misses(n) + effects)) <==> ThreeInARow(SinceAnew(Misses(CountAfter(n, e)) + rest))
  {
    if e == Keep {
      assert effects == rest;
    } else if e == Anew {
      SinceThis(Misses(n), rest);
      assert Misses(0) + rest == rest;
    } else if Anew in rest {
      assert Misses(n) + effects == (Misses(n) + [e]) + rest;
      SinceAnewOf(Misses(n) + [e], rest);
      SinceAnewOf(Misses(CountAfter(n, e)), rest);
    } else {
      RowMovesOn(n, e, rest, effects);
    }
  }

  lemma RowMovesOn(n: nat, e: Effect, rest: seq<Effect>, effects: seq<Effect>)
    requires n < MAX_DETACH_ATTEMPTS && effects == (if e == Keep then [] else [e]) + rest
    ensures ThreeInARow(Misses(n) + effects) <==> ThreeInARow(Misses(CountAfter(n, e)) + rest)
  {
    RowGoesOn(n, e, rest);
    assert Misses(n) + effects == (if e == Keep then Misses(n) + rest else Misses(n) + [e] + rest);
  }

  /** One effect moves into the count, or makes the row start anew. */
  lemma RowGoesOn(n: nat, e: Effect, rest: seq<Effect>)
    requires n < MAX_DETACH_ATTEMPTS
    ensures ThreeInARow(if e == Keep then Misses(n) + rest else Misses(n) + [e] + rest) <==>
            ThreeInARow(Misses(CountAfter(n, e)) + rest)
  {
    if e == Missed {
      assert Misses(n) + [e] == Misses(n + 1);
    } else if e == Through && n + 1 == MAX_DETACH_ATTEMPTS {
      assert ThreeAt(Misses(n) + [e], 0) && ThreeAt(Misses(n + 1), 0);
      ThreeStarts(Misses(n) + [e], rest);
      ThreeStarts(Misses(n + 1), rest);
    } else if e != Keep {
      BrokenRow(n, e, rest);
      assert Misses(0) + rest == rest;
    }
  }

  /** Every round of the run is a failed clean-up that counts, handed over by supervision at the
      ledger it meets unless that is poisoned already. */
  ghost predicate FailsAlong(store: Store, packageName: string, pid: i32, steps: seq<Step>)
    decreases |steps|
  {
    |steps| > 0 ==>
      && steps[0].Reload? && store.ledger.Some?
      && (Poisoned(store) || (HandedOver(store, steps[0].view) && Counted(store, steps[0].round)))
      && FailsAlong(Next(store, packageName, pid, steps[0]), packageName, pid, steps[1..])
  }

  /** Which rounds got their injection through, read off the rounds alone. */
  function Outcomes(steps: seq<Step>): seq<Effect> {
    seq(|steps|, i requires 0 <= i < |steps| =>
      if steps[i].Reload? && steps[i].round.mounted.Some? then Through else Missed)
  }

  /** Over such a run: the ledger ends poisoned if and only if two consecutive rounds get no injection
      through and another round follows them. */
  lemma {:induction false} FailuresPoisonIff(store: Store, packageName: string, pid: i32, steps: seq<Step>)
    requires FailsAlong(store, packageName, pid, steps)
    ensures Poisoned(Run(store, packageName, pid, steps)) <==> ThreeInARow(Misses(Count(store)) + Outcomes(steps))
    decreases |steps|
  {
    var n := Count(store);
    if |steps| == 0 {
      CountAlone(n);
      assert Misses(n) + Outcomes(steps) == Misses(n);
    } else {
      FailuresPoisonIff(Next(store, packageName, pid, steps[0]), packageName, pid, steps[1..]);
      FirstOutcome(store, packageName, pid, steps);
    }
  }

  lemma CountAlone(n: nat)
    requires n <= MAX_DETACH_ATTEMPTS
    ensures ThreeInARow(Misses(n)) <==> n == MAX_DETACH_ATTEMPTS
  {
    assert n == MAX_DETACH_ATTEMPTS ==> ThreeAt(Misses(n), 0);
    assert n < MAX_DETACH_ATTEMPTS ==> forall i :: !ThreeAt(Misses(n), i);
  }

  lemma FirstOutcome(store: Store, packageName: string, pid: i32, steps: seq<Step>)
    requires |steps| > 0 && FailsAlong(store, packageName, pid, steps)
    ensures ThreeInARow(Misses(Count(store)) + Outcomes(steps)) <==>
            ThreeInARow(Misses(Count(Next(store, packageName, pid, steps[0]))) + Outcomes(steps[1..]))
  {
    var n, e := Count(store), EffectOf(store, steps[0]);
    EffectCounts(store, packageName, pid, steps[0]);
    if n == MAX_DETACH_ATTEMPTS {
      ThreeStarts(Misses(n), Outcomes(steps));
      ThreeStarts(Misses(n), Outcomes(steps[1..]));
    } else {
      OutcomesHead(steps);
      RowMovesOn(n, e, Outcomes(steps[1..]), Outcomes(steps));
    }
  }

  lemma OutcomesHead(steps: seq<Step>)
    requires |steps| > 0
    ensures Outcomes(steps) ==
            [if steps[0].Reload? && steps[0].round.mounted.Some? then Through else Missed] + Outcomes(steps[1..])
  {
  }

  // ----- runs of one kind -----

  /** A round that neither verified the clean-up nor got an injection through. */
  ghost predicate Stuck(step: Step) {
    step.Reload? && !step.round.Cleared() && step.round.fileWritable && step.round.mounted.None?
  }

  lemma HandsIgnoresCount(view: View, ledger: MountLedger, n: u32)
    requires Hands(view, ledger)
    ensures Hands(view, ledger.(detachAttempts := n))
  {
    var other := ledger.(detachAttempts := n);
    forall m | m in other.mounts
      ensures !TakenOver(other, m.mountPoint, view)
    {
      assert !TakenOver(ledger, m.mountPoint, view);
    }
  }

  function Room(store: Store): nat
    requires store.ledger.Some?
  {
    if store.ledger.value.detachAttempts >= MAX_DETACH_ATTEMPTS - 1 then 0
    else MAX_DETACH_ATTEMPTS - 1 - store.ledger.value.detachAttempts
  }

  /** While clean-up and injection both keep failing and the failures count, at most two injections
      are tried however long the run, and a run longer than that ends poisoned. */
  lemma {:induction false} StuckConverges(store: Store, packageName: string, pid: i32, steps: seq<Step>)
    requires store.ledger.Some?
    requires forall s <- steps :: Stuck(s) && Counted(store, s.round) && Hands(s.view, store.ledger.value)
    ensures Run(store, packageName, pid, steps).injections ==
            store.injections + if |steps| < Room(store) then |steps| else Room(store)
    ensures |steps| > Room(store) ==> Poisoned(Run(store, packageName, pid, steps))
    decreases |steps|
  {
    if |steps| == 0 {
    } else if IsPoisoned(store.ledger.value) {
      PoisonedStays(store, packageName, pid, steps);
    } else {
      assert steps[0] in steps;
      var next := Next(store, packageName, pid, steps[0]);
      StuckStep(store, packageName, pid, steps[0]);
      forall s | s in steps[1..]
        ensures Stuck(s) && Counted(next, s.round) && Hands(s.view, next.ledger.value)
      {
        assert s in steps;
        HandsIgnoresCount(s.view, store.ledger.value, next.ledger.value.detachAttempts);
      }
      StuckConverges(next, packageName, pid, steps[1..]);
    }
  }

  lemma StuckStep(store: Store, packageName: string, pid: i32, step: Step)
    requires store.ledger.Some? && !IsPoisoned(store.ledger.value) && Stuck(step)
    requires HandedOver(store, step.view) && Counted(store, step.round)
    ensures var next := Next(store, packageName, pid, step);
            && next.ledger == Some(Failed(store.ledger.value))
            && next.injections == store.injections + (if Room(store) == 0 then 0 else 1)
  {
    HandedOverMeans(store, step.view);
  }

  /** Without a ledger nothing is counted: as long as no injection gets through to write one, every
      round injects. */
  lemma {:induction false} NoLedgerGoesOn(store: Store, packageName: string, pid: i32, steps: seq<Step>)
    requires store.ledger.None?
    requires forall s <- steps :: Stuck(s)
    ensures Run(store, packageName, pid, steps) == Store(None, store.injections + |steps|)
    decreases |steps|
  {
    if |steps| > 0 {
      assert steps[0] in steps;
      NoLedgerGoesOn(Next(store, packageName, pid, steps[0]), packageName, pid, steps[1..]);
    }
  }

  /** So where nothing is recorded, clean-up and injection may fail for ever and every round injects
      again: the first failure drops the empty ledger, and after that there is none to count in. */
  lemma EmptyLedgerGoesOn(store: Store, packageName: string, pid: i32, view: View, round: Round, steps: seq<Step>)
    requires store.ledger.Some? && store.ledger.value.mounts == [] && !Poisoned(store)
    requires Stuck(Reload(view, round)) && Hands(view, store.ledger.value) && round.stateRemoved && !round.otherTargets
    requires forall s <- steps :: Stuck(s)
    ensures Run(store, packageName, pid, [Reload(view, round)] + steps) == Store(None, store.injections + 1 + |steps|)
  {
    UncountedFailure(store, packageName, pid, view, round);
    NoLedgerGoesOn(Next(store, packageName, pid, Reload(view, round)), packageName, pid, steps);
    assert ([Reload(view, round)] + steps)[1..] == steps;
  }

  /** No count of failed clean-ups alone poisons a ledger: as long as the injections get through, it
      stays sound over any run. */
  lemma {:induction false} MountedNeverPoisons(store: Store, packageName: string, pid: i32, steps: seq<Step>)
    requires store.ledger.Some? ==> store.ledger.value.detachAttempts == 0
    requires forall s <- steps :: s.Reload? ==> s.round.fileWritable && s.round.mounted.Some?
    ensures var last := Run(store, packageName, pid, steps).ledger; last.Some? ==> last.value.detachAttempts == 0
    decreases |steps|
  {
    if |steps| > 0 {
      assert steps[0] in steps;
      MountedNeverPoisons(Next(store, packageName, pid, steps[0]), packageName, pid, steps[1..]);
    }
  }

  // ----- a stack that grows for ever -----

  /** A round that does not verify the clean-up but gets its injection through. */
  ghost predicate Unverified(step: Step) {
    step.Reload? && !step.round.Cleared() && step.round.fileWritable && step.round.mounted.Some?
  }

  /** Every round fails to verify the clean-up, is let through by supervision at the ledger it meets,
      and gets its injection through. */
  ghost predicate Stacks(store: Store, packageName: string, pid: i32, steps: seq<Step>)
    decreases |steps|
  {
    |steps| > 0 ==>
      && Unverified(steps[0]) && (store.ledger.None? || HandedOver(store, steps[0].view))
      && Stacks(Next(store, packageName, pid, steps[0]), packageName, pid, steps[1..])
  }

  /** Then every round injects, whatever layers the rounds leave and see. */
  lemma {:induction false} StackingGoesOn(store: Store, packageName: string, pid: i32, steps: seq<Step>)
    requires Stacks(store, packageName, pid, steps)
    requires store.ledger.Some? ==> store.ledger.value.detachAttempts == 0
    ensures Run(store, packageName, pid, steps).injections == store.injections + |steps|
    ensures !Poisoned(Run(store, packageName, pid, steps))
    decreases |steps|
  {
    if |steps| > 0 {
      if store.ledger.Some? {
        HandedOverMeans(store, steps[0].view);
      }
      StackingGoesOn(Next(store, packageName, pid, steps[0]), packageName, pid, steps[1..]);
    }
  }

  /** The layer with mount id `id` on top of `m.mountPoint`. */
  function LayerOf(m: MountIdentity, id: u64): LiveMount {
    LiveMount(id, if id == 0 then 0 else id - 1, m.dev, m.source, "fuse", "/")
  }

  /** A round that finds the layer with id `id` on top and leaves the next one above it. */
  function PilingRound(m: MountIdentity, ns: NamespaceIdentity, id: u64): Step
    requires id < U64_MAX
  {
    Reload(View(p => Some(LayerOf(m, id)), p => Healthy, Some(ns), true, true),
           Round(true, false, true, true, ns, 0, [m.mountPoint], Some([m.(mountId := id + 1)])))
  }

  /** Rounds that pile one layer after the other. */
  ghost predicate Piling(steps: seq<Step>, m: MountIdentity, ns: NamespaceIdentity, id: nat) {
    id + |steps| <= U64_MAX && forall i :: 0 <= i < |steps| ==> PilesAt(steps[i], m, ns, id + i)
  }

  ghost predicate PilesAt(step: Step, m: MountIdentity, ns: NamespaceIdentity, id: nat) {
    id < U64_MAX && step == PilingRound(m, ns, id)
  }

  /** There are such rounds of any number, up to the largest mount id. */
  lemma PilingExists(m: MountIdentity, ns: NamespaceIdentity, id: u64, n: nat) returns (steps: seq<Step>)
    requires id + n <= U64_MAX
    ensures |steps| == n && Piling(steps, m, ns, id)
  {
    steps := seq(n, i requires 0 <= i < n => PilingRound(m, ns, id + i));
  }

  ghost predicate OnTop(store: Store, m: MountIdentity, ns: NamespaceIdentity, id: nat) {
    && id <= U64_MAX
    && store.ledger.Some? && store.ledger.value.detachAttempts == 0 && store.ledger.value.namespace == ns
    && store.ledger.value.mounts == [m.(mountId := id)]
  }

  lemma PilesOne(store: Store, packageName: string, pid: i32, m: MountIdentity, ns: NamespaceIdentity, id: u64)
    requires id < U64_MAX && Normal(m.mountPoint) && OnTop(store, m, ns, id)
    ensures Unverified(PilingRound(m, ns, id)) && HandedOver(store, PilingRound(m, ns, id).view)
    ensures OnTop(Next(store, packageName, pid, PilingRound(m, ns, id)), m, ns, id + 1)
  {
    var view := PilingRound(m, ns, id).view;
    SeesOnTop(store, m, ns, id, view);
    CountAfterFailure(store, packageName, pid, view, PilingRound(m, ns, id).round);
  }

  lemma SeesOnTop(store: Store, m: MountIdentity, ns: NamespaceIdentity, id: u64, view: View)
    requires Normal(m.mountPoint) && OnTop(store, m, ns, id) && view.targetIsCurrent && view.namespace == Some(ns)
    requires view.live(m.mountPoint) == Some(LayerOf(m, id))
    ensures Hands(view, store.ledger.value)
  {
    NormalizedShape(m.mountPoint);
    var ledger := store.ledger.value;
    assert RecordedAt(ledger.mounts, m.mountPoint) == Some(ledger.mounts[0]);
  }

  /** Whatever holds before round `i` holds before the next, and the round goes through. */
  ghost predicate CarriesOn(holds: (Store, nat) -> bool, packageName: string, pid: i32, steps: seq<Step>, store: Store, i: nat) {
    i < |steps| && holds(store, i) ==>
      Unverified(steps[i]) && HandedOver(store, steps[i].view) && holds(Next(store, packageName, pid, steps[i]), i + 1)
  }

  lemma {:induction false} StacksBy(holds: (Store, nat) -> bool, store: Store, packageName: string, pid: i32, steps: seq<Step>, k: nat)
    requires k <= |steps| && holds(store, k)
    requires forall st, i {:trigger CarriesOn(holds, packageName, pid, steps, st, i)} :: CarriesOn(holds, packageName, pid, steps, st, i)
    ensures Stacks(store, packageName, pid, steps[k..])
    ensures holds(Run(store, packageName, pid, steps[k..]), |steps|)
    decreases |steps| - k
  {
    if k < |steps| {
      assert CarriesOn(holds, packageName, pid, steps, store, k);
      assert steps[k..][0] == steps[k] && steps[k..][1..] == steps[k + 1..];
      StacksBy(holds, Next(store, packageName, pid, steps[k]), packageName, pid, steps, k + 1);
    }
  }

  lemma StacksThrough(holds: (Store, nat) -> bool, store: Store, packageName: string, pid: i32, steps: seq<Step>)
    requires holds(store, 0)
    requires forall st, i {:trigger CarriesOn(holds, packageName, pid, steps, st, i)} :: CarriesOn(holds, packageName, pid, steps, st, i)
    ensures Stacks(store, packageName, pid, steps)
    ensures holds(Run(store, packageName, pid, steps), |steps|)
  {
    StacksBy(holds, store, packageName, pid, steps, 0);
    assert steps[0..] == steps;
  }

  /** Such runs exist, for every mount that a ledger file gives back, with a new layer on top of the old
      ones in every round, of any length. */
  lemma PilesUp(store: Store, packageName: string, pid: i32, m: MountIdentity, ns: NamespaceIdentity, id: u64, n: nat)
    returns (steps: seq<Step>)
    requires id + n <= U64_MAX && Normal(m.mountPoint) && MountSafe(m) && OnTop(store, m, ns, id)
    ensures |steps| == n && Piling(steps, m, ns, id) && Stacks(store, packageName, pid, steps)
    ensures OnTop(Run(store, packageName, pid, steps), m, ns, id + n)
  {
    steps := PilingExists(m, ns, id, n);
    PilesUpBy(store, packageName, pid, m, ns, id, steps);
  }

  lemma PilesUpBy(store: Store, packageName: string, pid: i32, m: MountIdentity, ns: NamespaceIdentity, id: u64, steps: seq<Step>)
    requires Piling(steps, m, ns, id) && Normal(m.mountPoint) && OnTop(store, m, ns, id)
    ensures Stacks(store, packageName, pid, steps)
    ensures OnTop(Run(store, packageName, pid, steps), m, ns, id + |steps|)
  {
    var holds, last := PiledTo(m, ns, id), Run(store, packageName, pid, steps);
    PiledMeans(m, ns, id, store, 0);
    PilingCarries(packageName, pid, m, ns, id, steps);
    StacksThrough(holds, store, packageName, pid, steps);
    PiledMeans(m, ns, id, last, |steps|);
  }

  lemma PiledMeans(m: MountIdentity, ns: NamespaceIdentity, id: u64, store: Store, i: nat)
    ensures PiledTo(m, ns, id)(store, i) <==> OnTop(store, m, ns, id + i)
  {
  }

  /** Before round `i` the layer of round `i` is on top. */
  ghost function PiledTo(m: MountIdentity, ns: NamespaceIdentity, id: u64): (Store, nat) -> bool {
    (st: Store, i: nat) => OnTop(st, m, ns, id + i)
  }

  lemma PilingCarries(packageName: string, pid: i32, m: MountIdentity, ns: NamespaceIdentity, id: u64, steps: seq<Step>)
    requires Piling(steps, m, ns, id) && Normal(m.mountPoint)
    ensures forall st, i {:trigger CarriesOn(PiledTo(m, ns, id), packageName, pid, steps, st, i)} ::
              CarriesOn(PiledTo(m, ns, id), packageName, pid, steps, st, i)
  {
    forall st, i: nat
      ensures CarriesOn(PiledTo(m, ns, id), packageName, pid, steps, st, i)
    {
      if i < |steps| && PiledTo(m, ns, id)(st, i) {
        PilesNext(st, packageName, pid, m, ns, id, steps, i);
      }
    }
  }

  lemma PilesNext(store: Store, packageName: string, pid: i32, m: MountIdentity, ns: NamespaceIdentity, id: u64, steps: seq<Step>, i: nat)
    requires Piling(steps, m, ns, id) && Normal(m.mountPoint) && i < |steps| && OnTop(store, m, ns, id + i)
    ensures Unverified(steps[i]) && HandedOver(store, steps[i].view)
    ensures OnTop(Next(store, packageName, pid, steps[i]), m, ns, id + (i + 1))
  {
    assert PilesAt(steps[i], m, ns, id + i);
    PilesOne(store, packageName, pid, m, ns, id + i);
  }

  /** The ledger of such a run is what its file gives back. */
  lemma PiledReadsBack(store: Store, m: MountIdentity, ns: NamespaceIdentity, id: u64)
    requires OnTop(store, m, ns, id) && MountSafe(m) && LineSafe(store.ledger.value.packageName)
    ensures Decode(EncodeText(store.ledger.value)) == store.ledger
  {
    SafeWithId(m, id);
    RoundTrip(store.ledger.value);
  }

  lemma SafeWithId(m: MountIdentity, id: u64)
    requires MountSafe(m)
    ensures MountSafe(m.(mountId := id))
  {
  }
}
