/** Who owns a recorded mount and what recovery may do about it, from src/mount_identity.rs,
    src/fuse_supervisor.rs and the supervision in src/daemon_mount.rs. */
module Supervisor {
  import opened Paths
  import opened LedgerCodec

  const MAX_DETACH_ATTEMPTS: nat := 3

  datatype MountVerdict = Owned(layer: LiveMount) | Detached | Superseded(layer: LiveMount) | StaleNamespace

  datatype EndpointHealth = Healthy | DeadConnection(errno: int) | Missing | Unprobed(errno: int)

  datatype RecoveryAction = DetachThenReinject | ReinjectOnly | SkipSuperseded | DropStale | RefusePoisoned

  /** What supervision sees of the process and its namespace. */
  datatype View = View(
    live: string -> Option<LiveMount>, health: string -> EndpointHealth,
    namespace: Option<NamespaceIdentity>, targetIsCurrent: bool, hasPolicyRules: bool)

  // ----- one mount -----

  predicate IsPoisoned(ledger: MountLedger) {
    ledger.detachAttempts >= MAX_DETACH_ATTEMPTS
  }

  function RecordedAt(mounts: seq<MountIdentity>, mountPoint: string): Option<MountIdentity> {
    if |mounts| == 0 then None
    else if mounts[0].mountPoint == mountPoint then Some(mounts[0])
    else RecordedAt(mounts[1..], mountPoint)
  }

  /** `classify_mount` */
  function ClassifyMount(ledger: MountLedger, mountPoint: string, live: Option<LiveMount>,
                         currentNamespace: Option<NamespaceIdentity>, targetIsCurrent: bool): MountVerdict {
    if !targetIsCurrent then StaleNamespace
    else if currentNamespace.None? then StaleNamespace
    else if currentNamespace.value != ledger.namespace then StaleNamespace
    else
      var recorded := RecordedAt(ledger.mounts, NormalizeSyntax(mountPoint));
      if recorded.None? || live.None? then Detached
      else if live.value.mountId == recorded.value.mountId && live.value.dev == recorded.value.dev then Owned(live.value)
      else Superseded(live.value)
  }

  predicate AllowsInject(action: RecoveryAction) {
    action.DetachThenReinject? || action.ReinjectOnly? || action.DropStale?
  }

  function NormalizeForHealth(action: RecoveryAction, health: EndpointHealth): RecoveryAction {
    if health.Missing? && action.DetachThenReinject? then ReinjectOnly else action
  }

  /** `plan_recovery` */
  function PlanRecovery(verdict: MountVerdict, health: EndpointHealth, poisoned: bool): RecoveryAction {
    if poisoned then RefusePoisoned
    else NormalizeForHealth(
      match verdict
      case StaleNamespace => DropStale
      case Superseded(_) => SkipSuperseded
      case Detached => ReinjectOnly
      case Owned(_) => DetachThenReinject, health)
  }

  // ----- many mounts -----

  function Severity(action: RecoveryAction): nat {
    match action
    case ReinjectOnly => 0
    case DetachThenReinject => 1
    case SkipSuperseded => 2
    case DropStale => 3
    case RefusePoisoned => 4
  }

  /** The gravest of the actions; plain injection when there are none. */
  ghost predicate IsGravest(actions: seq<RecoveryAction>, worst: RecoveryAction) {
    && (actions == [] ==> worst == ReinjectOnly)
    && (actions != [] ==> worst in actions)
    && forall a <- actions :: Severity(a) <= Severity(worst)
  }

  function Graver(a: RecoveryAction, b: RecoveryAction): RecoveryAction {
    if Severity(b) > Severity(a) then b else a
  }

  function Gravest(actions: seq<RecoveryAction>): (worst: RecoveryAction)
    ensures IsGravest(actions, worst)
  {
    if |actions| == 0 then ReinjectOnly
    else if |actions| == 1 then actions[0]
    else
      assert actions == [actions[0]] + actions[1..];
      Graver(actions[0], Gravest(actions[1..]))
  }

  /** `aggregate_actions` */
  method AggregateActions(actions: seq<RecoveryAction>) returns (worst: RecoveryAction)
    ensures IsGravest(actions, worst) && worst == Gravest(actions)
  {
    worst := ReinjectOnly;
    var seen := false;
    for n := 0 to |actions|
      invariant seen == (n > 0)
      invariant IsGravest(actions[..n], worst)
    {
      var action := actions[n];
      assert actions[..n + 1] == actions[..n] + [action];
      if !seen {
        worst, seen := action, true;
        continue;
      }
      if Severity(action) > Severity(worst) {
        worst := action;
      }
    }
    assert actions[..|actions|] == actions;
    GravestIsUnique(actions, worst, Gravest(actions));
  }

  lemma GravestIsUnique(actions: seq<RecoveryAction>, a: RecoveryAction, b: RecoveryAction)
    requires IsGravest(actions, a) && IsGravest(actions, b)
    ensures a == b
  {
  }

  /** On arbitrary lists one refusal does not always refuse the whole: stale outranks superseded. */
  lemma GravestAllowsIff(actions: seq<RecoveryAction>, worst: RecoveryAction)
    requires IsGravest(actions, worst)
    ensures AllowsInject(worst) <==>
            RefusePoisoned !in actions && (SkipSuperseded in actions ==> DropStale in actions)
  {
  }

  // ----- a whole ledger -----

  predicate Stale(ledger: MountLedger, view: View) {
    !view.targetIsCurrent || view.namespace != Some(ledger.namespace)
  }

  /** Another layer than the recorded one is on top of a recorded mount point. */
  predicate TakenOver(ledger: MountLedger, mountPoint: string, view: View) {
    var recorded := RecordedAt(ledger.mounts, NormalizeSyntax(mountPoint));
    recorded.Some? && view.live(mountPoint).Some?
    && (view.live(mountPoint).value.mountId != recorded.value.mountId || view.live(mountPoint).value.dev != recorded.value.dev)
  }

  /** The recorded layer itself is on top. */
  predicate StillOnTop(ledger: MountLedger, mountPoint: string, view: View) {
    var recorded := RecordedAt(ledger.mounts, NormalizeSyntax(mountPoint));
    recorded.Some? && view.live(mountPoint).Some?
    && view.live(mountPoint).value.mountId == recorded.value.mountId && view.live(mountPoint).value.dev == recorded.value.dev
  }

  function MountAction(ledger: MountLedger, mountPoint: string, view: View): RecoveryAction {
    PlanRecovery(ClassifyMount(ledger, mountPoint, view.live(mountPoint), view.namespace, view.targetIsCurrent),
                 view.health(mountPoint), IsPoisoned(ledger))
  }

  function EmptyVerdict(ledger: MountLedger, view: View): MountVerdict {
    if !view.hasPolicyRules then StaleNamespace
    else if view.targetIsCurrent && view.namespace == Some(ledger.namespace) then Detached
    else StaleNamespace
  }

  /** The actions supervision collects: one per recorded mount, or one for the empty ledger. */
  function Actions(ledger: MountLedger, view: View): seq<RecoveryAction> {
    if |ledger.mounts| == 0 then [PlanRecovery(EmptyVerdict(ledger, view), Missing, IsPoisoned(ledger))]
    else seq(|ledger.mounts|, i requires 0 <= i < |ledger.mounts| => MountAction(ledger, ledger.mounts[i].mountPoint, view))
  }

  /** The decision of `supervise_mount_request` for a loaded ledger. */
  method Supervise(ledger: MountLedger, view: View) returns (action: RecoveryAction)
    ensures action == Gravest(Actions(ledger, view))
  {
    var actions: seq<RecoveryAction> := [];
    var poisoned := IsPoisoned(ledger);
    for n := 0 to |ledger.mounts|
      invariant |actions| == n
      invariant forall i :: 0 <= i < n ==> actions[i] == MountAction(ledger, ledger.mounts[i].mountPoint, view)
    {
      var mountPoint := ledger.mounts[n].mountPoint;
      var verdict := ClassifyMount(ledger, mountPoint, view.live(mountPoint), view.namespace, view.targetIsCurrent);
      actions := actions + [PlanRecovery(verdict, view.health(mountPoint), poisoned)];
    }
    if |actions| == 0 {
      actions := [PlanRecovery(EmptyVerdict(ledger, view), Missing, poisoned)];
    }
    assert actions == Actions(ledger, view);
    action := AggregateActions(actions);
  }

  lemma MountActionMeans(ledger: MountLedger, mountPoint: string, view: View)
    ensures var action := MountAction(ledger, mountPoint, view);
            && (action == RefusePoisoned <==> IsPoisoned(ledger))
            && (action == DropStale <==> !IsPoisoned(ledger) && Stale(ledger, view))
            && (action == SkipSuperseded <==> !IsPoisoned(ledger) && !Stale(ledger, view) && TakenOver(ledger, mountPoint, view))
            && (action == DetachThenReinject <==>
                !IsPoisoned(ledger) && !Stale(ledger, view) && StillOnTop(ledger, mountPoint, view) && !view.health(mountPoint).Missing?)
  {
  }

  lemma ActionsMean(ledger: MountLedger, view: View)
    requires |ledger.mounts| > 0
    ensures RefusePoisoned in Actions(ledger, view) <==> IsPoisoned(ledger)
    ensures DropStale in Actions(ledger, view) <==> !IsPoisoned(ledger) && Stale(ledger, view)
    ensures SkipSuperseded in Actions(ledger, view) <==>
            !IsPoisoned(ledger) && !Stale(ledger, view) && exists m <- ledger.mounts :: TakenOver(ledger, m.mountPoint, view)
  {
    var actions := Actions(ledger, view);
    forall i | 0 <= i < |actions|
      ensures actions[i] == MountAction(ledger, ledger.mounts[i].mountPoint, view)
      ensures actions[i] == RefusePoisoned <==> IsPoisoned(ledger)
      ensures actions[i] == DropStale <==> !IsPoisoned(ledger) && Stale(ledger, view)
      ensures actions[i] == SkipSuperseded <==>
              !IsPoisoned(ledger) && !Stale(ledger, view) && TakenOver(ledger, ledger.mounts[i].mountPoint, view)
    {
      MountActionMeans(ledger, ledger.mounts[i].mountPoint, view);
    }
    assert actions[0] in actions;
    if m :| m in ledger.mounts && !IsPoisoned(ledger) && !Stale(ledger, view) && TakenOver(ledger, m.mountPoint, view) {
      var i :| 0 <= i < |ledger.mounts| && ledger.mounts[i] == m;
      assert actions[i] in actions;
    }
  }

  /** Supervision lets injection go on exactly when the ledger is not poisoned and either its
      namespace is gone or no recorded mount point has been taken over. */
  lemma SupervisionMeaning(ledger: MountLedger, view: View, action: RecoveryAction)
    requires IsGravest(Actions(ledger, view), action)
    ensures AllowsInject(action) <==>
            !IsPoisoned(ledger) && (Stale(ledger, view) || forall m <- ledger.mounts :: !TakenOver(ledger, m.mountPoint, view))
  {
    GravestAllowsIff(Actions(ledger, view), action);
    if |ledger.mounts| > 0 {
      ActionsMean(ledger, view);
    }
  }

  /** Supervision is conservative: it injects exactly when every single mount would. */
  lemma SupervisionConservative(ledger: MountLedger, view: View, action: RecoveryAction)
    requires IsGravest(Actions(ledger, view), action)
    ensures AllowsInject(action) <==> forall a <- Actions(ledger, view) :: AllowsInject(a)
  {
    GravestAllowsIff(Actions(ledger, view), action);
    if |ledger.mounts| > 0 {
      ActionsMean(ledger, view);
    }
  }

  // ----- the decision, read from the recorded mounts -----

  /** `m` is what the ledger records for the mount point: the first mount at its normal spelling. */
  ghost predicate IsRecord(ledger: MountLedger, mountPoint: string, m: MountIdentity) {
    exists i :: 0 <= i < |ledger.mounts| && ledger.mounts[i] == m && m.mountPoint == NormalizeSyntax(mountPoint)
      && forall j :: 0 <= j < i ==> ledger.mounts[j].mountPoint != NormalizeSyntax(mountPoint)
  }

  ghost predicate Unrecorded(ledger: MountLedger, mountPoint: string) {
    forall m <- ledger.mounts :: m.mountPoint != NormalizeSyntax(mountPoint)
  }

  lemma {:induction false} RecordedAtIsFirst(mounts: seq<MountIdentity>, mountPoint: string) returns (i: nat)
    ensures i <= |mounts| && forall j :: 0 <= j < i ==> mounts[j].mountPoint != mountPoint
    ensures i < |mounts| ==> mounts[i].mountPoint == mountPoint
    ensures RecordedAt(mounts, mountPoint) == if i < |mounts| then Some(mounts[i]) else None
  {
    i := 0;
    if |mounts| > 0 && mounts[0].mountPoint != mountPoint {
      var k := RecordedAtIsFirst(mounts[1..], mountPoint);
      i := k + 1;
    }
  }

  lemma RecordIff(ledger: MountLedger, mountPoint: string)
    ensures forall m :: RecordedAt(ledger.mounts, NormalizeSyntax(mountPoint)) == Some(m) <==> IsRecord(ledger, mountPoint, m)
    ensures RecordedAt(ledger.mounts, NormalizeSyntax(mountPoint)).None? <==> Unrecorded(ledger, mountPoint)
  {
    var i := RecordedAtIsFirst(ledger.mounts, NormalizeSyntax(mountPoint));
    if i < |ledger.mounts| {
      assert ledger.mounts[i] in ledger.mounts;
      assert IsRecord(ledger, mountPoint, ledger.mounts[i]);
    }
  }

  ghost predicate Matches(layer: Option<LiveMount>, m: MountIdentity) {
    layer.Some? && layer.value.mountId == m.mountId && layer.value.dev == m.dev
  }

  /** Another layer than the recorded one is on top of this mount point. */
  ghost predicate Overtaken(ledger: MountLedger, mountPoint: string, view: View) {
    view.live(mountPoint).Some? && exists m <- ledger.mounts :: IsRecord(ledger, mountPoint, m) && !Matches(view.live(mountPoint), m)
  }

  /** The recorded layer is on top of it, with an endpoint to detach. */
  ghost predicate Detachable(ledger: MountLedger, mountPoint: string, view: View) {
    !view.health(mountPoint).Missing? && exists m <- ledger.mounts :: IsRecord(ledger, mountPoint, m) && Matches(view.live(mountPoint), m)
  }

  /** What each mount point gets, over its record in the ledger. */
  lemma ActionAt(ledger: MountLedger, mountPoint: string, view: View)
    ensures MountAction(ledger, mountPoint, view) ==
            if ledger.detachAttempts >= 3 then RefusePoisoned
            else if !view.targetIsCurrent || view.namespace != Some(ledger.namespace) then DropStale
            else if Overtaken(ledger, mountPoint, view) then SkipSuperseded
            else if Detachable(ledger, mountPoint, view) then DetachThenReinject
            else ReinjectOnly
  {
    RecordIff(ledger, mountPoint);
    var record := RecordedAt(ledger.mounts, NormalizeSyntax(mountPoint));
    assert record.Some? ==> IsRecord(ledger, mountPoint, record.value) && record.value in ledger.mounts;
  }

  /** What supervision decides about a whole ledger, of any length: exactly one of five cases. */
  lemma DecisionMeans(ledger: MountLedger, view: View, action: RecoveryAction)
    requires ledger.mounts != [] && IsGravest(Actions(ledger, view), action)
    ensures var sound := ledger.detachAttempts < 3;
            var live := sound && view.targetIsCurrent && view.namespace == Some(ledger.namespace);
            var over := exists m <- ledger.mounts :: Overtaken(ledger, m.mountPoint, view);
            var detach := exists m <- ledger.mounts :: Detachable(ledger, m.mountPoint, view);
            && (action == RefusePoisoned <==> !sound)
            && (action == DropStale <==> sound && !live)
            && (action == SkipSuperseded <==> live && over)
            && (action == DetachThenReinject <==> live && !over && detach)
            && (action == ReinjectOnly <==> live && !over && !detach)
  {
    var actions := Actions(ledger, view);
    forall m | m in ledger.mounts
      ensures MountAction(ledger, m.mountPoint, view) in actions
    {
      var i :| 0 <= i < |ledger.mounts| && ledger.mounts[i] == m;
      assert actions[i] in actions;
      ActionAt(ledger, m.mountPoint, view);
    }
    forall a | a in actions
      ensures exists m <- ledger.mounts :: a == MountAction(ledger, m.mountPoint, view)
    {
      var i :| 0 <= i < |actions| && actions[i] == a;
      assert ledger.mounts[i] in ledger.mounts;
    }
    var m :| m in ledger.mounts && action == MountAction(ledger, m.mountPoint, view);
    ActionAt(ledger, m.mountPoint, view);
    SeveritiesAt(ledger, view, action);
  }

  lemma SeveritiesAt(ledger: MountLedger, view: View, action: RecoveryAction)
    requires forall m <- ledger.mounts :: Severity(MountAction(ledger, m.mountPoint, view)) <= Severity(action)
    ensures ledger.detachAttempts < 3 && view.targetIsCurrent && view.namespace == Some(ledger.namespace) ==>
              && ((exists m <- ledger.mounts :: Overtaken(ledger, m.mountPoint, view)) ==> Severity(action) >= Severity(SkipSuperseded))
              && ((exists m <- ledger.mounts :: Detachable(ledger, m.mountPoint, view)) ==> Severity(action) >= Severity(DetachThenReinject))
  {
    forall m | m in ledger.mounts
      ensures MountAction(ledger, m.mountPoint, view) == SkipSuperseded ==> Severity(action) >= Severity(SkipSuperseded)
    {
      ActionAt(ledger, m.mountPoint, view);
    }
    if m :| m in ledger.mounts && Overtaken(ledger, m.mountPoint, view) {
      ActionAt(ledger, m.mountPoint, view);
    }
    if m :| m in ledger.mounts && Detachable(ledger, m.mountPoint, view) {
      ActionAt(ledger, m.mountPoint, view);
    }
  }

  /** All recorded mount points are normal and different. */
  ghost predicate DistinctPoints(ledger: MountLedger) {
    && (forall m <- ledger.mounts :: Normal(m.mountPoint))
    && forall i, j :: 0 <= i < j < |ledger.mounts| ==> ledger.mounts[i].mountPoint != ledger.mounts[j].mountPoint
  }

  lemma OwnRecord(ledger: MountLedger, i: nat, m: MountIdentity)
    requires DistinctPoints(ledger) && i < |ledger.mounts|
    ensures IsRecord(ledger, ledger.mounts[i].mountPoint, m) <==> m == ledger.mounts[i]
  {
    assert ledger.mounts[i] in ledger.mounts;
    NormalizedShape(ledger.mounts[i].mountPoint);
    assert IsRecord(ledger, ledger.mounts[i].mountPoint, ledger.mounts[i]);
  }

  lemma OwnCase(ledger: MountLedger, view: View, m: MountIdentity)
    requires DistinctPoints(ledger) && m in ledger.mounts
    ensures Overtaken(ledger, m.mountPoint, view) <==> view.live(m.mountPoint).Some? && !Matches(view.live(m.mountPoint), m)
    ensures Detachable(ledger, m.mountPoint, view) <==> Matches(view.live(m.mountPoint), m) && !view.health(m.mountPoint).Missing?
  {
    var i :| 0 <= i < |ledger.mounts| && ledger.mounts[i] == m;
    forall r
      ensures IsRecord(ledger, m.mountPoint, r) <==> r == m
    {
      OwnRecord(ledger, i, r);
    }
  }

  /** Every recorded layer is on top, with no endpoint missing. */
  ghost predicate AllThere(ledger: MountLedger, view: View) {
    forall m <- ledger.mounts :: Matches(view.live(m.mountPoint), m) && !view.health(m.mountPoint).Missing?
  }

  lemma NoneOvertaken(ledger: MountLedger, view: View)
    requires DistinctPoints(ledger) && AllThere(ledger, view)
    ensures forall m <- ledger.mounts :: Detachable(ledger, m.mountPoint, view) && !Overtaken(ledger, m.mountPoint, view)
  {
    forall m | m in ledger.mounts
      ensures Detachable(ledger, m.mountPoint, view) && !Overtaken(ledger, m.mountPoint, view)
    {
      OwnCase(ledger, view, m);
    }
  }

  /** A sound ledger of any length whose recorded layers are all on top is detached and injected again. */
  lemma AllOnTop(ledger: MountLedger, view: View)
    requires DistinctPoints(ledger) && ledger.mounts != [] && AllThere(ledger, view)
    requires ledger.detachAttempts < 3 && view.targetIsCurrent && view.namespace == Some(ledger.namespace)
    ensures Gravest(Actions(ledger, view)) == DetachThenReinject
  {
    NoneOvertaken(ledger, view);
    DetachDecided(ledger, view, ledger.mounts[0]);
  }

  lemma DetachDecided(ledger: MountLedger, view: View, m0: MountIdentity)
    requires ledger.detachAttempts < 3 && view.targetIsCurrent && view.namespace == Some(ledger.namespace)
    requires m0 in ledger.mounts && Detachable(ledger, m0.mountPoint, view)
    requires forall m <- ledger.mounts :: !Overtaken(ledger, m.mountPoint, view)
    ensures Gravest(Actions(ledger, view)) == DetachThenReinject
  {
    DecisionMeans(ledger, view, Gravest(Actions(ledger, view)));
  }

  /** A ledger without mounts is dropped where no rules are left or its namespace is gone, and otherwise
      injected. */
  lemma EmptyDecision(ledger: MountLedger, view: View, action: RecoveryAction)
    requires ledger.mounts == [] && IsGravest(Actions(ledger, view), action)
    ensures action == if ledger.detachAttempts >= 3 then RefusePoisoned
                      else if view.hasPolicyRules && view.targetIsCurrent && view.namespace == Some(ledger.namespace)
                      then ReinjectOnly else DropStale
  {
  }
}
