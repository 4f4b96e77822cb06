/** How the stored ledger of one process changes over reconcile rounds and pruning: the updates of
    src/mount_ledger.rs and src/mount_identity.rs as src/daemon.rs and src/daemon_mount.rs use them. */
module LedgerRuns {
  import opened Paths
  import opened Text
  import opened LedgerCodec
  import opened Supervisor

  // ----- updates of one ledger -----

  function SaturatingIncrement(n: nat, max: nat): (r: nat)
    requires n <= max
    ensures r <= max
  {
    if n < max then n + 1 else max
  }

  function Recorded(ledger: MountLedger, mounts: seq<MountIdentity>): MountLedger {
    ledger.(generation := SaturatingIncrement(ledger.generation, U64_MAX), mounts := mounts, detachAttempts := 0)
  }

  function Emptied(ledger: MountLedger): MountLedger {
    ledger.(mounts := [], detachAttempts := 0)
  }

  function Failed(ledger: MountLedger): MountLedger {
    ledger.(detachAttempts := SaturatingIncrement(ledger.detachAttempts, U32_MAX))
  }

  /** A ledger loaded for changing. */
  class OpenLedger {
    var value: MountLedger

    constructor (ledger: MountLedger)
      ensures value == ledger
    {
      value := ledger;
    }

    /** `record_mounts` */
    method RecordMounts(mounts: seq<MountIdentity>)
      modifies this
      ensures value == Recorded(old(value), mounts) && !IsPoisoned(value)
    {
      value := value.(generation := SaturatingIncrement(value.generation, U64_MAX));
      value := value.(mounts := mounts);
      value := value.(detachAttempts := 0);
    }

    /** `clear_mounts` */
    method ClearMounts()
      modifies this
      ensures value == Emptied(old(value)) && !IsPoisoned(value)
    {
      value := value.(mounts := []);
      value := value.(detachAttempts := 0);
    }

    /** `record_detach_failure` */
    method RecordDetachFailure() returns (poisoned: bool)
      modifies this
      ensures value == Failed(old(value))
      ensures poisoned == IsPoisoned(value) == (old(value).detachAttempts >= MAX_DETACH_ATTEMPTS - 1)
    {
      value := value.(detachAttempts := SaturatingIncrement(value.detachAttempts, U32_MAX));
      poisoned := IsPoisoned(value);
    }
  }

  // ----- rounds -----

  /** What the kernel and the file system answer during one reload: whether the state file, the
      overlays or the mappings name targets or sessions of their own, whether the layers were
      verified gone and the state file removed, whether writes and removals of the ledger file took
      effect, and the layers the injection left, if it got through. */
  datatype Round = Round(otherTargets: bool, layersGone: bool, stateRemoved: bool, fileWritable: bool,
                         namespace: NamespaceIdentity, startTime: u64,
                         targets: seq<string>, mounted: Option<seq<MountIdentity>>)
  {
    /** The outcome of `clear_previous_mounts`. */
    predicate Cleared() {
      layersGone && stateRemoved
    }
  }

  /** Nothing is recorded that a clean-up would have to take off. */
  predicate Targetless(store: Store, round: Round) {
    !round.otherTargets && (store.ledger.Some? ==> store.ledger.value.mounts == [])
  }

  /** The clean-up removes the ledger: after success, and also without it when nothing is recorded. */
  predicate Drops(store: Store, round: Round) {
    round.stateRemoved && (round.layersGone || Targetless(store, round))
  }

  /** What a host migration meets: the device of the current host session, whether the storage root of
      the app is served by it, and the layer on top of each mount point. */
  datatype Migration = Migration(hostDev: Option<string>, rootOnHost: bool, live: string -> Option<LiveMount>, fileWritable: bool)

  datatype Step =
    | Prune(targetIsCurrent: bool, fileWritable: bool)
    | Migrate(migration: Migration)
    | Reload(view: View, round: Round)

  /** The stored ledger, and how many injections have run. */
  datatype Store = Store(ledger: Option<MountLedger>, injections: nat)

  function Written(store: Store, round: Round, ledger: Option<MountLedger>): Store {
    if round.fileWritable then store.(ledger := ledger) else store
  }

  /** `record_mount_identity` on what the file holds. */
  function Registered(store: Store, packageName: string, pid: i32, round: Round, mounts: seq<MountIdentity>): MountLedger {
    var base := if store.ledger.Some? then store.ledger.value
                else MountLedger(packageName, pid, round.startTime, round.namespace, 0, [], 0);
    var current := base.(targetStartTime := round.startTime, namespace := round.namespace);
    if mounts == [] && round.targets != [] then Emptied(current) else Recorded(current, mounts)
  }

  /** The ledger after `clear_previous_mounts`. */
  function CleanedUp(store: Store, round: Round): Store {
    if Drops(store, round) then Written(store, round, None) else store
  }

  /** The reload itself: clear the previous mounts, give up when that failed too often, inject. */
  function Reloaded(store: Store, packageName: string, pid: i32, round: Round): Store {
    var cleaned := CleanedUp(store, round);
    var counts := !round.Cleared() && cleaned.ledger.Some?;
    var counted := if counts then Written(cleaned, round, Some(Failed(cleaned.ledger.value))) else cleaned;
    if counts && IsPoisoned(Failed(cleaned.ledger.value)) then counted
    else
      var injected := counted.(injections := counted.injections + 1);
      if round.mounted.None? then injected
      else Written(injected, round, Some(Registered(injected, packageName, pid, round, round.mounted.value)))
  }

  /** The whole reconcile attempt of one plan: supervision first, a stale ledger dropped, then the
      reload unless supervision forbids it. */
  function Reconciled(store: Store, packageName: string, pid: i32, view: View, round: Round): Store {
    if store.ledger.None? then Reloaded(store, packageName, pid, round)
    else
      var action := Gravest(Actions(store.ledger.value, view));
      var kept := if action == DropStale then Written(store, round, None) else store;
      if !AllowsInject(action) then kept else Reloaded(kept, packageName, pid, round)
  }

  /** The recorded mounts with the layers now on top of them, if all of these are the host's. */
  function Retaken(mounts: seq<MountIdentity>, migration: Migration): Option<seq<MountIdentity>> {
    if |mounts| == 0 then Some([])
    else
      var live := migration.live(mounts[0].mountPoint);
      if live.None? || migration.hostDev != Some(live.value.dev) then None
      else Behind([MountIdentity(mounts[0].mountPoint, live.value.mountId, live.value.dev, live.value.source)],
                  Retaken(mounts[1..], migration))
  }

  function Behind<T>(front: seq<T>, rest: Option<seq<T>>): Option<seq<T>> {
    if rest.None? then None else Some(front + rest.value)
  }

  lemma BehindGrows<T>(front: seq<T>, x: T, rest: Option<seq<T>>)
    ensures Behind(front, Behind([x], rest)) == Behind(front + [x], rest)
    ensures Behind([], rest) == rest
  {
    if rest.Some? {
      Assoc(front, [x], rest.value);
      assert [] + rest.value == rest.value;
    }
  }

  /** The ledger after a migration, unless it is not one. */
  function Renewed(ledger: MountLedger, migration: Migration): Option<MountLedger> {
    if migration.hostDev.None? || !migration.rootOnHost || ledger.mounts == [] then None
    else match Retaken(ledger.mounts, migration)
      case None => None
      case Some(mounts) => Some(Recorded(ledger, mounts))
  }

  function Migrated(store: Store, migration: Migration): Store {
    if store.ledger.None? || !migration.fileWritable then store
    else match Renewed(store.ledger.value, migration)
      case None => store
      case Some(renewed) => store.(ledger := Some(renewed))
  }

  function Next(store: Store, packageName: string, pid: i32, step: Step): Store {
    match step
    case Prune(current, fileWritable) =>
      if store.ledger.Some? && !current && fileWritable then store.(ledger := None) else store
    case Migrate(migration) => Migrated(store, migration)
    case Reload(view, round) => Reconciled(store, packageName, pid, view, round)
  }

  function Run(store: Store, packageName: string, pid: i32, steps: seq<Step>): Store
    decreases |steps|
  {
    if |steps| == 0 then store
    else Run(Next(store, packageName, pid, steps[0]), packageName, pid, steps[1..])
  }

  /** The ledger file of one process, changed step by step. */
  class LedgerFile {
    const packageName: string
    const pid: i32
    var ledger: Option<MountLedger>
    var injections: nat

    constructor (packageName: string, pid: i32, ledger: Option<MountLedger>)
      ensures this.packageName == packageName && this.pid == pid && Value() == Store(ledger, 0)
    {
      this.packageName, this.pid, this.ledger, this.injections := packageName, pid, ledger, 0;
    }

    function Value(): Store
      reads this
    {
      Store(ledger, injections)
    }

    method Save(updated: MountLedger, round: Round)
      modifies this
      ensures Value() == Written(old(Value()), round, Some(updated))
    {
      if round.fileWritable {
        ledger := Some(updated);
      }
    }

    method Remove(round: Round)
      modifies this
      ensures Value() == Written(old(Value()), round, None)
    {
      if round.fileWritable {
        ledger := None;
      }
    }

    /** `record_mount_identity` */
    method Register(round: Round, mounts: seq<MountIdentity>)
      modifies this
      ensures Value() == Written(old(Value()), round, Some(Registered(old(Value()), packageName, pid, round, mounts)))
    {
      var base := if ledger.Some? then ledger.value
                  else MountLedger(packageName, pid, round.startTime, round.namespace, 0, [], 0);
      var open := new OpenLedger(base.(targetStartTime := round.startTime, namespace := round.namespace));
      if mounts == [] && round.targets != [] {
        open.ClearMounts();
      } else {
        open.RecordMounts(mounts);
      }
      Save(open.value, round);
    }

    /** The ledger side of `clear_previous_mounts`. */
    method ClearPreviousMounts(round: Round) returns (cleared: bool)
      modifies this
      ensures Value() == CleanedUp(old(Value()), round) && cleared == round.Cleared()
    {
      var mounts := if ledger.Some? then ledger.value.mounts else [];
      if mounts == [] && !round.otherTargets {
        if round.stateRemoved {
          Remove(round);
        }
        return round.stateRemoved && round.layersGone;
      }
      cleared := round.layersGone;
      if cleared {
        if !round.stateRemoved {
          cleared := false;
        } else {
          Remove(round);
        }
      }
    }

    /** The ledger side of a reload request in the mount worker. */
    method HandleReload(round: Round) returns (attempted: bool)
      modifies this
      ensures Value() == Reloaded(old(Value()), packageName, pid, round)
      ensures attempted <==> injections == old(injections) + 1
    {
      var cleared := ClearPreviousMounts(round);
      if !cleared && ledger.Some? {
        var open := new OpenLedger(ledger.value);
        var poisoned := open.RecordDetachFailure();
        Save(open.value, round);
        if poisoned {
          return false;
        }
      }
      injections := injections + 1;
      if round.mounted.Some? {
        Register(round, round.mounted.value);
      }
      return true;
    }

    /** Supervision and reload as one reconcile attempt. */
    method Reconcile(view: View, round: Round)
      modifies this
      ensures Value() == Reconciled(old(Value()), packageName, pid, view, round)
    {
      if ledger.Some? {
        var action := Supervise(ledger.value, view);
        if action == DropStale {
          Remove(round);
        }
        if !AllowsInject(action) {
          return;
        }
      }
      var _ := HandleReload(round);
    }

    /** `migrate_stale_shared_host_metadata`, the part about the ledger. */
    method MigrateHost(migration: Migration)
      modifies this
      ensures Value() == Migrated(old(Value()), migration)
    {
      if migration.hostDev.None? || !migration.rootOnHost || ledger.None? || ledger.value.mounts == [] {
        return;
      }
      var mounts := ledger.value.mounts;
      var migrated: seq<MountIdentity> := [];
      var n := 0;
      assert mounts[0..] == mounts;
      BehindGrows([], mounts[0], Retaken(mounts, migration));
      while n < |mounts|
        invariant n <= |mounts| && Value() == old(Value())
        invariant Retaken(mounts, migration) == Behind(migrated, Retaken(mounts[n..], migration))
      {
        var live := migration.live(mounts[n].mountPoint);
        assert mounts[n..][0] == mounts[n] && mounts[n..][1..] == mounts[n + 1..];
        if live.None? || migration.hostDev != Some(live.value.dev) {
          return;
        }
        var taken := MountIdentity(mounts[n].mountPoint, live.value.mountId, live.value.dev, live.value.source);
        BehindGrows(migrated, taken, Retaken(mounts[n + 1..], migration));
        migrated := migrated + [taken];
        n := n + 1;
      }
      assert Retaken(mounts, migration) == Some(migrated + []);
      assert migrated + [] == migrated;
      if migration.fileWritable {
        var open := new OpenLedger(ledger.value);
        open.RecordMounts(migrated);
        ledger := Some(open.value);
      }
    }

    /** `prune_stale` for this file. */
    method PruneStale(targetIsCurrent: bool, fileWritable: bool)
      modifies this
      ensures Value() == Next(old(Value()), packageName, pid, Prune(targetIsCurrent, fileWritable))
    {
      if ledger.Some? && !targetIsCurrent && fileWritable {
        ledger := None;
      }
    }
  }

  // ----- a poisoned ledger -----

  ghost predicate Poisoned(store: Store) {
    store.ledger.Some? && IsPoisoned(store.ledger.value)
  }

  lemma PoisonedRefuses(ledger: MountLedger, view: View)
    requires IsPoisoned(ledger)
    ensures Gravest(Actions(ledger, view)) == RefusePoisoned
  {
    if |ledger.mounts| > 0 {
      ActionsMean(ledger, view);
    }
  }

  /** The step would renew this ledger. */
  ghost predicate Renews(store: Store, step: Step) {
    step.Migrate? && step.migration.fileWritable && store.ledger.Some? && Renewed(store.ledger.value, step.migration).Some?
  }

  /** A poisoned ledger outlives every run in which its process lives and is not migrated to a new
      host, and nothing is injected. */
  lemma {:induction false} PoisonedStays(store: Store, packageName: string, pid: i32, steps: seq<Step>)
    requires Poisoned(store)
    requires forall s <- steps :: (s.Prune? ==> s.targetIsCurrent) && !Renews(store, s)
    ensures Run(store, packageName, pid, steps) == store
    decreases |steps|
  {
    if |steps| > 0 {
      assert steps[0] in steps;
      if steps[0].Reload? {
        PoisonedRefuses(store.ledger.value, steps[0].view);
      }
      PoisonedStays(store, packageName, pid, steps[1..]);
    }
  }

  /** Every recorded mount point has a layer of the current host session on top. */
  ghost predicate AllOnHost(mounts: seq<MountIdentity>, migration: Migration) {
    migration.hostDev.Some?
    && forall m <- mounts :: migration.live(m.mountPoint).Some? && migration.live(m.mountPoint).value.dev == migration.hostDev.value
  }

  lemma {:induction false} RetakenMeans(mounts: seq<MountIdentity>, migration: Migration)
    requires migration.hostDev.Some?
    ensures Retaken(mounts, migration).Some? <==> AllOnHost(mounts, migration)
    ensures Retaken(mounts, migration).Some? ==>
              var taken := Retaken(mounts, migration).value;
              |taken| == |mounts| && forall i :: 0 <= i < |mounts| ==>
                var live := migration.live(mounts[i].mountPoint).value;
                taken[i] == MountIdentity(mounts[i].mountPoint, live.mountId, live.dev, live.source)
  {
    if |mounts| > 0 {
      RetakenMeans(mounts[1..], migration);
      assert mounts == [mounts[0]] + mounts[1..];
    }
  }

  /** A migration takes exactly when the ledger can be written, records something, and the storage root
      and every recorded mount point are the current host's. It then records the layers that are on top
      now at the same mount points, one generation on and with no failures; otherwise it changes
      nothing. */
  lemma MigrationMeans(store: Store, packageName: string, pid: i32, migration: Migration)
    ensures Renews(store, Migrate(migration)) <==>
            && migration.fileWritable && migration.rootOnHost
            && store.ledger.Some? && store.ledger.value.mounts != [] && AllOnHost(store.ledger.value.mounts, migration)
    ensures !Renews(store, Migrate(migration)) ==> Next(store, packageName, pid, Migrate(migration)) == store
    ensures Renews(store, Migrate(migration)) ==>
              var old', next := store.ledger.value, Next(store, packageName, pid, Migrate(migration));
              && next.injections == store.injections && next.ledger.Some? && next.ledger.value.detachAttempts == 0
              && next.ledger.value == old'.(generation := next.ledger.value.generation, detachAttempts := 0, mounts := next.ledger.value.mounts)
              && next.ledger.value.generation == (if old'.generation < U64_MAX then old'.generation + 1 else U64_MAX)
              && |next.ledger.value.mounts| == |old'.mounts|
              && forall i :: 0 <= i < |old'.mounts| ==>
                   var m, live := next.ledger.value.mounts[i], migration.live(old'.mounts[i].mountPoint).value;
                   && m.mountPoint == old'.mounts[i].mountPoint
                   && m.mountId == live.mountId && m.dev == live.dev && m.source == live.source
  {
    if store.ledger.Some? && migration.hostDev.Some? {
      RetakenMeans(store.ledger.value.mounts, migration);
    }
  }

  /** A migration that takes makes any ledger sound, a poisoned one too, and injects nothing. */
  lemma MigrationRevives(store: Store, packageName: string, pid: i32, step: Step)
    requires Renews(store, step)
    ensures var next := Next(store, packageName, pid, step);
            next.ledger.Some? && !Poisoned(next) && next.ledger.value.detachAttempts == 0 && next.injections == store.injections
  {
  }

  // ----- how a ledger gets poisoned -----

  ghost predicate Attempts(store: Store, n: nat) {
    store.ledger.Some? && store.ledger.value.detachAttempts == n
  }

  /** The view leaves this ledger to the reload: alive, in its namespace, nothing taken over. */
  ghost predicate Hands(view: View, ledger: MountLedger) {
    && !Stale(ledger, view)
    && (forall m <- ledger.mounts :: !TakenOver(ledger, m.mountPoint, view))
    && (ledger.mounts == [] ==> view.hasPolicyRules)
  }

  /** A sound ledger that the view leaves to the reload. */
  ghost predicate HandedOver(store: Store, view: View) {
    store.ledger.Some? && !IsPoisoned(store.ledger.value) && Hands(view, store.ledger.value)
  }

  /** These are the ledgers that supervision hands over to a reload without dropping them. */
  lemma HandedOverMeans(store: Store, view: View)
    requires store.ledger.Some?
    ensures HandedOver(store, view) <==>
            var action := Gravest(Actions(store.ledger.value, view)); AllowsInject(action) && action != DropStale
  {
    var ledger := store.ledger.value;
    if |ledger.mounts| > 0 {
      SupervisionMeaning(ledger, view, Gravest(Actions(ledger, view)));
      ActionsMean(ledger, view);
    }
  }

  /** An unverified clean-up that the ledger counts. */
  ghost predicate Counted(store: Store, round: Round) {
    !round.Cleared() && round.fileWritable && !Drops(store, round)
  }

  /** One reload of a sound ledger poisons it exactly when its clean-up is the third in a row to be
      counted as failed. */
  lemma PoisonedByStep(store: Store, packageName: string, pid: i32, view: View, round: Round)
    requires HandedOver(store, view)
    ensures Poisoned(Reconciled(store, packageName, pid, view, round)) <==>
            Counted(store, round) && Attempts(store, MAX_DETACH_ATTEMPTS - 1)
  {
    HandedOverMeans(store, view);
  }

  /** A failed clean-up counts only until an injection gets through: that resets the count. */
  lemma CountAfterFailure(store: Store, packageName: string, pid: i32, view: View, round: Round)
    requires HandedOver(store, view) && Counted(store, round)
    requires store.ledger.value.detachAttempts < MAX_DETACH_ATTEMPTS - 1
    ensures Attempts(Reconciled(store, packageName, pid, view, round),
                     if round.mounted.Some? then 0 else store.ledger.value.detachAttempts + 1)
    ensures Reconciled(store, packageName, pid, view, round).injections == store.injections + 1
  {
    HandedOverMeans(store, view);
  }

  /** A failed clean-up with nothing recorded drops the ledger instead of counting, and injects. */
  lemma UncountedFailure(store: Store, packageName: string, pid: i32, view: View, round: Round)
    requires HandedOver(store, view) && round.fileWritable && round.stateRemoved && Targetless(store, round)
    ensures var next := Reconciled(store, packageName, pid, view, round);
            && next.injections == store.injections + 1
            && (round.mounted.None? ==> next.ledger.None?)
            && (round.mounted.Some? ==> Attempts(next, 0))
  {
    HandedOverMeans(store, view);
  }

  /** The clean-up removes the ledger exactly when the state file is gone and either all layers are too or
      there was nothing to take off: no mount recorded and no target named elsewhere. */
  lemma CleanUpMeans(store: Store, round: Round)
    ensures var nothing := store.ledger.Some? && store.ledger.value.mounts == [] && !round.otherTargets;
            var removed := round.fileWritable && round.stateRemoved && (round.layersGone || nothing);
            CleanedUp(store, round) == Store(if removed then None else store.ledger, store.injections)
  {
  }

  /** What the ledger holds after a reload that injected and could write it: the mounts the injection
      left, for the process instance and namespace it ran in, with no failures. A ledger that was not
      dropped keeps its name and process; one that was starts anew. Only an injection that was asked for
      targets and left none is not a new generation. */
  lemma InjectionRecorded(store: Store, packageName: string, pid: i32, round: Round)
    requires round.fileWritable && round.mounted.Some?
    requires Reloaded(store, packageName, pid, round).injections == store.injections + 1
    ensures var kept, next := store.ledger.Some? && !Drops(store, round), Reloaded(store, packageName, pid, round).ledger;
            var from := if kept then store.ledger.value.generation else 0;
            && next.Some?
            && next.value.mounts == round.mounted.value && next.value.detachAttempts == 0
            && next.value.targetStartTime == round.startTime && next.value.namespace == round.namespace
            && next.value.packageName == (if kept then store.ledger.value.packageName else packageName)
            && next.value.targetPid == (if kept then store.ledger.value.targetPid else pid)
            && next.value.generation == (if (round.mounted == Some([]) && round.targets != []) || from == U64_MAX then from else from + 1)
  {
  }

  /** What such a ledger is good for: a supervision that finds the recorded layers on top, in the same
      instance and namespace, detaches and injects again. */
  lemma RecordedIsRecognised(store: Store, packageName: string, pid: i32, round: Round, view: View)
    requires round.fileWritable && round.mounted.Some? && round.mounted.value != []
    requires Reloaded(store, packageName, pid, round).injections == store.injections + 1
    requires view.targetIsCurrent && view.namespace == Some(round.namespace)
    requires forall m <- round.mounted.value ::
               Normal(m.mountPoint) && Matches(view.live(m.mountPoint), m) && !view.health(m.mountPoint).Missing?
    requires forall i, j :: 0 <= i < j < |round.mounted.value| ==> round.mounted.value[i].mountPoint != round.mounted.value[j].mountPoint
    ensures var next := Reloaded(store, packageName, pid, round).ledger;
            next.Some? && Gravest(Actions(next.value, view)) == DetachThenReinject
  {
    InjectionRecorded(store, packageName, pid, round);
    var ledger := Reloaded(store, packageName, pid, round).ledger.value;
    AllOnTop(ledger, view);
  }

  /** Pruning removes the ledger exactly when its process instance is gone and the file can be removed. */
  lemma PruneMeans(store: Store, packageName: string, pid: i32, targetIsCurrent: bool, fileWritable: bool)
    ensures Next(store, packageName, pid, Prune(targetIsCurrent, fileWritable)) ==
            Store(if !targetIsCurrent && fileWritable then None else store.ledger, store.injections)
  {
  }
}
