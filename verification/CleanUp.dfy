/** Where the outcome of a clean-up comes from: the unmount loop over every recorded target, from
    `clear_previous_mounts` of src/daemon_mount.rs. */
module CleanUp {
  import opened Paths
  import opened Text
  import opened LedgerCodec
  import opened LedgerRuns
  import opened LedgerPoison
  import opened UnmountStack

  /** What the clean-up meets: the layers and the kernel's answers at each target, the targets whose
      redirect root a reload keeps, the known session devices, whether the request has path mappings,
      and whether each recorded session could be ended. */
  datatype Scene = Scene(stacks: string -> seq<LiveMount>, kernels: string -> Kernel, keeps: string -> bool,
                         knownDevs: set<string>, mapped: bool, ended: seq<bool>)

  /** With path mappings the ledger does not hold back newer layers. */
  function JobFor(target: string, ledger: Option<MountLedger>, scene: Scene): Job {
    Job(target, if scene.mapped then None else ledger, scene.knownDevs)
  }

  predicate TargetGone(target: string, ledger: Option<MountLedger>, scene: Scene) {
    scene.keeps(target) || Clearing(JobFor(target, ledger, scene), scene.kernels(target), scene.stacks(target)).cleared
  }

  predicate LayersGone(targets: seq<string>, ledger: Option<MountLedger>, scene: Scene) {
    && (forall i :: 0 <= i < |targets| ==> TargetGone(targets[i], ledger, scene))
    && (forall i :: 0 <= i < |scene.ended| ==> scene.ended[i])
  }

  /** One loop of the clean-up: one failure makes its outcome unverified, and all are worked. */
  method WorkAll<T>(works: T -> bool, items: seq<T>) returns (all: bool)
    ensures all <==> forall i :: 0 <= i < |items| ==> works(items[i])
  {
    all := true;
    for n := 0 to |items|
      invariant all <==> forall i :: 0 <= i < n ==> works(items[i])
    {
      if !works(items[n]) {
        all := false;
      }
    }
  }

  /** The loop over the targets, then the one over the sessions. */
  method ClearTargets(targets: seq<string>, ledger: Option<MountLedger>, scene: Scene) returns (gone: bool)
    ensures gone == LayersGone(targets, ledger, scene)
  {
    gone := WorkAll((target: string) => TargetGone(target, ledger, scene), targets);
    var ended := WorkAll((one: bool) => one, scene.ended);
    gone := gone && ended;
  }

  /** At this target only the module's own layers, no more than the limit, and a kernel that unmounts. */
  ghost predicate Easy(target: string, ledger: Option<MountLedger>, scene: Scene) {
    var stack, job := scene.stacks(target), JobFor(target, ledger, scene);
    && '\0' !in target && |stack| <= MAX_UNMOUNT_PASSES_HARD_LIMIT
    && (forall n :: scene.kernels(target).answer(n).Unmounted?)
    && forall i :: 0 <= i < |stack| ==> Removable(job, stack[i])
  }

  ghost predicate AllEasy(targets: seq<string>, ledger: Option<MountLedger>, scene: Scene) {
    && (forall i :: 0 <= i < |targets| ==> scene.keeps(targets[i]) || Easy(targets[i], ledger, scene))
    && (forall i :: 0 <= i < |scene.ended| ==> scene.ended[i])
  }

  lemma EasyIsGone(target: string, ledger: Option<MountLedger>, scene: Scene)
    requires Easy(target, ledger, scene)
    ensures TargetGone(target, ledger, scene)
  {
    OwnStackComesOff(JobFor(target, ledger, scene), scene.kernels(target), scene.stacks(target));
  }

  lemma EasyCleanUp(targets: seq<string>, ledger: Option<MountLedger>, scene: Scene)
    requires AllEasy(targets, ledger, scene)
    ensures LayersGone(targets, ledger, scene)
  {
    forall i | 0 <= i < |targets|
      ensures TargetGone(targets[i], ledger, scene)
    {
      if !scene.keeps(targets[i]) {
        EasyIsGone(targets[i], ledger, scene);
      }
    }
  }

  /** The clean-up is verified only if every target is kept or was cleared by its own loop, and every
      session was ended; one that is not holds it back. */
  lemma GoneIff(targets: seq<string>, ledger: Option<MountLedger>, scene: Scene)
    ensures LayersGone(targets, ledger, scene) <==>
            && (forall target <- targets :: !scene.keeps(target) ==>
                  Clearing(Job(target, if scene.mapped then None else ledger, scene.knownDevs),
                           scene.kernels(target), scene.stacks(target)).cleared)
            && false !in scene.ended
  {
    forall target
      ensures target in targets <==> exists i :: 0 <= i < |targets| && targets[i] == target
    {
    }
    forall i | 0 <= i < |targets|
      ensures targets[i] in targets
    {
    }
  }

  /** A layer newer than the recorded ones holds its target back only for a request without path mappings;
      with them it is taken off like any other layer of the module. */
  lemma NewerLayerHoldsBack(target: string, ledger: Option<MountLedger>, scene: Scene, layer: LiveMount)
    requires scene.stacks(target) == [layer] && !scene.keeps(target) && '\0' !in target
    requires Supersedes(Job(target, ledger, scene.knownDevs), layer)
    ensures !scene.mapped ==> !TargetGone(target, ledger, scene)
    ensures scene.mapped && Ours(Job(target, None, scene.knownDevs), layer) && scene.kernels(target).answer(0).Unmounted? ==>
              TargetGone(target, ledger, scene)
  {
    var job := JobFor(target, ledger, scene);
    assert [] + [layer] == [layer];
    TopLayer(job, scene.kernels(target), [], layer);
    ClearedMeans(job, scene.kernels(target), [layer]);
  }

  // ----- over whole runs -----

  /** The outcome of the clean-up in this round is that of the loops on an easy scene. */
  ghost predicate Served(store: Store, round: Round, targets: seq<string>, scene: Scene) {
    && round.stateRemoved && round.layersGone == LayersGone(targets, store.ledger, scene)
    && AllEasy(targets, store.ledger, scene)
  }

  ghost predicate ServedAlong(store: Store, packageName: string, pid: i32, steps: seq<Step>)
    decreases |steps|
  {
    |steps| > 0 ==>
      && (steps[0].Reload? ==> exists targets, scene :: Served(store, steps[0].round, targets, scene))
      && ServedAlong(Next(store, packageName, pid, steps[0]), packageName, pid, steps[1..])
  }

  lemma ServedIsCleared(store: Store, step: Step)
    requires step.Reload? && exists targets, scene :: Served(store, step.round, targets, scene)
    ensures step.round.Cleared()
  {
    var targets, scene :| Served(store, step.round, targets, scene);
    EasyCleanUp(targets, store.ledger, scene);
  }

  /** As long as each target holds only own layers within the limit and the kernel unmounts them, no
      failure is counted over any run, and a sound ledger stays sound. */
  lemma {:induction false} ServedNeverPoisons(store: Store, packageName: string, pid: i32, steps: seq<Step>)
    requires !Poisoned(store) && ServedAlong(store, packageName, pid, steps)
    requires forall s <- steps :: s.Prune? ==> s.targetIsCurrent
    ensures Count(Run(store, packageName, pid, steps)) <= Count(store) && !Poisoned(Run(store, packageName, pid, steps))
    decreases |steps|
  {
    if |steps| > 0 {
      assert steps[0] in steps;
      EffectCounts(store, packageName, pid, steps[0]);
      if steps[0].Reload? {
        ServedIsCleared(store, steps[0]);
      }
      ServedNeverPoisons(Next(store, packageName, pid, steps[0]), packageName, pid, steps[1..]);
    }
  }
}
