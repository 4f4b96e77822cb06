/** Taking the module's own layers off one mount point, from the verified unmount loop of
    src/daemon_mount.rs and the choice of the top layer in src/platform/mountinfo.rs. */
module UnmountStack {
  import opened Paths
  import opened Text
  import opened LedgerCodec
  import opened MountSource

  const MAX_UNMOUNT_PASSES_HARD_LIMIT: nat := 128
  const ENOENT: int := 2
  const EINVAL: int := 22

  // ----- the top of a stack of layers -----

  function Ids(entries: seq<LiveMount>): set<u64> {
    set e <- entries :: e.mountId
  }

  /** Another entry of the same mount point names this one as its parent. */
  predicate IsCovered(entries: seq<LiveMount>, layer: LiveMount) {
    exists e <- entries :: e.parentMountId == layer.mountId
  }

  ghost predicate IsTopmost(entries: seq<LiveMount>, top: Option<LiveMount>) {
    match top
    case None => forall e <- entries :: IsCovered(entries, e)
    case Some(t) =>
      exists k :: 0 <= k < |entries| && entries[k] == t && !IsCovered(entries, t)
        && forall j :: k < j < |entries| ==> IsCovered(entries, entries[j])
  }

  /** `topmost_by_stack`: the last entry in file order that no other entry lies on. */
  method TopmostByStack(entries: seq<LiveMount>) returns (top: Option<LiveMount>)
    ensures IsTopmost(entries, top)
  {
    var ids := Ids(entries);
    var covered := set e <- entries | e.parentMountId in ids :: e.parentMountId;
    top := None;
    ghost var at := 0;
    for n := 0 to |entries|
      invariant top.None? ==> forall j :: 0 <= j < n ==> IsCovered(entries, entries[j])
      invariant top.Some? ==> 0 <= at < n && entries[at] == top.value && !IsCovered(entries, top.value)
      invariant top.Some? ==> forall j :: at < j < n ==> IsCovered(entries, entries[j])
    {
      assert entries[n].mountId in ids;
      if entries[n].mountId in covered {
        continue;
      }
      assert !IsCovered(entries, entries[n]);
      top, at := Some(entries[n]), n;
    }
  }

  /** The layers of one mount point from the bottom up: each names the one below it as its parent. */
  ghost predicate Chain(stack: seq<LiveMount>) {
    && (forall i, j :: 0 <= i < j < |stack| ==> stack[i].mountId != stack[j].mountId)
    && (forall i :: 0 < i < |stack| ==> stack[i].parentMountId == stack[i - 1].mountId)
    && (|stack| > 0 ==> forall i :: 0 <= i < |stack| ==> stack[i].mountId != stack[0].parentMountId)
  }

  type Stack = stack: seq<LiveMount> | Chain(stack)

  function Below(stack: Stack): Stack
    requires |stack| > 0
  {
    stack[..|stack| - 1]
  }

  function Last<T>(s: seq<T>): Option<T> {
    if |s| == 0 then None else Some(s[|s| - 1])
  }

  lemma TopIsUncovered(stack: seq<LiveMount>, i: nat)
    requires Chain(stack) && i < |stack|
    ensures IsCovered(stack, stack[i]) <==> i < |stack| - 1
  {
    if i < |stack| - 1 {
      assert stack[i + 1] in stack && stack[i + 1].parentMountId == stack[i].mountId;
    } else {
      forall e | e in stack
        ensures e.parentMountId != stack[i].mountId
      {
        var k :| 0 <= k < |stack| && stack[k] == e;
        if k > 0 {
          assert e.parentMountId == stack[k - 1].mountId;
        }
      }
    }
  }

  lemma SameMembers(a: seq<LiveMount>, b: seq<LiveMount>, e: LiveMount)
    requires multiset(a) == multiset(b)
    ensures e in a <==> e in b
  {
    assert e in multiset(a) <==> e in multiset(b);
  }

  lemma SameCover(a: seq<LiveMount>, b: seq<LiveMount>, e: LiveMount)
    requires multiset(a) == multiset(b) && IsCovered(a, e)
    ensures IsCovered(b, e)
  {
    var f :| f in a && f.parentMountId == e.mountId;
    SameMembers(a, b, f);
  }

  lemma TopmostIsUncovered(entries: seq<LiveMount>, top: Option<LiveMount>)
    requires IsTopmost(entries, top)
    ensures top.Some? ==> top.value in entries && !IsCovered(entries, top.value)
  {
  }

  /** In whatever order the mount table lists the layers, the top of the stack is found. */
  lemma TopmostIsTop(stack: seq<LiveMount>, entries: seq<LiveMount>, top: Option<LiveMount>)
    requires Chain(stack) && multiset(entries) == multiset(stack) && IsTopmost(entries, top)
    ensures top == Last(stack)
  {
    TopmostIsUncovered(entries, top);
    if top.Some? {
      SameMembers(entries, stack, top.value);
      var i :| 0 <= i < |stack| && stack[i] == top.value;
      TopIsUncovered(stack, i);
      if i < |stack| - 1 {
        SameCover(stack, entries, top.value);
      }
    } else if |stack| > 0 {
      NoneIsEmpty(stack, entries);
    }
  }

  lemma NoneIsEmpty(stack: seq<LiveMount>, entries: seq<LiveMount>)
    requires Chain(stack) && multiset(entries) == multiset(stack) && IsTopmost(entries, None)
    ensures stack == []
  {
    if |stack| > 0 {
      var t := stack[|stack| - 1];
      SameMembers(entries, stack, t);
      SameCover(entries, stack, t);
      TopIsUncovered(stack, |stack| - 1);
    }
  }

  // ----- what may be taken off -----

  datatype Job = Job(target: string, ledger: Option<MountLedger>, knownDevs: set<string>)

  function PackageOf(job: Job): string {
    if job.ledger.Some? then job.ledger.value.packageName else ""
  }

  /** Ids the ledger records for this target. */
  function RecordedIds(job: Job): set<u64> {
    if job.ledger.None? then {}
    else set m <- job.ledger.value.mounts | m.mountPoint == NormalizeSyntax(job.target) :: m.mountId
  }

  /** Newer than everything the ledger records for this target. */
  predicate IsNewer(job: Job, layer: LiveMount) {
    RecordedIds(job) != {} && forall id <- RecordedIds(job) :: layer.mountId > id
  }

  predicate IsBarrier(layer: LiveMount) {
    layer.fsType == "tmpfs" && layer.root == "/"
  }

  predicate IsOwnedByDev(job: Job, layer: LiveMount) {
    && layer.dev != "" && "fuse" <= layer.fsType
    && (layer.dev in job.knownDevs ||
        (job.ledger.Some? && exists m <- job.ledger.value.mounts :: m.dev == layer.dev))
  }

  predicate IsOwned(job: Job, layer: LiveMount) {
    IsBarrier(layer) || IsOwnedByDev(job, layer) ||
    IsModuleRedirectMount(layer.source, layer.root, job.target, PackageOf(job))
  }

  /** A layer the loop may take off: the module's, and not of a session newer than the ledger. */
  predicate Removable(job: Job, layer: LiveMount) {
    IsOwned(job, layer) && !IsNewer(job, layer)
  }

  /** A system view of an app's own directory, left in place and counted as clear. */
  predicate IsKeptView(job: Job, layer: LiveMount) {
    !IsOwned(job, layer) && !IsNewer(job, layer) && RootIsAppPrivateDirectory(layer.root)
  }

  /** What the loop does about the top layer: take it off, leave it and call the target clear, or
      give up. */
  datatype Judgement = Take | Keep | Refuse

  function JudgementOf(job: Job, layer: LiveMount): Judgement {
    if Removable(job, layer) then Take else if IsKeptView(job, layer) then Keep else Refuse
  }

  function Judging(job: Job): LiveMount -> Judgement {
    layer => JudgementOf(job, layer)
  }

  ghost predicate Judges(judge: LiveMount -> Judgement, job: Job) {
    forall layer {:trigger JudgementOf(job, layer)} :: judge(layer) == JudgementOf(job, layer)
  }

  /** The tests of the loop body, in their order. */
  method JudgeLayer(job: Job, layer: LiveMount, ghost judge: LiveMount -> Judgement) returns (judgement: Judgement)
    requires Judges(judge, job)
    ensures judgement == judge(layer)
  {
    assert judge(layer) == JudgementOf(job, layer);
    var recorded := RecordedIds(job);
    if job.ledger.Some? && recorded != {} {
      if layer.mountId in recorded {
        // Nothing is decided here: the ownership test below still applies.
      } else if IsNewer(job, layer) {
        return Refuse;
      }
    }
    if !IsBarrier(layer) && !IsOwnedByDev(job, layer)
       && !IsModuleRedirectMount(layer.source, layer.root, job.target, PackageOf(job))
    {
      return if RootIsAppPrivateDirectory(layer.root) then Keep else Refuse;
    }
    if job.ledger.Some? && IsNewer(job, layer) {
      return Refuse;
    }
    return Take;
  }

  // ----- the loop -----

  datatype Answer = Unmounted | Failed(errno: int)

  predicate AlreadyGone(answer: Answer) {
    answer == Failed(EINVAL) || answer == Failed(ENOENT)
  }

  /** What the kernel does: the order in which it lists the layers, and its answer to every pass. */
  datatype Kernel = Kernel(listing: seq<LiveMount> -> seq<LiveMount>, answer: nat -> Answer)

  ghost predicate ListsAll(kernel: Kernel) {
    forall s :: multiset(kernel.listing(s)) == multiset(s)
  }

  type HonestKernel = kernel: Kernel | ListsAll(kernel) ghost witness Kernel((s: seq<LiveMount>) => s, (n: nat) => Unmounted)

  datatype Outcome = Outcome(cleared: bool, left: seq<LiveMount>, gone: bool)

  /** The loop as a function of the stack; `gone` records that the kernel called the target gone. */
  function Peel(judge: LiveMount -> Judgement, nameable: bool, answer: nat -> Answer,
                stack: seq<LiveMount>, passes: nat): Outcome
    decreases |stack|
  {
    if |stack| == 0 then Outcome(true, stack, false)
    else
      match judge(stack[|stack| - 1])
      case Keep => Outcome(true, stack, false)
      case Refuse => Outcome(false, stack, false)
      case Take =>
        if passes >= MAX_UNMOUNT_PASSES_HARD_LIMIT || !nameable then Outcome(false, stack, false)
        else if answer(passes).Unmounted? then Peel(judge, nameable, answer, stack[..|stack| - 1], passes + 1)
        else Outcome(AlreadyGone(answer(passes)), stack, AlreadyGone(answer(passes)))
  }

  function Clearing(job: Job, kernel: Kernel, stack: seq<LiveMount>): Outcome {
    Peel(Judging(job), '\0' !in job.target, kernel.answer, stack, 0)
  }

  /** The layers of the calling namespace at one mount point. */
  class MountTable {
    var stack: Stack

    constructor (stack: Stack)
      ensures this.stack == stack
    {
      this.stack := stack;
    }

    /** `topmost_live_mount` */
    method TopmostLiveMount(kernel: HonestKernel) returns (top: Option<LiveMount>)
      ensures top == Last(stack)
    {
      var entries := kernel.listing(stack);
      top := TopmostByStack(entries);
      TopmostIsTop(stack, entries, top);
    }

    /** `umount2` */
    method Umount(kernel: HonestKernel, passes: nat) returns (answer: Answer)
      requires |stack| > 0
      modifies this
      ensures answer == kernel.answer(passes)
      ensures stack == if answer.Unmounted? then Below(old(stack)) else old(stack)
    {
      answer := kernel.answer(passes);
      if answer.Unmounted? {
        stack := Below(stack);
      }
    }

    /** `clear_mount_target_stack_verified` */
    method ClearVerified(job: Job, kernel: HonestKernel) returns (cleared: bool)
      modifies this
      ensures cleared == Clearing(job, kernel, old(stack)).cleared
      ensures stack == Clearing(job, kernel, old(stack)).left
    {
      cleared := PeelOff(job, kernel, Judging(job));
    }

    /** The loop, with the judgement of a layer given by name. */
    method PeelOff(job: Job, kernel: HonestKernel, ghost judge: LiveMount -> Judgement) returns (cleared: bool)
      requires Judges(judge, job)
      modifies this
      ensures var out := Peel(judge, '\0' !in job.target, kernel.answer, old(stack), 0);
              cleared == out.cleared && stack == out.left
    {
      var passes := 0;
      ghost var nameable := '\0' !in job.target;
      while true
        invariant Peel(judge, nameable, kernel.answer, old(stack), 0) == Peel(judge, nameable, kernel.answer, stack, passes)
        decreases |stack|
      {
        var live := TopmostLiveMount(kernel);
        if live.None? {
          return true;
        }
        var judgement := JudgeLayer(job, live.value, judge);
        if judgement != Take {
          return judgement == Keep;
        }
        if passes >= MAX_UNMOUNT_PASSES_HARD_LIMIT {
          return false;
        }
        if '\0' in job.target {
          return false;
        }
        var answer := Umount(kernel, passes);
        if !answer.Unmounted? {
          return AlreadyGone(answer);
        }
        passes := passes + 1;
      }
    }
  }

  // ----- what the loop guarantees -----

  ghost predicate AllTaken(judge: LiveMount -> Judgement, layers: seq<LiveMount>) {
    forall i :: 0 <= i < |layers| ==> judge(layers[i]) == Take
  }

  lemma {:induction false} PeelIsSafe(judge: LiveMount -> Judgement, nameable: bool, answer: nat -> Answer,
                                      stack: seq<LiveMount>, passes: nat)
    requires passes <= MAX_UNMOUNT_PASSES_HARD_LIMIT
    ensures var left := Peel(judge, nameable, answer, stack, passes).left;
            && left <= stack && AllTaken(judge, stack[|left|..])
            && |stack| - |left| <= MAX_UNMOUNT_PASSES_HARD_LIMIT - passes
    decreases |stack|
  {
    if |stack| > 0 && judge(stack[|stack| - 1]) == Take && passes < MAX_UNMOUNT_PASSES_HARD_LIMIT
       && nameable && answer(passes).Unmounted?
    {
      var below := stack[..|stack| - 1];
      PeelIsSafe(judge, nameable, answer, below, passes + 1);
      var left := Peel(judge, nameable, answer, stack, passes).left;
      assert stack[|left|..] == below[|left|..] + [stack[|stack| - 1]];
    }
  }

  lemma {:induction false} PeelMeans(judge: LiveMount -> Judgement, nameable: bool, answer: nat -> Answer,
                                     stack: seq<LiveMount>, passes: nat)
    ensures var out := Peel(judge, nameable, answer, stack, passes);
            out.cleared <==> out.gone || out.left == [] || judge(out.left[|out.left| - 1]) == Keep
    decreases |stack|
  {
    if |stack| > 0 && judge(stack[|stack| - 1]) == Take && passes < MAX_UNMOUNT_PASSES_HARD_LIMIT
       && nameable && answer(passes).Unmounted?
    {
      PeelMeans(judge, nameable, answer, stack[..|stack| - 1], passes + 1);
    }
  }

  lemma {:induction false} PeelIsThorough(judge: LiveMount -> Judgement, answer: nat -> Answer,
                                          stack: seq<LiveMount>, passes: nat)
    requires passes <= MAX_UNMOUNT_PASSES_HARD_LIMIT && forall n :: answer(n).Unmounted?
    ensures var out := Peel(judge, true, answer, stack, passes);
            && !out.gone
            && (out.left == [] || judge(out.left[|out.left| - 1]) != Take
                || |stack| - |out.left| == MAX_UNMOUNT_PASSES_HARD_LIMIT - passes)
    decreases |stack|
  {
    if |stack| > 0 && judge(stack[|stack| - 1]) == Take && passes < MAX_UNMOUNT_PASSES_HARD_LIMIT {
      PeelIsThorough(judge, answer, stack[..|stack| - 1], passes + 1);
    }
  }

  lemma TakenIsRemovable(job: Job, judge: LiveMount -> Judgement, stack: seq<LiveMount>, left: seq<LiveMount>)
    requires Judges(judge, job) && left <= stack && AllTaken(judge, stack[|left|..])
    ensures forall i :: |left| <= i < |stack| ==> Removable(job, stack[i])
  {
    forall i | |left| <= i < |stack|
      ensures Removable(job, stack[i])
    {
      assert stack[i] == stack[|left|..][i - |left|];
      assert judge(stack[i]) == JudgementOf(job, stack[i]);
    }
  }

  /** Only removable layers are taken off, from the top down and at most 128 of them; the layers
      below are untouched. */
  lemma ClearingIsSafe(job: Job, kernel: Kernel, stack: seq<LiveMount>)
    ensures var left := Clearing(job, kernel, stack).left;
            && left <= stack && |stack| - |left| <= MAX_UNMOUNT_PASSES_HARD_LIMIT
            && forall i :: |left| <= i < |stack| ==> Removable(job, stack[i])
  {
    PeelIsSafe(Judging(job), '\0' !in job.target, kernel.answer, stack, 0);
    TakenIsRemovable(job, Judging(job), stack, Clearing(job, kernel, stack).left);
  }

  /** Success is exactly this: the kernel called the target gone, nothing is left, or a system view of
      an app's own directory is on top. */
  ghost predicate RightlyCleared(job: Job, out: Outcome) {
    out.cleared <==> out.gone || out.left == [] || IsKeptView(job, out.left[|out.left| - 1])
  }

  lemma KeepIsKeptView(job: Job, judge: LiveMount -> Judgement, out: Outcome)
    requires Judges(judge, job)
    requires out.cleared <==> out.gone || out.left == [] || judge(out.left[|out.left| - 1]) == Keep
    ensures RightlyCleared(job, out)
  {
    if out.left != [] {
      var top := out.left[|out.left| - 1];
      assert judge(top) == JudgementOf(job, top);
    }
  }

  lemma PeelMeansFor(job: Job, judge: LiveMount -> Judgement, nameable: bool, answer: nat -> Answer, stack: seq<LiveMount>)
    requires Judges(judge, job)
    ensures RightlyCleared(job, Peel(judge, nameable, answer, stack, 0))
  {
    PeelMeans(judge, nameable, answer, stack, 0);
    KeepIsKeptView(job, judge, Peel(judge, nameable, answer, stack, 0));
  }

  lemma ClearedMeans(job: Job, kernel: Kernel, stack: seq<LiveMount>)
    ensures RightlyCleared(job, Clearing(job, kernel, stack))
  {
    PeelMeansFor(job, Judging(job), '\0' !in job.target, kernel.answer, stack);
  }

  /** With a willing kernel the loop stops only at the bottom, at the first layer that is not
      removable, or at the limit. */
  lemma ClearingIsThorough(job: Job, kernel: Kernel, stack: seq<LiveMount>)
    requires '\0' !in job.target && forall n :: kernel.answer(n).Unmounted?
    ensures var out := Clearing(job, kernel, stack);
            && !out.gone
            && (out.left == [] || !Removable(job, out.left[|out.left| - 1])
                || |stack| - |out.left| == MAX_UNMOUNT_PASSES_HARD_LIMIT)
  {
    PeelIsThorough(Judging(job), kernel.answer, stack, 0);
  }

  /** A stack of the module's own layers comes off whole exactly when it is within the limit. */
  lemma OwnStackComesOff(job: Job, kernel: Kernel, stack: seq<LiveMount>)
    requires '\0' !in job.target && forall n :: kernel.answer(n).Unmounted?
    requires forall i :: 0 <= i < |stack| ==> Removable(job, stack[i])
    ensures Clearing(job, kernel, stack).cleared <==> |stack| <= 128
    ensures Clearing(job, kernel, stack).cleared ==> Clearing(job, kernel, stack).left == []
  {
    ClearingIsThorough(job, kernel, stack);
    ClearingIsSafe(job, kernel, stack);
    ClearedMeans(job, kernel, stack);
    var left := Clearing(job, kernel, stack).left;
    assert left != [] ==> left[|left| - 1] == stack[|left| - 1];
  }

  /** What happens to a layer that the ledger records for the target: being recorded, it is not newer
      than the ledger, and everything else is decided by the ownership test. */
  lemma RecordedLayerJudged(job: Job, layer: LiveMount)
    requires layer.mountId in RecordedIds(job)
    ensures Judging(job)(layer) == Take <==> IsOwned(job, layer)
    ensures Judging(job)(layer) == Keep <==> !IsOwned(job, layer) && RootIsAppPrivateDirectory(layer.root)
    ensures Judging(job)(layer) == Refuse <==> !IsOwned(job, layer) && !RootIsAppPrivateDirectory(layer.root)
  {
    assert !IsNewer(job, layer);
  }

  /** Being recorded in the ledger does not make a layer removable by itself: one that looks like the
      system's view of an app's own directory stays, and the target counts as clear. */
  lemma RecordedViewStays(job: Job, kernel: Kernel, below: seq<LiveMount>, layer: LiveMount)
    requires layer.mountId in RecordedIds(job) && RootIsAppPrivateDirectory(layer.root)
    requires !IsBarrier(layer) && !IsOwnedByDev(job, layer)
    requires !IsModuleMountSource(layer.source) && !IsModuleAnchor(layer.source) && !IsModuleAnchor(job.target)
    ensures Clearing(job, kernel, below + [layer]) == Outcome(true, below + [layer], false)
  {
    RecordedLayerJudged(job, layer);
  }

  // ----- the judgement, read from ledger and layer -----

  /** The ledger records layers at the target, and this one is newer than all of them. */
  ghost predicate Supersedes(job: Job, layer: LiveMount) {
    job.ledger.Some? && var here := NormalizeSyntax(job.target);
    && (exists m <- job.ledger.value.mounts :: m.mountPoint == here)
    && forall m <- job.ledger.value.mounts :: m.mountPoint == here ==> m.mountId < layer.mountId
  }

  lemma SupersedesIff(job: Job, layer: LiveMount)
    ensures Supersedes(job, layer) <==> IsNewer(job, layer)
  {
    if job.ledger.Some? {
      var mounts, here := job.ledger.value.mounts, NormalizeSyntax(job.target);
      if m :| m in mounts && m.mountPoint == here {
        assert m.mountId in RecordedIds(job);
      }
      if Supersedes(job, layer) {
        forall id | id in RecordedIds(job)
          ensures id < layer.mountId
        {
          var m :| m in mounts && m.mountPoint == here && m.mountId == id;
        }
      }
      if IsNewer(job, layer) {
        var id :| id in RecordedIds(job);
        var m :| m in mounts && m.mountPoint == here && m.mountId == id;
        forall m | m in mounts && m.mountPoint == here
          ensures m.mountId < layer.mountId
        {
          assert m.mountId in RecordedIds(job);
        }
      }
    }
  }

  /** A bare tmpfs is the module's barrier; a FUSE layer is the module's by a device of one of its
      sessions or of a recorded mount; any other by its source, root or target. */
  ghost predicate Ours(job: Job, layer: LiveMount) {
    || (layer.fsType == "tmpfs" && layer.root == "/")
    || ("fuse" <= layer.fsType && layer.dev != "" && layer.dev in job.knownDevs)
    || ("fuse" <= layer.fsType && layer.dev != "" && job.ledger.Some? && exists m <- job.ledger.value.mounts :: m.dev == layer.dev)
    || IsModuleRedirectMount(layer.source, layer.root, job.target,
                             match job.ledger case Some(ledger) => ledger.packageName case None => "")
  }

  /** A layer is refused if it supersedes the recorded ones; otherwise ownership alone decides, and of
      the layers that are not the module's only the system's view of an app's own directory is kept. */
  lemma JudgementMeans(job: Job, layer: LiveMount)
    ensures Judging(job)(layer) == Take <==> Ours(job, layer) && !Supersedes(job, layer)
    ensures Judging(job)(layer) == Keep <==>
            !Ours(job, layer) && !Supersedes(job, layer) && RootIsAppPrivateDirectory(layer.root)
    ensures Judging(job)(layer) == Refuse <==>
            Supersedes(job, layer) || (!Ours(job, layer) && !RootIsAppPrivateDirectory(layer.root))
  {
    SupersedesIff(job, layer);
  }

  lemma RemovableIff(job: Job, layer: LiveMount)
    ensures Removable(job, layer) <==> Ours(job, layer) && !Supersedes(job, layer)
    ensures IsKeptView(job, layer) <==>
            !Ours(job, layer) && !Supersedes(job, layer) && RootIsAppPrivateDirectory(layer.root)
  {
    SupersedesIff(job, layer);
  }

  /** What the first turn of the loop comes to, for every layer on top: a superseding one stays and the
      target is not clear; a leftover of the module comes off if the kernel agrees, and where it does not
      the loop ends with success only for the two errors that call the target gone. */
  lemma TopLayer(job: Job, kernel: Kernel, below: seq<LiveMount>, layer: LiveMount)
    ensures Supersedes(job, layer) ==> Clearing(job, kernel, below + [layer]) == Outcome(false, below + [layer], false)
    ensures Ours(job, layer) && !Supersedes(job, layer) && '\0' !in job.target ==>
              var out := Clearing(job, kernel, below + [layer]);
              match kernel.answer(0)
              case Unmounted => out.left <= below
              case Failed(errno) => out == Outcome(errno == 2 || errno == 22, below + [layer], errno == 2 || errno == 22)
    ensures !Ours(job, layer) && !Supersedes(job, layer) ==>
              var kept := RootIsAppPrivateDirectory(layer.root);
              Clearing(job, kernel, below + [layer]) == Outcome(kept, below + [layer], false)
    ensures Ours(job, layer) && '\0' in job.target ==>
              Clearing(job, kernel, below + [layer]) == Outcome(false, below + [layer], false)
  {
    var judge, nameable, stack := Judging(job), '\0' !in job.target, below + [layer];
    JudgementMeans(job, layer);
    assert stack[|stack| - 1] == layer && stack[..|stack| - 1] == below;
    PeelIsSafe(judge, nameable, kernel.answer, below, 1);
  }
}
