# Storage redirection: a verified model

The daemon of this repository decides where an app's storage paths go and keeps the mount
namespaces of running apps in line with that decision. This project models the decision logic in
Dafny and proves what it guarantees, for every input and every run.

- **Path mappings** (`Paths`, `PathSyntax`, `Orbits`, `MappingChain`, `MappingReverse`, `MappingFilter`,
  `MappingExpansion`, `MappingWorklist`, `MappingGap`). A mapping list is a prefix-rewriting system: the longest
  request prefix wins, at most ten rewrites, no cycles. The walker answers a path, the reversed
  walker restores it, the filter drops bad rules, and the expansion compiles chains into independent
  mount points.
- **The reconcile scheduler** (`Reconcile`, `ReconcileOrder`, `ReconcileRuns`, `ReconcileCycles`, `ReconcileCalls`). A round-robin cursor
  attempts one plan per round and groups rounds into cycles.
- **Mount ownership and recovery** (`Supervisor`, `LedgerRuns`, `LedgerPoison`, `CleanUp`, `MountSource`, `UnmountStack`).
  Verdicts, recovery actions, the poisoned state over whole runs, and the unmount loop over a stack
  of layers.
- **Text files** (`Text`, `ModulePaths`, `LedgerCodec`, `StateFile`, `StateHeader`, `StateFileLaws`, `StateFileReadBack`). The mount ledger
  and the mount state file with their readers, down to decimal digits and line ends.
- **Bounded indexes and small algorithms** (`QueryAccess`, `RateLimit`, `Utf8Filter`, `Consensus`,
  with `Sorting` and `Collections` beneath them).

Code that updates things step by step is a method with loops or a class, proved against a
specification function; the theorems are then about that function. `dafny verify dfyconfig.toml`
checks the whole project.

Where the code differs from what its comments say, the model follows the code:

- The expanded mount list can answer a path that the walker refuses, because a rule chain may run on
  for ever only below an answered path. `MappingExpansion.ExpansionPreservesMeaning` gives the exact
  condition, and `MappingGap.RunawayBreaksExpansion` lists that pass the filter and break it.
- The filter keeps rules whose request the walker refuses, as when a target lies under its own request
  (`MappingFilter.NestedTargetKeptButRefused`). `MappingFilter.DroppedIsRefused` and
  `MappingFilter.KeptIsAnsweredIff` say exactly how the two relate.
- The position test of the scheduler closes a cycle while a plan still needs work
  (`ReconcileCycles.FallbackLeavesWork`, `ReconcileCycles.FallbackHappens`).
- The module documentation of src/fuse_supervisor.rs promises that repeated failed clean-ups stop
  injection. A successful injection resets the count, and a clean-up with nothing recorded removes the
  ledger instead of counting. `LedgerPoison.PoisonedIff` and `LedgerPoison.FailuresPoisonIff` say exactly
  when the stop comes; `LedgerPoison.PilesUp` and `LedgerPoison.EmptyLedgerGoesOn` give runs of any length
  without it.
- Host sessions are written apart so that none is read as a session to terminate
  (src/fuse_session.rs:171-174). A target may hold a line feed, which makes lines of its own in the file,
  so this fails for some safe targets (`StateFileReadBack.HostReadAsTerminable`);
  `StateFileReadBack.ChildrenReadBackIff` says exactly when it holds.
- A fingerprint refresh drops one carriage return at the end of every line, which can change what is read
  (`StateFileLaws.StrayReturnChangesSession`); the exact conditions are `RefreshKeepsTargetsIff`,
  `RefreshKeepsChildrenIff` and `RefreshKeepsHostIff` of `StateFileLaws`.
- A ledgered layer is said to go straight to removal (src/daemon_mount.rs:2018-2026), but the branch
  is empty and the ownership test still applies (`UnmountStack.RecordedLayerJudged`, `UnmountStack.RecordedViewStays`).
- The comment on empty ledgers without rules (src/daemon_mount.rs:466-479) says "do not inject"; the
  action chosen there, dropping the stale ledger, does allow injection
  (`Supervisor.SupervisionMeaning` with no mounts).

## Model

| member | source | states |
|---|---|---|
| `Paths.CoversByKey` | src/platform/paths.rs:250-261 | one path lies under another exactly when its lower-cased text is a prefix that stops at a slash, and the suffix is the rest of the path |
| `Paths.SameKeyIff` | src/platform/paths.rs:203-209 | two texts have one key exactly when they are equal letter by letter, up to an ASCII capital and its small letter 32 code points above |
| `Paths.KeyIsLowerCase` | src/platform/paths.rs:203-205 | a key holds no ASCII capital and differs from its text in capitals alone; a text without capitals is its own key |
| `Paths.CoversByLetter` | src/platform/paths.rs:250-261 | one path lies under another exactly when its letters, up to ASCII case, are the front of the other, which ends there or goes on with a slash |
| `Paths.CoversTransitive` | src/platform/paths.rs:250-261 | lying under is transitive |
| `Paths.CoversComparable` | src/platform/paths.rs:250-261 | two roots of one path are nested; equally long ones have one key |
| `Paths.CoversRespell` | src/platform/paths.rs:203-261 | lying under does not depend on the spelling of either side |
| `Paths.CollapseRedundantSlashes` | src/platform/paths.rs:109-127 | the loop with its flag computes the normal spelling |
| `Paths.NormalizedShape` | src/platform/paths.rs:102-127 | the normal spelling has single slashes and no closing one, and normal paths are unchanged |
| `PathSyntax.NormalSpelling` | src/platform/paths.rs:102-127 | the normal spelling is the non-empty names between the slashes, joined by single slashes, behind one slash if the path starts with any |
| `MappingChain.BestAmong` | src/domain.rs:112-140 | the chosen rule covers the path, no covering request is longer, later ones of the same length win; none is chosen only if none covers |
| `MappingChain.MapMappingChain` | src/domain.rs:92-161 | the walker with its visited set computes the bounded normal form of longest-prefix rewriting, forwards and in reverse; the cycle test never refuses what the bound would allow |
| `MappingChain.WalkerNormalForm` | src/domain.rs:102-161 | a non-empty answer is reached by 1 to 10 rewrites with pairwise distinct keys, no rule applies to it, and mapping it again answers nothing |
| `MappingChain.AnswerSteps` | src/domain.rs:102-161 | every answer ends 1 to 10 rewrites |
| `MappingChain.StepsAnswer` | src/domain.rs:102-161 | with non-empty targets every path that 1 to 10 rewrites finish is answered |
| `MappingChain.WalkerRespell` | src/domain.rs:102-161 | two spellings of one path get two spellings of one answer |
| `MappingChain.WalkerOrderIndependent` | src/domain.rs:102-161 | with distinct request keys the answer does not depend on the order of the rules |
| `MappingReverse.BackStepIff` | src/domain.rs:97-161 | on any list, one rewrite is taken back by the reversed list exactly when the rule of the longest target says the same as the rule that made it |
| `MappingReverse.RestoredIsFree` | src/domain.rs:97-161 | on any list, a path that is restored did not lie under a target |
| `MappingReverse.ReverseRestores` | src/domain.rs:92-100 | restoring a mapped path whose rewrites are aligned gives it back, up to spelling, exactly when it did not already lie under a target |
| `MappingReverse.ApartIsAligned` | src/domain.rs:97-161 | where no target lies under another and none is shared, every walk is aligned |
| `MappingReverse.SharedTargetLosesOne` | src/domain.rs:97-161 | two requests with one target: the first is mapped there and the second comes back |
| `MappingReverse.RestoredByDetour` | src/domain.rs:97-161 | lists with distinct requests on which an unaligned path comes back by another rule than it went |
| `MappingFilter.VisitMappingCycle` | src/domain.rs:251-276 | one depth-first visit records exactly the cyclic keys among those it finishes |
| `MappingFilter.DetectMappingCycles` | src/domain.rs:239-249 | for any iteration order the result is exactly the set of requests on a cycle |
| `MappingFilter.ComputeMappingDepth` | src/domain.rs:288-309 | the memoised depth compares with every bound up to ten as the length of the exact chain does |
| `MappingFilter.DetectMappingDepths` | src/domain.rs:278-286 | the same for all requests, for any iteration order |
| `MappingFilter.FilterValidPathMappingChains` | src/domain.rs:206-237 | the filter keeps, in order, the rules whose chain ends |
| `MappingFilter.KeptIffChainEnds` | src/domain.rs:206-309 | a rule is kept exactly when following request keys to target keys reaches a non-request in at most ten steps |
| `MappingFilter.CyclicIsOverDepth` | src/domain.rs:206-309 | every cyclic request is over-depth as well |
| `MappingFilter.FilterIdempotent` | src/domain.rs:206-237 | filtering twice is filtering once |
| `MappingFilter.ExactIsLongest` | src/domain.rs:112-140 | on any list an exact match is the longest covering request, and of several the rule the hash map remembers |
| `MappingFilter.DroppedIsRefused` | src/domain.rs:112-237 | on any list the walker refuses the request of every dropped rule |
| `MappingFilter.KeptIsAnsweredIff` | src/domain.rs:112-237 | on any list the walker takes a kept rule along its exact chain of n steps to a target, and answers its request if and only if the walk from there ends within the remaining 10 - n rewrites |
| `MappingFilter.FilterAgreesWithWalker` | src/domain.rs:112-237 | where no request lies strictly above a target, a rule is kept exactly when the walker answers its request, and the answer is the end of the chain |
| `MappingFilter.NestedTargetKeptButRefused` | src/domain.rs:112-237 | a rule with its target under its own request is kept, yet the walker refuses every path under it |
| `MappingWorklist.PushesAreLighter` | src/domain.rs:165-200 | replacing the head of the queue by its pull-backs lowers the total weight w(10)=1, w(d)=1+n·w(d+1) |
| `MappingWorklist.SkipTurn` | src/domain.rs:173-176 | a turn on a seen key keeps the worklist state and lightens the queue |
| `MappingWorklist.WorkTurn` | src/domain.rs:173-198 | a turn that works its head keeps the worklist state, in which levels never decrease, and lightens the queue |
| `MappingWorklist.PushPullBacks` | src/domain.rs:185-198 | the inner loop pushes one level down exactly the unseen pull-backs through rules whose target lies strictly above |
| `MappingWorklist.Turn` | src/domain.rs:173-198 | one turn on the variables of the loop keeps the worklist state and lightens the queue |
| `MappingWorklist.ExpandNamespacePathMappings` | src/domain.rs:165-200 | the worklist terminates on every list and returns its expansion: distinct keys, each with its non-empty walker answer, all requests and pull-backs up to level ten, nothing else |
| `MappingWorklist.ExpansionAnswers` | src/domain.rs:163-200 | the returned list has distinct keys; wherever the walker answers, one lookup in it gives the same path, and on every path if the walker refuses nothing below an answered one |
| `MappingExpansion.StrictlyCoversIff` | src/platform/paths.rs:244-248 | lying strictly under another path is lying under it and being longer |
| `MappingExpansion.AnsweredIsMounted` | src/domain.rs:165-200 | every path the walker answers in n steps lies under a mount point that shares all of them, found before level n |
| `MappingExpansion.LookupMatchesWalker` | src/domain.rs:102-200 | wherever the walker answers, one longest-prefix lookup gives the same path |
| `MappingExpansion.WalkerOnMounts` | src/domain.rs:102-200 | on the expanded list the walker stops after one step |
| `MappingExpansion.MountUnderRequest` | src/domain.rs:165-200 | every mount point lies under an original request |
| `MappingExpansion.ExpansionPreservesMeaning` | src/domain.rs:163-200 | lookup equals walker on every path if and only if the walker refuses no path below an answered one |
| `MappingExpansion.InheritedIffAliasesInherit` | src/domain.rs:163-200 | that condition need only be tested on requests pulled back through at most ten rules |
| `MappingExpansion.NothingRefused` | src/domain.rs:163-200 | if the worklist meets no refused request, the expanded list means the same everywhere and covers the same paths |
| `MappingGap.RunawayIsKept` | src/domain.rs:206-309 | for every two unrelated paths and two suffixes, a list of two rules that the filter returns unchanged |
| `MappingGap.WalkerOnRunaway` | src/domain.rs:102-161 | on it the walker answers the first request and refuses a path below it |
| `MappingGap.RunawayBreaksExpansion` | src/domain.rs:163-200 | every expansion of it answers the path the walker refuses, so it does not mean the same |
| `MappingGap.ConditionCanFail` | src/domain.rs:163-200 | a concrete such list |
| `Reconcile.Attempt` | src/daemon.rs:1428-1488 | the branches after an attempt: supervision refusal, reload and disable outcomes |
| `Reconcile.ScanPlans` | src/daemon.rs:1371-1489 | the plan loop with its counters attempts the first eligible plan unless the cycle already has, and defers or wraps at the next eligible one |
| `Reconcile.PlanLoop` | src/daemon.rs:1364-1489 | the loop computes the round read from its first two eligible plans |
| `Reconcile.ReconcileCursor.constructor` | src/daemon.rs:340-378 | a new cursor has nothing attempted, refused or cached |
| `Reconcile.ReconcileCursor.CloseCycle` | src/daemon.rs:434-439 | closing a cycle clears head, attempted and refused, and keeps the last attempt |
| `Reconcile.ReconcileCursor.Finish` | src/daemon.rs:1498-1535 | the cycle is closed on wrap-around, by the position test, or when nothing was deferred; otherwise the batch is kept |
| `Reconcile.ReconcileCursor.Reconcile` | src/daemon.rs:1182-1535 | one call moves the cursor and the cached batch exactly as the round on the cached or new plans says |
| `ReconcileOrder.BeforeMeans` | src/daemon.rs:308-314 | identities compare by package as text, then by pid, uid and start time, a missing start time first |
| `ReconcileOrder.BeforeIsTotal` | src/daemon.rs:308-314 | of two different identities exactly one is before the other, and none before itself |
| `ReconcileOrder.BeforeIsTransitive` | src/daemon.rs:308-314 | the order is transitive |
| `ReconcileOrder.PositionMeans` | src/daemon.rs:404-418 | in an ordered list the position of an identity is its own, and of one that has gone the place with all smaller ones in front and all greater ones behind, or the front if none is greater |
| `ReconcileOrder.NextStartMeans` | src/daemon.rs:380-397 | the next round starts right behind the identity attempted last, or at the place of one that has gone, or at the front if nothing is behind it |
| `ReconcileOrder.RoundTriesFirstBehind` | src/daemon.rs:1364-1433 | a round attempts the first eligible plan going round from the identity attempted last, whether or not that is still listed |
| `ReconcileCalls.CallTriesFirst` | src/daemon.rs:1182-1433 | one call attempts the first plan in need of work behind the last attempt, on the cached batch only if host and signature are unchanged; a new host makes refused plans count again |
| `ReconcileCalls.SomeFirstOrNone` | src/daemon.rs:1364-1433 | there is such a plan whenever any needs work; otherwise the call attempts nothing and the cycle is over |
| `ReconcileCalls.RoundLeaves` | src/daemon.rs:1428-1488 | which plan is refused for the cycle, which is settled and how, and what the cursor remembers after an attempt |
| `ReconcileCalls.IdleRoundLeaves` | src/daemon.rs:1364-1535 | a round without an attempt changes nothing but closes the cycle |
| `ReconcileCalls.NextWorksOn` | src/daemon.rs:1215-1242 | the next call works on the batch this one left if the round was incomplete and nothing changed, and enumerates anew otherwise |
| `ReconcileCalls.HeadIsFirst` | src/daemon.rs:420-427 | while rounds are incomplete on one host the head of the cycle is the plan its first round attempted |
| `ReconcileRuns.RoundMovesOn` | src/daemon.rs:1364-1489 | a round with an eligible plan attempts something nearer to it or closes the cycle |
| `ReconcileRuns.NoStarvation` | src/daemon.rs:1364-1535 | a plan that stays in need of work and is not refused is attempted within 2n rounds from any cursor, however the others change and cycles close |
| `ReconcileRuns.NoStarvationAfterRefusal` | src/daemon.rs:1364-1535 | even a refused plan is attempted again within 3n rounds |
| `ReconcileRuns.OpenTriesNew` | src/daemon.rs:1372-1433 | every incomplete round attempts one plan this cycle has not attempted |
| `ReconcileRuns.BoundedContinuation` | src/daemon.rs:1372-1535 | on one batch of n plans fewer than n rounds in a row are incomplete, and no plan is attempted twice |
| `ReconcileCycles.SweptRound` | src/daemon.rs:1371-1530 | an incomplete round extends the swept part of the list; one that ends the cycle leaves nothing unattempted |
| `ReconcileCycles.CycleCompleteness` | src/daemon.rs:1371-1530 | a cycle on one batch that ends by wrapping or with nothing deferred has attempted every plan still eligible |
| `ReconcileCycles.FallbackLeavesWork` | src/daemon.rs:1510-1526 | closing by the position test always leaves an eligible plan unattempted |
| `ReconcileCycles.FallbackHappens` | src/daemon.rs:1510-1526 | two rounds on any three pending plans, with any outcomes, of which the second is closed by the position test while the first plan is eligible and unattempted |
| `ReconcileCycles.FallbackExactly` | src/daemon.rs:1510-1526 | with something deferred, it closes exactly when the attempted plan is last in the list or before the head of the cycle |
| `Supervisor.AggregateActions` | src/fuse_supervisor.rs:198-223 | the loop returns the gravest action of the list |
| `Supervisor.GravestAllowsIff` | src/fuse_supervisor.rs:151-223 | on arbitrary lists injection is allowed exactly when nothing is poisoned and a superseded mount comes with a stale one |
| `Supervisor.Supervise` | src/daemon_mount.rs:437-514 | the supervision loop takes the gravest of one action per recorded mount, or of the one for an empty ledger |
| `Supervisor.MountActionMeans` | src/mount_identity.rs:68-99 | which action a mount gets, in terms of the poisoned count, the namespace, the layer on top and the endpoint |
| `Supervisor.RecordIff` | src/mount_identity.rs:85-91 | the record of a mount point is the first recorded mount at its normal spelling, and there is none exactly when no mount is recorded there |
| `Supervisor.ActionAt` | src/mount_identity.rs:68-99 | which action a mount point gets, over its record, the layer on top and the endpoint |
| `Supervisor.DecisionMeans` | src/daemon_mount.rs:437-514 | for a ledger with mounts, of any length, exactly which of the five actions supervision decides on |
| `Supervisor.AllOnTop` | src/daemon_mount.rs:437-514 | a sound ledger with different normal mount points and all recorded layers on top is detached and injected again |
| `Supervisor.EmptyDecision` | src/daemon_mount.rs:463-496 | which action a ledger without mounts gets |
| `Supervisor.SupervisionMeaning` | src/daemon_mount.rs:437-514 | injection goes on exactly when the ledger is not poisoned and its namespace is gone or no recorded mount point was taken over |
| `Supervisor.SupervisionConservative` | src/daemon_mount.rs:437-514 | for every ledger and view, injection is allowed exactly when every single mount allows it |
| `LedgerRuns.OpenLedger.constructor` | src/mount_ledger.rs:108-124 | a ledger opened for changing |
| `LedgerRuns.OpenLedger.RecordMounts` | src/mount_ledger.rs:126-131 | generation saturating up by one, mounts replaced, failures cleared |
| `LedgerRuns.OpenLedger.ClearMounts` | src/mount_ledger.rs:133-137 | mounts and failures cleared, the rest kept |
| `LedgerRuns.OpenLedger.RecordDetachFailure` | src/mount_identity.rs:26-35 | one more failure, saturating; poisoned from the third on |
| `LedgerRuns.LedgerFile.constructor` | src/mount_ledger.rs:431-435 | the stored ledger at the start of a run, with no injection yet |
| `LedgerRuns.LedgerFile.Save` | src/mount_ledger.rs:448-480 | the stored ledger is replaced if the file can be written |
| `LedgerRuns.LedgerFile.Remove` | src/mount_identity.rs:101-105 | the stored ledger is removed if the file can be |
| `LedgerRuns.LedgerFile.Register` | src/mount_ledger.rs:515-568 | the mounts of a successful injection are recorded on the loaded or a new ledger |
| `LedgerRuns.LedgerFile.ClearPreviousMounts` | src/daemon_mount.rs:1691-1815 | the clean-up removes the ledger after success, and without success too when nothing is recorded and the state file is gone |
| `LedgerRuns.LedgerFile.HandleReload` | src/daemon_mount.rs:914-1228 | the ledger side of a reload: clean-up, a counted failure if that was not verified and a ledger is left, refusal when that poisons, registration after an injection |
| `LedgerRuns.LedgerFile.Reconcile` | src/daemon.rs:1439-1470 | supervision gates the reload, and a stale ledger is dropped |
| `LedgerRuns.LedgerFile.PruneStale` | src/mount_identity.rs:107-139 | a ledger is pruned only when its process instance is gone |
| `LedgerRuns.LedgerFile.MigrateHost` | src/daemon_mount_reclaim.rs:223-268 | a migration takes only if the storage root and every recorded mount are the current host's, and then records their layers and clears the failures |
| `LedgerRuns.PoisonedStays` | src/daemon_mount.rs:437-514 | over any run in which pruning finds the process alive and no migration takes, a poisoned ledger is unchanged and nothing is injected |
| `LedgerRuns.MigrationRevives` | src/daemon_mount_reclaim.rs:263-268 | a migration that takes makes any ledger sound, a poisoned one too |
| `LedgerRuns.MigrationMeans` | src/daemon_mount_reclaim.rs:223-268 | exactly when a migration takes, and the ledger it then leaves, mount by mount; otherwise it changes nothing |
| `LedgerRuns.CleanUpMeans` | src/daemon_mount.rs:1691-1815 | the clean-up removes the ledger exactly when the state file is gone and all layers are too or there was nothing to take off |
| `LedgerRuns.InjectionRecorded` | src/mount_ledger.rs:515-568 | every field of the ledger after a reload that injected |
| `LedgerRuns.RecordedIsRecognised` | src/mount_ledger.rs:515-568 | a later supervision that finds the recorded layers of such a reload on top detaches and injects again |
| `LedgerRuns.PruneMeans` | src/mount_identity.rs:107-139 | pruning removes the ledger exactly when its process instance is gone and the file can be removed |
| `LedgerRuns.PoisonedByStep` | src/daemon_mount.rs:936-965 | a handed-over reload leaves a poisoned ledger exactly when its clean-up is the third in a row to be counted as failed |
| `LedgerRuns.CountAfterFailure` | src/daemon_mount.rs:936-1228 | before that, a counted failure raises the count by one, or resets it if the injection got through |
| `LedgerRuns.UncountedFailure` | src/daemon_mount.rs:1711-1764 | a failed clean-up with nothing recorded drops the ledger instead of counting, and injects |
| `LedgerPoison.PoisonedIff` | src/daemon_mount.rs:914-1228 | over every run in which the process lives, the ledger ends poisoned if and only if, among the steps behind the last migration that touch the count, two counted failures without an injection are followed at once by a third counted failure |
| `LedgerPoison.FailuresPoisonIff` | src/daemon_mount.rs:936-965 | over every run of counted, handed-over failures, the ledger ends poisoned if and only if two consecutive rounds get no injection through and another round follows, the starting count standing for rounds before the run |
| `LedgerPoison.StuckConverges` | src/daemon_mount.rs:936-965 | while counted clean-ups and injections keep failing, at most two injections are tried in any run, and longer runs end poisoned |
| `LedgerPoison.NoLedgerGoesOn` | src/daemon_mount.rs:936-965 | without a ledger every round of any run of failures injects |
| `LedgerPoison.EmptyLedgerGoesOn` | src/daemon_mount.rs:1711-1764 | from a ledger without mounts, clean-up and injection may fail for ever and every round injects |
| `LedgerPoison.MountedNeverPoisons` | src/mount_ledger.rs:126-131 | as long as injections get through, no run poisons the ledger |
| `LedgerPoison.StackingGoesOn` | src/daemon_mount.rs:936-1228 | over any run in which no clean-up is verified, supervision lets every round through and every injection succeeds, every round injects and the ledger stays sound |
| `LedgerPoison.PilesUp` | src/mount_ledger.rs:490-568 | such runs of any length exist for every mount a ledger file gives back, each round finding the layer of the one before on top and leaving a new layer with a new mount id above it |
| `LedgerPoison.PiledReadsBack` | src/mount_ledger.rs:347-429 | the ledger of such a run is what its file gives back |
| `CleanUp.ClearTargets` | src/daemon_mount.rs:1765-1800 | the loops over targets and sessions report the layers gone exactly when every target was kept or cleared by the unmount loop and every session ended |
| `CleanUp.GoneIff` | src/daemon_mount.rs:1765-1800 | verified exactly when every target that is not kept was cleared by its own unmount loop, with the ledger only for a request without path mappings, and every session ended |
| `CleanUp.NewerLayerHoldsBack` | src/daemon_mount.rs:1780-1794 | a layer newer than the recorded ones holds its target back, except for a request with path mappings |
| `CleanUp.EasyCleanUp` | src/daemon_mount.rs:1765-1800 | targets with at most 128 layers, all the module's own, under a kernel that unmounts them, are reported gone |
| `CleanUp.ServedNeverPoisons` | src/daemon_mount.rs:936-965 | over any run of such clean-ups no failure is counted and a sound ledger stays sound |
| `MountSource.TailOfStorageRoot` | src/module_mount_source.rs:175-183 | both spellings of a storage path give the same user and tail |
| `MountSource.SystemViewShape` | src/module_mount_source.rs:199-256 | the system's view of an app's own directory is recognised, and is a module layer only by its source or target |
| `MountSource.DeeperShape` | src/module_mount_source.rs:162-256 | anything deeper than an app's own directory is a module layer |
| `MountSource.PrivateIff` | src/module_mount_source.rs:175-214 | the app-private roots are exactly Android/data, Android/media and Android/obb of a user followed by one name |
| `MountSource.RedirectMountIff` | src/module_mount_source.rs:162-256 | exactly which layers are taken for the module's, read from source, root, target and package name |
| `UnmountStack.TopmostByStack` | src/platform/mountinfo.rs:75-96 | the last entry in file order that no other entry lies on |
| `UnmountStack.TopmostIsTop` | src/platform/mountinfo.rs:69-96 | for a stack whose layers name each other as parents, every file order yields the top layer |
| `UnmountStack.JudgeLayer` | src/daemon_mount.rs:2013-2122 | the tests of the loop body take off the module's own layers not newer than the ledger, keep a system app-private view, and refuse the rest |
| `UnmountStack.JudgementMeans` | src/daemon_mount.rs:2013-2122 | over the recorded mounts and the fields of the layer: refused if newer than every mount recorded at the target, and otherwise decided by ownership alone |
| `UnmountStack.RemovableIff` | src/daemon_mount.rs:2013-2122 | the layers that may come off and those that are kept, in the same terms |
| `UnmountStack.TopLayer` | src/daemon_mount.rs:2013-2176 | what the first turn comes to for every layer on top of any stack, under every kernel answer |
| `UnmountStack.MountTable.constructor` | src/mount_ledger.rs:178-208 | the layers of one mount point |
| `UnmountStack.MountTable.TopmostLiveMount` | src/mount_ledger.rs:215-223 | the top layer is found whatever the listing order |
| `UnmountStack.MountTable.Umount` | src/daemon_mount.rs:2143-2162 | a successful unmount removes the top layer and nothing else |
| `UnmountStack.MountTable.PeelOff` | src/daemon_mount.rs:1995-2176 | the loop with its pass count computes the peeling of the stack |
| `UnmountStack.MountTable.ClearVerified` | src/daemon_mount.rs:1995-2176 | the same for the job at hand, on every stack and every sequence of kernel answers |
| `UnmountStack.ClearingIsSafe` | src/daemon_mount.rs:1995-2176 | only removable layers come off, from the top, at most 128, and the layers below are untouched |
| `UnmountStack.ClearedMeans` | src/daemon_mount.rs:1995-2176 | success means the kernel called the target gone, nothing is left, or a system app-private view that is not the module's is on top; and conversely |
| `UnmountStack.ClearingIsThorough` | src/daemon_mount.rs:1995-2176 | with a willing kernel the loop stops only at the bottom, at the first layer not removable, or at the limit |
| `UnmountStack.OwnStackComesOff` | src/daemon_mount.rs:2123-2131 | a stack of own layers is cleared exactly when it has at most 128, and then wholly |
| `UnmountStack.RecordedLayerJudged` | src/daemon_mount.rs:2013-2122 | a layer the ledger records is taken off if and only if the ownership test says it is the module's, kept if and only if it is not and has an app-private root, and refused otherwise |
| `UnmountStack.RecordedViewStays` | src/daemon_mount.rs:2013-2092 | a ledgered layer that looks like a system app-private view stays, and the target counts as clear |
| `Text.LinesOfUnlines` | src/mount_ledger.rs:347-371 | lines written one by one read back as themselves, less a carriage return at the end |
| `Text.PrintDecimal` | src/mount_ledger.rs:347-371 | numbers are printed in decimal, highest place first, without leading zeros |
| `Text.ParseUnsignedIff` | src/mount_ledger.rs:373-395 | exactly which texts are read as an unsigned number of a given width |
| `Text.ParseSignedIff` | src/mount_ledger.rs:379-379 | exactly which texts are read as a signed number of a given width |
| `Text.ParsePrintUnsigned` | src/mount_ledger.rs:373-385 | unsigned decimal numbers read back |
| `Text.ParsePrintSigned` | src/mount_ledger.rs:379-379 | signed decimal numbers read back |
| `ModulePaths.NormalizedExactly` | src/platform/module_paths.rs:153-162 | the normalised list holds exactly the safe targets, each once, longest first and then in reverse text order |
| `ModulePaths.SafeIff` | src/platform/module_paths.rs:169-183 | letter by letter: from the root and longer, no NUL, no segment that is a dot or two, and not one of the four forbidden directories nor below one |
| `ModulePaths.NormalizedOrder` | src/platform/module_paths.rs:148-162 | of two normalised targets the first is longer in bytes, or as long and behind in text order |
| `ModulePaths.WidthMeans` | src/platform/module_paths.rs:159-159 | how many bytes a letter counts, as section 3 of RFC 3629 encodes it |
| `ModulePaths.ByteLengthAppends` | src/platform/module_paths.rs:159-159 | the bytes of two texts one after the other add up |
| `ModulePaths.NormalizedCanonical` | src/platform/module_paths.rs:148-162 | lists with the same safe members normalise to the same list |
| `ModulePaths.ChildrenFirst` | src/platform/module_paths.rs:148-152 | a target inside another stands before it |
| `LedgerCodec.Encode` | src/mount_ledger.rs:347-371 | the buffer loop writes the header and one line per mount, in order |
| `LedgerCodec.DecodeHeader` | src/mount_ledger.rs:373-429 | the header reads back as itself in front of any other lines |
| `LedgerCodec.MountLineParses` | src/mount_ledger.rs:363-411 | a mount line without separators in its fields reads back as the mount if its target is safe, and as nothing otherwise |
| `LedgerCodec.ReadBack` | src/mount_ledger.rs:347-429 | what reading back yields for every ledger without line feeds and tabs |
| `LedgerCodec.DecodedIsPlain` | src/mount_ledger.rs:373-429 | nothing read from any text holds a separator |
| `LedgerCodec.RoundTrip` | src/mount_ledger.rs:347-429 | reading back gives the ledger itself if and only if its package name is one line and its mounts hold no separator, end in no carriage return and lie on safe targets |
| `LedgerCodec.OnlyUnsafeDropped` | src/mount_ledger.rs:396-411 | otherwise plain ledgers lose exactly the mounts on unsafe targets |
| `LedgerCodec.DecodesIff` | src/mount_ledger.rs:373-429 | any text is a ledger exactly when its first line of each mandatory kind says so |
| `StateFile.PushChildren` | src/fuse_session.rs:170-180 | one line per session that is not of the shared host |
| `StateFile.PushTargets` | src/fuse_session.rs:189-193 | one line per target |
| `StateFile.WriteMountState` | src/fuse_session.rs:127-193 | the whole content, or nothing without a process or a package |
| `StateFile.FirstHostMeans` | src/fuse_session.rs:184-188 | the host line is about the first shared-host session, wherever it stands |
| `StateHeader.HeadReadsBack` | src/fuse_session.rs:153-165 | from every state the version and both fingerprints read back, and the package name as far as its first line feed |
| `StateHeader.HeadNumbersReadBack` | src/daemon_mount.rs:258-269 | and as numbers they are what was written |
| `StateHeader.PackageReadsBackIff` | src/daemon_mount_reclaim.rs:68-70 | the package name reads back exactly if it is a plain line |
| `StateHeader.OwnerReadsBack` | src/daemon_mount_reclaim.rs:74-79 | the uid and the start time read back unless a line that spills from the package name stands in for them |
| `Text.LinesOfTwo` | src/fuse_session.rs:153-193 | texts written one after the other are read one after the other, whatever line feeds they hold |
| `StateFileReadBack.ReadBack` | src/daemon_mount.rs:2540-2613 | reading back any written state: the non-host sessions with positive pid, the first shared-host session when its pid is positive, and the normalised targets, between what spills as lines of its own from the package name and from the targets |
| `StateFileReadBack.ChildrenReadBackIff` | src/daemon_mount.rs:2578-2594 | the sessions read are exactly the terminable ones if and only if nothing that spills reads as a session |
| `StateFileReadBack.HostReadBackIff` | src/daemon_mount.rs:2596-2613 | the host session read is the recorded one if and only if none spills before it, unless the same, and none at all where none is recorded |
| `StateFileReadBack.TargetsReadBackIff` | src/daemon_mount.rs:2540-2550 | when the targets read back as written; where nothing spills from the package name, exactly when each is a plain line |
| `StateFileReadBack.SessionReadFromTarget` | src/platform/module_paths.rs:169-183 | a safe target with a line feed from which any session is read as a terminable one |
| `StateFileReadBack.HostReadAsTerminable` | src/fuse_session.rs:170-193 | a state that records a session as the shared host alone and reads it back as one to terminate |
| `StateFile.RefreshEachLine` | src/daemon_mount.rs:628-643 | the pass over the lines replaces both fields and notes which it met |
| `StateFile.RefreshFingerprint` | src/daemon_mount.rs:621-665 | the refreshed text, with the policy line added behind the first fingerprint line if missing, or a refusal |
| `StateFile.RefreshedLineMeans` | src/daemon_mount.rs:628-643 | the lines replaced are those that name one of the two fields, whatever their value |
| `StateFileLaws.RefreshKeepsOthers` | src/daemon_mount.rs:621-665 | a refresh succeeds exactly on files with a fingerprint line and changes no other line |
| `StateFileLaws.RefreshSetsBoth` | src/daemon_mount.rs:621-665 | afterwards every fingerprint and policy line holds the new value, and both are present |
| `StateFileLaws.ReadAfterRefresh` | src/daemon_mount.rs:621-665 | any reader sees after a refresh what it saw before, less carriage returns |
| `StateFileLaws.RefreshKeepsReadings` | src/daemon_mount.rs:621-665 | on files without a stray carriage return all three readings are unchanged |
| `StateFileLaws.RefreshKeepsTargetsIff` | src/daemon_mount.rs:621-665 | on any file the targets are unchanged exactly when none of them ends in a carriage return |
| `StateFileLaws.RefreshKeepsChildrenIff` | src/daemon_mount.rs:621-665 | on any file the sessions are unchanged exactly when every line reads as the same session without a carriage return at its end |
| `StateFileLaws.RefreshKeepsHostIff` | src/daemon_mount.rs:621-665 | on any file the host session is unchanged exactly when the line it is read from reads the same without a carriage return at its end |
| `StateFileLaws.StrayReturnChangesSession` | src/daemon_mount.rs:621-665 | a family of files whose sessions a refresh changes |
| `StateFileLaws.RefreshIsRewrite` | src/daemon_mount.rs:621-665 | refreshing a written state gives the text of writing it anew with the new fingerprints |
| `QueryAccess.Compact` | src/monitor.rs:1402-1409 | compaction keeps exactly the stamps that match their record |
| `QueryAccess.StopsRetained` | src/monitor.rs:1382-1401 | the pop loop stops with exactly the retained records |
| `QueryAccess.OneStampPerEntry` | src/monitor.rs:1227-1253 | each entry has exactly one matching stamp |
| `QueryAccess.LatestIsLast` | src/monitor.rs:1227-1253 | the record of a path is its last insert |
| `QueryAccess.RetainedIff` | src/monitor.rs:1227-1253 | read from the inserts: the last one of its path is held exactly when it is at most 8000 ms older than the newest insert and fewer than 1024 other paths came after it |
| `QueryAccess.RetainedFrom` | src/monitor.rs:1227-1253 | nothing else is held |
| `QueryAccess.QueryAccessIndex.constructor` | src/monitor.rs:1227-1253 | an empty index describes the empty history |
| `QueryAccess.QueryAccessIndex.Remember` | src/monitor.rs:1227-1253 | after every insert the map is exactly the latest record of each of the newest 1024 distinct paths no older than 8000 ms, and the queue has at most 2048 stamps |
| `QueryAccess.QueryAccessIndex.Push` | src/monitor.rs:1227-1252 | the insert before pruning appends to the history and keeps map and queue in step with it |
| `QueryAccess.QueryAccessIndex.Prune` | src/monitor.rs:1382-1410 | pruning reaches that state from any state between insert and prune |
| `QueryAccess.QueryAccessIndex.Resolve` | src/monitor.rs:1255-1282 | the answer is the latest insert of the path, or of its display name if the path is not retained, exactly when that is inside the window and names an app that asked itself |
| `QueryAccess.ResolvedFrom` | src/monitor.rs:1255-1282 | read from the inserts: the one of the path, or else of its display name, alone decides the answer, with the exact conditions on its age, uid and package |
| `QueryAccess.ResolvedNothing` | src/monitor.rs:1255-1282 | nothing is answered for the empty path, or where neither the path nor its display name is held |
| `RateLimit.LogState.constructor` | src/log_daemon.rs:414-423 | no sender is tracked at first |
| `RateLimit.LogState.AllowFromSender` | src/log_daemon.rs:429-472 | one packet is decided and the table updated as the trace semantics says |
| `RateLimit.AcceptsIff` | src/log_daemon.rs:434-471 | a tracked sender is accepted exactly when its window is over or holds fewer than 4096, another exactly when fewer than 256 are tracked or fewer than 256 windows are still open |
| `RateLimit.TableMeans` | src/log_daemon.rs:434-471 | what a record does to its own quota, and which of the others survive, unchanged |
| `RateLimit.AcceptedAfterSilence` | src/log_daemon.rs:434-444 | after any trace and a silence of one window length every sender is accepted |
| `RateLimit.RateBound` | src/log_daemon.rs:41-51 | over any trace with a non-decreasing clock, each known uid has at most 8191 accepted records in any 10,000 ms interval, even across eviction |
| `RateLimit.BoundIsReached` | src/log_daemon.rs:41-51 | a trace that attains 8191 |
| `RateLimit.TableBounded` | src/log_daemon.rs:50-51 | the table never tracks more than 256 senders |
| `Utf8Filter.NextUtf8CodePoint` | native/srx_lsplant_bridge.cpp:145-186 | the decoder returns the code point at the index and always advances within the text |
| `Utf8Filter.WidthIff` | native/srx_lsplant_bridge.cpp:145-186 | on any bytes, a lead byte with all its continuation bytes is taken whole and any other byte stands for itself |
| `Utf8Filter.IgnorableIff` | native/srx_lsplant_bridge.cpp:130-143 | the ignorable code points are those of seventeen blocks |
| `Utf8Filter.DecodesWhatWasEncoded` | native/srx_lsplant_bridge.cpp:145-186 | it reads back every scalar value encoded by section 3 of RFC 3629, whatever follows |
| `Utf8Filter.HasDefaultIgnorableCodePoint` | native/srx_lsplant_bridge.cpp:188-198 | true exactly when some decoded code point is ignorable |
| `Utf8Filter.RemoveDefaultIgnorableCodePoints` | native/srx_lsplant_bridge.cpp:200-213 | the loop strips the ignorable code points and keeps the bytes of the others |
| `Utf8Filter.StripShortens` | native/srx_lsplant_bridge.cpp:188-213 | on any bytes, something is ignorable exactly when removal shortens the text; otherwise it is unchanged |
| `Utf8Filter.StripFiltersCodePoints` | native/srx_lsplant_bridge.cpp:200-213 | on well-formed text removal is the encoding of the filtered code points |
| `Utf8Filter.UntouchedIff` | native/srx_lsplant_bridge.cpp:200-213 | text is unchanged exactly when none of its code points lies in such a block |
| `Utf8Filter.StripIdempotent` | native/srx_lsplant_bridge.cpp:200-213 | on well-formed text removing twice is removing once, and nothing ignorable is left |
| `Utf8Filter.StripTwiceIff` | native/srx_lsplant_bridge.cpp:200-213 | on any bytes a second removal changes nothing exactly when nothing ignorable is left after the first, and always when no sequence is cut short |
| `Utf8Filter.MalformedNotIdempotent` | native/srx_lsplant_bridge.cpp:200-213 | malformed bytes for which it is not |
| `Sorting.SortThenZip` | src/config/consensus.rs:130-152 | comparing lists sorted by a key position by position compares their bags of keys |
| `Consensus.PathListsEqualIff` | src/config/consensus.rs:130-152 | the sorted comparison of path lists is equality of the bags of lower-cased paths |
| `Consensus.MappingsEqualIff` | src/config/consensus.rs:77-127 | the comparison of normalised mappings is equality of the bags of lower-cased pairs with both sides present |
| `Consensus.CompleteMappingsAre` | src/config/consensus.rs:77-93 | the mappings with both sides present take part, each as often as listed |
| `Consensus.EquivalentIffSameMeaning` | src/config/consensus.rs:95-128 | profiles are equivalent exactly when they mean the same |
| `Consensus.EquivalenceRelation` | src/config/consensus.rs:95-128 | profile equivalence is reflexive, symmetric and transitive |
| `Consensus.CollectProfiles` | src/config/consensus.rs:21-52 | the first loop collects every member's profile or finds one missing |
| `Consensus.AllAgreeWithFirst` | src/config/consensus.rs:58-72 | the second loop compares every profile with the first |
| `Consensus.IsSharedGroupConsistent` | src/config/consensus.rs:7-74 | the verdict is that every member is configured and all mean the same, whatever the order of the members |

## Left out

- Mount, namespace, fork, process, inotify, socket and file-system access: replaced by parameters, oracles of outcomes, or an in-memory stack of layers and text.
- Prewarm, Forced and changed-package rounds of the scheduler and the priority order of full changes: they bypass the cursor. The plan list is taken as sorted with distinct identities, as the enumeration yields it.
- src/fuse_host.rs, src/fuse_host_control.rs, src/daemon_watchdog.rs, src/fuse_terminate.rs, src/system_fuse_view.rs, src/daemon_monitor.rs and src/owner_migration.rs: kernel interaction with little decidable logic.
- Disable requests and the no-rules short cut of the mount worker (src/daemon_mount.rs:966-1060): they would only add further ledger updates of the same kinds. Of the host migration the state file's part (src/daemon_mount_reclaim.rs:269-292).
- Sorting and de-duplication of mapping lists (src/domain.rs:22-90, 202-204): they would only add easy members.
- Logging, counters and diagnostics: no effect on decisions.
- Text is a sequence of Unicode characters; byte lengths enter only the target order, where UTF-8 widths are counted. The mapping walker compares lengths in characters; equally long or shorter prefixes of one path order the same way in both counts.
- MappingExpansion.LookupMatchesWalker: equality is letter for letter only where the path spells the mount point as it was emitted, and up to letter case elsewhere, because the lookup keeps the spelling of the emitted request's answer.
- MappingExpansion.ExpansionPreservesMeaning: assumes non-empty targets, which the callers guarantee (src/mount/map.rs:60-67).
- MappingReverse.ReverseRestores: assumes that the rewrites of the path are aligned (`BackStepIff` says for each rewrite when it is) and that both sides of every rule are non-empty; without alignment a path may be lost, as `SharedTargetLosesOne` shows, or come back by another route, as `RestoredByDetour` shows. Restoring is up to letter case.
- StateFileLaws.RefreshIsRewrite: assumes that the package name and the targets are plain lines, since any other text is read as other lines than were written.
- QueryAccess.QueryAccessIndex.Remember: assumes a non-decreasing clock and fewer than 2^64 inserts; a wrapped generation could match a stamp left by an arbitrarily old insert.
- QueryAccess.QueryAccessIndex.Resolve: the display-path lookup and the test for intermediate writers are parameters.
- CleanUp.ClearTargets: the stacks of different targets are independent; detaching a parent mount with its submounts is not modelled.
- UnmountStack.MountTable.ClearVerified: the layers of one mount point form one parent chain and nothing else mounts during the loop; the choice among several independent chains is modelled by `TopmostByStack` alone.
- LedgerRuns.LedgerFile.Reconcile: one flag per round says whether the ledger file can be changed; a file that is writable for one update of a round and not for the next is not modelled.
- Consensus.IsSharedGroupConsistent: the members of the group and their order come from the policy table, which is a parameter.
