# ros2_control: a verified model

ros2_control schedules controllers that share the interfaces of robot hardware, switches them while a
real-time loop runs, and limits what is commanded to joints. This project models its algorithms and
protocols in Dafny and proves what they promise. `dafny verify dfyconfig.toml` checks everything.

| file | models |
|---|---|
| `Names.dfy`, `Controllers.dfy`, `Reals.dfy` | names, list helpers, controller records, real functions |
| `ChainGraph.dfy` | chains as a graph, and the depth-first search for full chains |
| `ChainOrder.dfy` | the recursive insertion that orders controllers along their chains |
| `ChainBookkeeping.dfy` | load, configure, unload: topology, caches, reordered list, and whole runs |
| `SwitchPlan.dfy`, `SwitchClaims.dfy` | planning a STRICT switch, and what accepted plans keep |
| `Activation.dfy`, `WholeSwitch.dfy` | executing a switch: deactivate, change chained mode, claim, activate, roll back; and a switch from request to outcome |
| `UpdateCycle.dfy` | failures during an update cycle |
| `SwitchHandshake.dfy`, `DoubleBuffer.dfy` | the two protocols between service thread and real-time loop |
| `RateSelection.dfy` | which cycles a slower controller takes part in |
| `Hardware.dfy` | lifecycle, availability and group errors of hardware components |
| `JointLimits.dfy`, `RangeLimiter.dfy`, `SoftLimiter.dfy`, `TrajectoryLimiter.dfy`, `TrajectoryClaims.dfy` | joint limiters |

Objects that the program updates in place are classes whose methods change their fields and are proved
against functions or predicates of the old state; lemmas then state what these promise over whole runs.
The two protocols are state machines whose events interleave in any order. Plug-in callbacks, the
availability of interfaces and the iteration order of hash maps are arbitrary values.

What the code does not keep is stated as such, with a concrete example and an exact condition:

- The controller order is wrong for some acyclic chains (`DetourIsMisordered`, `ReorderingIsRight`).
- A configuration that fails and leaves its controller inactive spoils caches and chain groups unless
  they know the controller already (`FailedConfigurationSpoils`, `FailedConfigurationKeepsIff`, `Serve`);
  such a controller, once active, may fail and stay active (`UngroupedFailureGoesOn`).
- A STRICT request may restart a user while its owner goes (`RestartOutlivesItsOwner`,
  `AcceptedPlanClosedIff`), may let a new controller want an interface of a restarted one
  (`RestartKeepsItsInterface`, `AcceptedPlanRivalsIff`), and its rollback may leave a user behind
  (`FailedRestartLeavesUserBehind`, `UnseenOwnerLeaves`, `RollbackClosedIff`).
- Activation reads the availability of an interface three times; a claimed one that is unavailable at the
  first read, available at the second and lost at the third is granted again (`GrantedTwice`,
  `TakeCommandInterface`, `GrantsKeepLoansIff`).
- A write cycle may clear the fault of a hardware group before it has stopped all members
  (`WriteClearsFault`, `GroupFaultPropagates`), and one DEACTIVATE otherwise fails the whole group in the
  next read cycle (`DeactivateFailsGroup`).
- A request for a hardware state may reach it and report a failure (`ReachedButFailed`, `ReachesIff`).
- The velocity limiter cannot keep acceleration and position limits at once when their windows are apart
  (`WindowsApart`, `VelocityCommandRespectsIff`), and sends a joint back into its limits faster than the
  maximum if that is desired and needed (`ReturnBreaksMaximum`, `AboveLimitsVelocity`).
- The trajectory limiter's comment says that position clamping "is done below once again"; the code does
  not clamp again (`PositionMayLeaveLimits`, `PositionInsideIff`). A requested acceleration that is cut
  may lead beyond the maximum velocity (`RequestedAccelerationBreaksVelocity`, `VelocityBoundedIff`), the
  look-ahead ignores the acceleration limit (`LookAheadBreaksAcceleration`, `AccelerationRespectedIff`),
  and a zero velocity is taken for a missing one (`StandStillMoves`, `StandStillKeptIff`).
- Its second distance check is lopsided: upwards it doubles the stopping distance, downwards it never
  holds for a joint inside its limits (`BrakingIsLopsided`, `UpwardBrakesIff`, `DownwardBrakesIff`).

## Model

| member | source | states |
|---|---|---|
| `ChainGraph.GetFullChainSpec` | controller_manager/src/controller_manager.cpp:452-480 | the recursive search terminates, only appends names reachable through following and preceding links, never repeats one, and leaves no appended name with an unlisted neighbour |
| `ChainGraph.ExploredIsComponent` | controller_manager/src/controller_manager.cpp:452-480 | started from an empty list, the search returns exactly the connected component of its start, once each |
| `ChainGraph.BuildFullChainCache` | controller_manager/src/controller_manager.cpp:482-496 | every cached group is exactly the connected component of its key, without repetition |
| `ChainGraph.GroupsPartition` | controller_manager/src/controller_manager.cpp:482-496 | groups are equal or disjoint and cover all controllers: the cache partitions them |
| `ChainOrder.UpdateLists` | controller_manager/src/controller_manager.cpp:4812-4884 | one call keeps every name listed once and never swaps two names that are already listed |
| `ChainOrder.UpdateSaturates` | controller_manager/src/controller_manager.cpp:4865-4882 | a call leaves no newly listed controller with an unlisted neighbour |
| `ChainOrder.SlotIsRightIffOneExists` | controller_manager/src/controller_manager.cpp:4822-4859 | the two iterator loops find a slot after all listed preceding and before all listed following controllers if and only if such a slot exists |
| `ChainOrder.InsertionSorted` | controller_manager/src/controller_manager.cpp:4822-4859 | an insertion leaves the list in chain order if and only if it was in chain order and a right slot existed; it repairs nothing |
| `ChainOrder.UpdateSorted` | controller_manager/src/controller_manager.cpp:4812-4884 | a whole recursive call yields chain order if and only if the list was in order and every insertion on the way had a right slot |
| `ChainOrder.UpdateBlocks` | controller_manager/src/controller_manager.cpp:4812-4884 | every call keeps each chain in one contiguous block |
| `ChainOrder.UpdateForest` | controller_manager/src/controller_manager.cpp:4812-4884 | in a forest (no undirected cycle) every insertion has a right slot, because only the caller's side of the chain is listed |
| `ChainOrder.ReorderingIsRight` | controller_manager/src/controller_manager.cpp:1773-1783 | for every symmetric, closed specification and every iteration order: each controller exactly once, chains in contiguous blocks, chain order if and only if every insertion had a right slot, and always in a forest |
| `ChainOrder.DetourIsMisordered` | controller_manager/src/controller_manager.cpp:1773-1783 | a concrete acyclic specification (A to X to F to H, and A to H) that the reordering, started at F, puts in the wrong order |
| `ChainBookkeeping.ControllerManager.constructor` | controller_manager/include/controller_manager/controller_manager.hpp:593-594 | an empty manager satisfies the bookkeeping invariant that every later operation keeps |
| `ChainBookkeeping.ControllerManager.BuildControllersTopologyInfo` | controller_manager/src/controller_manager.cpp:4886-4941 | the specification and the two caches afterwards describe exactly the uses of command and state interfaces among the configured controllers, once each and in both directions |
| `ChainBookkeeping.LinkAdded` | controller_manager/src/controller_manager.cpp:4914-4940 | one pair of `add_item` calls adds exactly one link, in both directions, whatever was linked before |
| `ChainBookkeeping.ControllerManager.UpdateListWithControllerChain` | controller_manager/src/controller_manager.cpp:4812-4884 | the in-place recursion over the ordered list terminates and refines the function that the order theorems are about |
| `ChainBookkeeping.ControllerManager.ReorderNames` | controller_manager/src/controller_manager.cpp:1773-1783 | the reordering loop refines that function, for any iteration order of the hash map |
| `ChainBookkeeping.ControllerManager.AddControllerImpl` | controller_manager/src/controller_manager.cpp:2438-2523 | loads exactly when the name is new and `init` succeeds; in every state of the manager following and preceding stay inverse without duplicates and the keys stay the loaded names; caches and chain groups stay up to date if they were |
| `ChainBookkeeping.ControllerManager.ControllerChainSpecCleanup` | controller_manager/src/controller_manager.cpp:148-175 | removing a controller removes every mention of it and keeps following and preceding exact inverses |
| `ChainBookkeeping.RemovedIsTwoWay` | controller_manager/src/controller_manager.cpp:148-175 | erasing one name from the lists that mention it leaves an exactly inverse, duplicate-free specification |
| `ChainBookkeeping.ControllerManager.CleanupController` | controller_manager/src/controller_manager.cpp:1512-1560 | succeeds exactly for an unconfigured controller, or an inactive one whose cleanup ends unconfigured, and keeps the bookkeeping in every state of the manager |
| `ChainBookkeeping.ControllerManager.UnloadController` | controller_manager/src/controller_manager.cpp:1417-1484 | when unloading succeeds, exactly, in every state of the manager; the rest of the list and the specification then belong to the remaining controllers, and caches and groups stay up to date if they were |
| `ChainBookkeeping.RemovedIsCovered` | controller_manager/src/controller_manager.cpp:1460-1475 | the preceding-controller caches stay complete for the controllers that remain |
| `ChainBookkeeping.ControllerManager.SortedCopy` | controller_manager/src/controller_manager.cpp:1785-1814 | the reordered list holds, in the computed order, every controller once, unchanged but for its chain group |
| `ChainBookkeeping.ControllerManager.SetGroups` | controller_manager/src/controller_manager.cpp:1796-1812 | every controller gets its own cached chain group and nothing else changes |
| `ChainBookkeeping.ControllerManager.Republish` | controller_manager/src/controller_manager.cpp:1757-1824 | the published list is a reordering of the former one with exact components as groups; bookkeeping and cache completeness are established from unique names alone |
| `ChainBookkeeping.ControllerManager.ConfigureController` | controller_manager/src/controller_manager.cpp:1599-1826 | when configuring succeeds, exactly, in every state of the manager; success makes the controller inactive with the lists that its plug-in reports, publishes the reordered list with caches and groups up to date, lists the controller in the caches of exactly the owners that it uses, and puts it before the owners of its command interfaces and behind those of its state interfaces, in the specification and, in a forest, in the list; failure gives the exact new record, changes neither the specification nor the names, and leaves caches and groups up to date if and only if they were and the failure is harmless: nothing was configured, or the controller does not stay inactive or active, or everything known about it holds already; nobody else changes but for chain groups |
| `ChainBookkeeping.RepublishedIsWired` | controller_manager/src/controller_manager.cpp:4902-4941 | after the rebuild and the reordering, each interface list of a configured controller leads to the right cache, the right direction of the specification and, in a forest, the right order of the published list |
| `ChainBookkeeping.ControllerManager.Serve` | controller_manager/src/controller_manager.cpp:1417-1826 | whole runs of load, configure, cleanup, unload and the outcomes of switches and update cycles: following and preceding stay exact inverses, the keys are exactly the controllers loaded and not unloaded, every answer and every list in between is given, and every request leaves caches and groups up to date as `Served` says, which is exact for configurations |
| `ChainBookkeeping.FailedConfigurationKeepsIff` | controller_manager/src/controller_manager.cpp:1715-1755 | a failed configuration leaves caches and groups up to date if and only if they were and, when the controller stays inactive or active, the caches list all uses between it and the inactive and active controllers, it is in its own group, and every group with an owner that it uses contains it |
| `ChainBookkeeping.CurrentUntilSpoilt` | controller_manager/src/controller_manager.cpp:1599-1826 | in a run, from a successful configuration on, caches and groups are up to date for as long as every failed configuration is harmless, and the first one that is not spoils them |
| `ChainBookkeeping.FailedConfigurationSpoils` | controller_manager/src/controller_manager.cpp:1729-1741 | a concrete configuration that fails, and whose cleanup leaves the controller inactive, after which caches and chain groups miss a user |
| `ChainBookkeeping.RepublishedIsGrouped` | controller_manager/src/controller_manager.cpp:1796-1812 | the chain groups that a configuration stores contain their own controller and, with every name, all its inactive and active users |
| `ChainBookkeeping.LaterIsGrouped` | controller_manager/src/controller_manager.cpp:2525-2829 | loading, unloading, activation and deactivation keep the groups closed under users, and every inactive or active controller in its own group |
| `ChainBookkeeping.SortedIsCovered` | controller_manager/src/controller_manager.cpp:4902-4941 | caches built from the old order cover the users of every controller of the new list |
| `SwitchPlan.SwitchParams.CheckFollowingControllersForActivate` | controller_manager/src/controller_manager.cpp:3885-4043 | answers OK if and only if every direct and indirect following controller is chainable and stays or becomes active; on OK the chained-mode requests and the exposed interfaces are exactly those that the visited owners ask for |
| `SwitchPlan.SwitchParams.CheckPrecedingControllersForDeactivate` | controller_manager/src/controller_manager.cpp:4045-4118 | answers OK if and only if no cached preceding controller of a chainable controller stays or becomes active |
| `SwitchPlan.SwitchParams.PropagateDeactivationOfChainedMode` | controller_manager/src/controller_manager.cpp:3830-3883 | exactly the owners used by the deactivated controllers, up to the first listed one that is not active, are asked to leave chained mode |
| `SwitchPlan.SwitchParams.CheckActivations` | controller_manager/src/controller_manager.cpp:2036-2118 | the STRICT activation loop accepts if and only if every listed controller may be activated, and then changes requests and exposed interfaces exactly for the owners below the inactive ones |
| `SwitchPlan.SwitchParams.CheckDeactivations` | controller_manager/src/controller_manager.cpp:2120-2168 | the STRICT deactivation loop accepts if and only if every listed controller is active and not needed |
| `SwitchPlan.SwitchParams.ExtendWithRestarts` | controller_manager/src/controller_manager.cpp:2180-2309 | the lists grow by exactly the active controllers that change their chained mode, in list order, unless a listed controller is in the wrong state |
| `SwitchPlan.AdmissibleHasNoConflict` | controller_manager/src/controller_manager.cpp:2241-2279 | after the chain checks, the state checks of the list-extending loop can no longer abort a STRICT switch |
| `SwitchPlan.SwitchParams.CheckInterfaces` | controller_manager/src/controller_manager.cpp:4314-4417 | accepts if and only if every newly activated controller finds its interfaces available, no command interface is wanted twice, and every claimed one is released by a deactivated controller |
| `SwitchPlan.SwitchParams.PlanSwitch` | controller_manager/src/controller_manager.cpp:1851-2364 | a STRICT request is planned if and only if it is not empty, passes all chain checks, finds its interfaces free and is accepted by the hardware; the interfaces of the owners that the chain checks expose count as available; the planned lists are the request plus the restarts, the chained-mode requests are given exactly, and every other outcome leaves all lists empty |
| `SwitchPlan.RestartsKeepTarget` | controller_manager/src/controller_manager.cpp:2202-2210 | the restarts added for chained mode do not change which controllers are active in the end |
| `SwitchPlan.UsersGoToo` | controller_manager/src/controller_manager.cpp:4045-4118 | an accepted request deactivates a chainable controller only together with all its active users |
| `SwitchClaims.EntersChainedModeIff` | controller_manager/src/controller_manager.cpp:3904-4041 | an owner is asked to enter chained mode if and only if it is not in it and a chain of uses leads from a newly activated controller to a user of one of its command interfaces |
| `SwitchClaims.OwnersBelowIff` | controller_manager/src/controller_manager.cpp:3904-4041 | the owners that the recursive check visits are exactly those that a chain of uses leads to |
| `SwitchPlan.AcceptedPlanClosedIff` | controller_manager/src/controller_manager.cpp:2034-2309 | from an active set that is closed under chain dependencies, an accepted STRICT plan leads to a closed one if and only if the request strands no user: an owner is deactivated for good while its user is only restarted, or stays unseen because the owner is not chainable |
| `SwitchPlan.DisjointPlanKeepsChains` | controller_manager/src/controller_manager.cpp:2034-2309 | with disjoint requests and chainable owners, every accepted STRICT plan keeps chains whole, restarts included |
| `SwitchClaims.RestartOutlivesItsOwner` | controller_manager/src/controller_manager.cpp:2056-2076 | a concrete accepted request that restarts a user while deactivating its owner for good |
| `SwitchClaims.UnseenOwnerLeaves` | controller_manager/src/controller_manager.cpp:4050-4061 | a concrete accepted request that deactivates an owner that is not chainable, whose active user stays behind |
| `SwitchClaims.FirstActivationIsAccepted` | controller_manager/src/controller_manager.cpp:4003-4019 | a concrete first activation of a chain: its interfaces are free only because the chain checks expose the owner's references |
| `SwitchClaims.AcceptedPlanRivalsIff` | controller_manager/src/controller_manager.cpp:4314-4417 | after an accepted STRICT plan no two active controllers want the same command interface if and only if no new controller wants one of a restarted controller |
| `SwitchClaims.NewHasNoRival` | controller_manager/src/controller_manager.cpp:4343-4402 | a newly activated controller never rivals one that stays active or is also new |
| `SwitchClaims.RestartKeepsItsInterface` | controller_manager/src/controller_manager.cpp:4338-4349 | a concrete request that passes all chain and interface checks without further restarts, after which two controllers want one interface: what a restarted controller releases counts as free |
| `SwitchClaims.RollbackClosedIff` | controller_manager/src/controller_manager.cpp:2795-2829 | when a STRICT activation fails, the controllers that remain active are closed under chain dependencies if and only if nobody is left behind by a restarted, or unseen, owner |
| `SwitchClaims.FailedRestartLeavesUserBehind` | controller_manager/src/controller_manager.cpp:2795-2829 | a concrete accepted request, with the restarts that its checks ask for, whose failed activation leaves an active user without its owner |
| `Activation.Switcher.ClaimCommandInterface` | hardware_interface/src/resource_manager.cpp:1882-1902 | a claim is granted exactly when the interface is available at the first read and not both available and claimed at the second, whatever other threads do in between; so a claimed interface is granted again exactly when its availability is lost in between |
| `Activation.Switcher.TakeCommandInterface` | controller_manager/src/controller_manager.cpp:2683-2696 | the question whether an interface is claimed and the claim after it, with other threads acting before, between and inside: the exact condition, over the three reads, under which it succeeds and under which a claimed interface is granted again |
| `Activation.GrantKeepsLoansIff` | hardware_interface/src/resource_manager.cpp:1882-1902 | a granted claim keeps claimed flags and live loans in step if and only if the interface was not claimed |
| `Activation.GrantsKeepLoansIff` | controller_manager/src/controller_manager.cpp:2676-2717 | a whole list of grants keeps flags and loans in step if and only if every interface is granted once and was free |
| `Activation.GrantedTwice` | hardware_interface/src/resource_manager.cpp:1870-1902 | a claimed interface is taken by a second controller if and only if it is unavailable when asked whether it is claimed, available at the first read of the claim and lost at the second; two controllers then hold it |
| `Activation.NewcomerIsFree` | controller_manager/src/controller_manager.cpp:2658-2717 | without contention between those activated and those active, the next controller finds its command interfaces free, so no interface is granted twice however availability flips |
| `Activation.Switcher.ReleaseAll` | hardware_interface/src/resource_manager.cpp:1905-1909 | destroying a list of loans clears exactly their flags |
| `Activation.Switcher.ClaimFor` | controller_manager/src/controller_manager.cpp:2676-2745 | while availability changes at any time, all command interfaces are claimed or none is kept; flags and loans stay in step if and only if none of them was granted twice; if availability does not change, the claims succeed if and only if all interfaces are available and the command interfaces are different and unclaimed |
| `Activation.Switcher.DeactivateControllers` | controller_manager/src/controller_manager.cpp:2525-2584 | exactly the listed active controllers lose the active state (except those that deactivation leaves active), all their loans, what they export and, if their plug-in agrees, their chained mode; flags stay in step with loans |
| `Activation.Switcher.SwitchChainedMode` | controller_manager/src/controller_manager.cpp:2586-2630 | exactly the listed chainable controllers that are not active are asked for the given mode; they take it if their plug-in agrees, and nothing else changes |
| `Activation.Switcher.ActivateOne` | controller_manager/src/controller_manager.cpp:2658-2795 | one controller ends active with all its command interfaces or not active with none, however availability flips, keeps its chained mode, and nobody else changes; a willing plug-in is active afterwards if and only if it was inactive or active and all interfaces could be claimed, if availability does not change |
| `Activation.Switcher.ActivateControllers` | controller_manager/src/controller_manager.cpp:2632-2829 | all-or-nothing per controller, however availability flips; success means all listed ones are active with their interfaces; under STRICT one failure leaves none of them active; without contention no interface is granted twice; without contention and with willing plug-ins it succeeds if every interface is available or exported by a listed controller, and then exactly the exports of the listed ones become available |
| `Activation.Switcher.ManageSwitch` | controller_manager/src/controller_manager.cpp:3311-3369 | from a state in which every controller holds all or nothing, the active set afterwards is exactly the planned one, or exactly the rolled-back one, or, without STRICT, the planned one but for those whose activation fails; flags and loans stay in step unless an interface is granted twice, which a plan without contention excludes; only controllers asked to enter chained mode gain it, only those asked to leave it or stopped lose it, and where plug-ins agree the mode is given exactly; an uncontended plan whose interfaces stay available succeeds |
| `Activation.LoansGone` | controller_manager/src/controller_manager.cpp:2546-2549 | clearing the loans of a controller leaves every remaining claimed flag with exactly one live loan |
| `Activation.LoansAssigned` | controller_manager/src/controller_manager.cpp:2745-2795 | assigning the pending loans to the activated controller keeps every claimed flag with exactly one live loan |
| `WholeSwitch.Switch` | controller_manager/src/controller_manager.cpp:1851-2436 | from the request to the outcome: a request is accepted exactly under the stated condition, exposed interfaces included; an accepted plan that succeeds leaves exactly the target active, closed under chain dependencies if and only if nobody is stranded; one that fails leaves exactly those active that were not listed, closed if and only if nobody is left behind; a target without rivals is reached without granting an interface twice; with nothing in its way an accepted plan does succeed; restarts and chained modes are given exactly |
| `WholeSwitch.SmoothIsStartable` | controller_manager/src/controller_manager.cpp:2525-2745 | in an accepted plan that strands nobody, whoever is activated still finds all its interfaces after the deactivations: an owner that is stopped is restarted with its users |
| `SwitchHandshake.StepKeepsInvariant` | controller_manager/src/controller_manager.cpp:2366-2417 | every step of the service thread, the real-time loop and the mutex keeps the handshake invariant |
| `SwitchHandshake.EveryInterleavingIsSafe` | controller_manager/src/controller_manager.cpp:2366-2417 | in every interleaving of any number of requests and timeouts: while the service thread is inside manage_switch the real-time loop updates no named controller; the body runs for waiting callers only, never after a reported timeout or between requests; when a request is over, one whose caller left normally has been served exactly once, one whose caller reported a timeout never |
| `SwitchHandshake.WaitingCallerIsServed` | controller_manager/src/controller_manager.cpp:3576-3586 | an asap caller that waits when a cycle ends is served by it: in every interleaving afterwards it leaves normally if and only if the three remaining steps of the real-time loop and its own two have occurred, and waits until then, expired timeouts included |
| `SwitchHandshake.PollingCallerIsServed` | controller_manager/src/controller_manager.cpp:3576-3586 | a caller that is not asap and polls when a cycle ends sees the ready flag: in every interleaving afterwards in which it does not time out first, it leaves normally, the body having run once, if and only if its three steps have occurred |
| `SwitchHandshake.PhaseEnds` | controller_manager/src/controller_manager.cpp:2366-2417 | being made, being served and being cleared: in every interleaving each phase of a request ends exactly when the due steps that are left have occurred, and lasts until then |
| `SwitchHandshake.RequestsAreMadeAndCleared` | controller_manager/src/controller_manager.cpp:2366-2436 | from idle a request waits exactly after its four steps, with do_switch raised and nothing run; once its caller has left, it is reported and cleared exactly after two more |
| `SwitchHandshake.OnlyTimeoutsFail` | controller_manager/src/controller_manager.cpp:2383-2412 | in every run without an expired timeout every request that is over was served |
| `SwitchHandshake.ExpiredTimeoutEndsWait` | controller_manager/src/controller_manager.cpp:2383-2412 | an expired timeout makes a polling, or a blocked and unserved, caller leave |
| `SwitchHandshake.SkipsExactlyTheNamed` | controller_manager/src/controller_manager.cpp:3409-3418 | between two controllers the real-time loop updates any controller but those named by a request that is not asap and still raised, which it is only while its caller polls, switches or has timed out |
| `SwitchHandshake.FilledNamesAreSafe` | controller_manager/src/controller_manager.cpp:3409-3418 | the names that a request was filled with last are the ones that no update touches while the caller switches |
| `DoubleBuffer.StepKeepsInvariant` | controller_manager/src/controller_manager.cpp:3713-3787 | every writer and real-time step keeps the invariant, and no published list is forgotten |
| `DoubleBuffer.OnlyLockedWritersEdit` | controller_manager/src/controller_manager.cpp:3724-3738 | without the lock, or without having been given the unused list, nobody writes or publishes |
| `DoubleBuffer.EveryInterleavingIsSafe` | controller_manager/src/controller_manager.cpp:3713-3787 | in every interleaving the edited list is never the used one, and the used list is one that was published whole |
| `DoubleBuffer.LastWrittenIsUsed` | controller_manager/src/controller_manager.cpp:3713-3787 | in every interleaving, the list that was written last before a publication is the one published, and the one that the real-time loop uses from its next pick-up on |
| `DoubleBuffer.UnwrittenIsTheFormer` | controller_manager/src/controller_manager.cpp:3713-3787 | a publication without a write publishes again the list that the one before replaced |
| `DoubleBuffer.PickUpReleasesWriter` | controller_manager/src/controller_manager.cpp:3776-3787 | a pick-up yields the latest published list and releases every waiting writer, who never waits again before the next publication |
| `DoubleBuffer.WriterGoesOn` | controller_manager/src/controller_manager.cpp:3720-3787 | after a pick-up every next step of the writer goes through, whatever happens before it, up to the next publication |
| `DoubleBuffer.UsedListIsStable` | controller_manager/src/controller_manager.cpp:3720-3734 | nothing but the next pick-up changes the list that the real-time loop reads |
| `UpdateCycle.Update` | controller_manager/src/controller_manager.cpp:3406-3572 | exactly the active members of stored groups of failed controllers are deactivated and lose their loans; everybody else is untouched |
| `UpdateCycle.FailureIsContained` | controller_manager/src/controller_manager.cpp:3502-3563 | after the cycle no member of a failed controller's group is active, everybody else is exactly as before, a failed controller stays active exactly if it is in no failed controller's group, and a closed active set stays closed, given groups that contain their members' users |
| `UpdateCycle.ContainedInEveryRun` | controller_manager/src/controller_manager.cpp:3502-3563 | in every state of a run in which the groups are up to date, every failed controller stops with its whole group, chains stay whole, and the cycle is an outcome with which the run goes on |
| `UpdateCycle.UngroupedFailureGoesOn` | controller_manager/src/controller_manager.cpp:3502-3515 | a concrete controller, left inactive by a failed configuration and then activated, that fails in an update and stays active because its group is empty |
| `Hardware.ResourceStorage.ConfigureHardware` | hardware_interface/src/resource_manager.cpp:304-391 | success is the inactive state, exactly when an unconfigured component answers SUCCESS or one is inactive already, and lists all its interfaces; kept: every inactive or active component has all its interfaces available, none listed twice |
| `Hardware.ResourceStorage.RemoveAllInterfaces` | hardware_interface/src/resource_manager.cpp:393-443 | exactly the interfaces of one component that does not run leave the available lists |
| `Hardware.ResourceStorage.CleanupHardware` | hardware_interface/src/resource_manager.cpp:446-479 | reports success exactly when the component ends unconfigured, gives the end state for every answer, and takes exactly its interfaces off the lists if it succeeds |
| `Hardware.ResourceStorage.ShutdownHardware` | hardware_interface/src/resource_manager.cpp:482-519 | reports success exactly when the component ends finalized, gives the end state for every answer, and takes exactly its interfaces off the lists if it succeeds |
| `Hardware.ResourceStorage.ActivateHardware` | hardware_interface/src/resource_manager.cpp:522-546 | reports success exactly when the component ends active, gives the end state for every answer of the plug-in and of on_error; an error leaves names listed, which the invariant allows |
| `Hardware.ResourceStorage.DeactivateHardware` | hardware_interface/src/resource_manager.cpp:549-579 | reports success exactly when the component ends inactive, gives the end state for every answer, and keeps availability |
| `Hardware.ResourceStorage.SetComponentState` | hardware_interface/src/resource_manager.cpp:582-682 | a state request reports success if and only if the answers of the plug-in lead to the target, and then the target is reached; a step that fails ends it where it is; exactly the component's interfaces come or go, if it is configured, or cleaned up or shut down |
| `Hardware.ReachesIff` | hardware_interface/src/resource_manager.cpp:582-682 | a state request reports success if and only if the target is reached, except that an active component whose deactivation ends in an error has failed wherever it ends |
| `Hardware.ReachedButFailed` | hardware_interface/src/resource_manager.cpp:582-682 | a concrete request that reaches its target and reports a failure |
| `Hardware.AfterError` | hardware_interface/src/hardware_component.cpp:220-246 | after on_error a component is neither inactive nor active, whatever it answers |
| `Hardware.ResourceStorage.UpdateGroupState` | hardware_interface/src/resource_manager.cpp:1351-1366 | a group remembers the latest result that was not OK, and a member gets the state of its group |
| `Hardware.ResourceStorage.Read` | hardware_interface/src/resource_manager.cpp:2399-2497 | a read cycle gives every component one turn, in order, under the group states left by the turns before; the failed names and the result follow; exactly the interfaces of stopped components leave the lists |
| `Hardware.ResourceStorage.Write` | hardware_interface/src/resource_manager.cpp:2500-2606 | a write cycle gives every component but sensors one turn under the group states left before; states, failed names and the result follow, a DEACTIVATE being a request for the inactive state; an interface is available afterwards if and only if it was, or its component was configured, and its component did not fail |
| `Hardware.ReadReports` | hardware_interface/src/resource_manager.cpp:2399-2497 | a read cycle reports exactly the components that answer with anything but OK or find their group in trouble, and leaves all others as they are |
| `Hardware.WriteReports` | hardware_interface/src/resource_manager.cpp:2500-2606 | a write cycle is OK exactly if all components that are written and their groups are; it reports errors by name, and deactivations if asked to |
| `Hardware.DeactivateFailsGroup` | hardware_interface/src/resource_manager.cpp:2482-2488 | one DEACTIVATE in a write cycle takes every member of the group out of the inactive and active states by the end of the next read cycle, unless an unconfigured member clears the group |
| `Hardware.FaultyGroupStops` | hardware_interface/src/resource_manager.cpp:2458-2488 | a read cycle that finds a group not OK leaves none of its members inactive or active |
| `Hardware.GroupFaultPropagates` | controller_manager/src/ros2_control_node.cpp:153-155 | in the control loop, read, write and read again: once a member fails in the first read, no member is inactive or active after the second, unless the writes clear the group; when the second reads are all OK, this is so if and only if they do not clear it or leave no member inactive or active |
| `Hardware.FaultStopsLaterTurns` | hardware_interface/src/resource_manager.cpp:2458-2488 | once a member fails, no member whose turn comes later in the same cycle ends it inactive or active |
| `Hardware.GroupInWrites` | hardware_interface/src/resource_manager.cpp:1351-1366 | exactly when a group is OK, or asked to deactivate, in the course of a write cycle: it forgets a fault only when a DEACTIVATE reaches an unconfigured member, which is then configured, and all later answers are OK |
| `Hardware.WriteThenReadStopsIff` | hardware_interface/src/resource_manager.cpp:2399-2606 | after a write and a read cycle whose reads are OK, no member is inactive or active if and only if none was after the writes, or the group was in trouble and was not cleared |
| `Hardware.WriteClearsFault` | hardware_interface/src/resource_manager.cpp:2581-2598 | a concrete group whose fault the write cycle clears, so that both members are inactive after the next read |
| `Hardware.FaultStays` | hardware_interface/src/resource_manager.cpp:1351-1366 | a group that is not OK stays so for the rest of a cycle |
| `Hardware.SoundGroupUntouched` | hardware_interface/src/resource_manager.cpp:2399-2497 | members of a group without errors keep their state |
| `JointLimits.PositionCommandBounded` | joint_limits/src/joint_limits_helpers.cpp:103-136 | every clamped position command is inside the limits, and at most max_velocity times dt from a previous command inside them |
| `JointLimits.PositionCommandKeptIff` | joint_limits/src/joint_limits_helpers.cpp:103-136 | a position inside the limits is commanded as it is if and only if it is within reach of the reference, by the maximum velocity and by what the acceleration limit lets the joint reach; one that is not is approached exactly that far |
| `JointLimits.VelocityWindowInBounds` | joint_limits/src/joint_limits_helpers.cpp:138-175 | with the joint in bounds the velocity window is ordered, contains a velocity within the maximum, and keeps the next position in bounds |
| `JointLimits.VelocityInsideIff` | joint_limits/src/joint_limits_helpers.cpp:138-175 | with the joint in bounds, a velocity lies in that window if and only if it is within the maximum and the next position is in bounds |
| `JointLimits.VelocityCommandBounded` | joint_limits/src/joint_limits_helpers.cpp:138-197 | with the joint in bounds and the previous command within the maximum, the command is within the maximum, also when the windows do not meet |
| `JointLimits.VelocityCommandRespectsIff` | joint_limits/src/joint_limits_helpers.cpp:176-197 | the command respects the acceleration limit and keeps the next position in bounds if and only if the acceleration window meets the position window |
| `JointLimits.WindowsApart` | joint_limits/src/joint_limits_helpers.cpp:176-197 | a concrete joint whose windows are apart: the command leaves the position limits |
| `JointLimits.AboveLimitsVelocity` | joint_limits/src/joint_limits_helpers.cpp:138-175 | a joint above its limits: when it may not move at all; otherwise it moves back, ends the step inside or moves at least with the maximum velocity, and faster exactly if that is desired and needed |
| `JointLimits.BelowLimitsVelocity` | joint_limits/src/joint_limits_helpers.cpp:138-175 | the same below the limits |
| `JointLimits.ReturnBreaksMaximum` | joint_limits/src/joint_limits_helpers.cpp:138-175 | a concrete joint just above its limits that is commanded faster than its maximum velocity |
| `JointLimits.EffortInsideIff` | joint_limits/src/joint_limits_helpers.cpp:199-234 | an effort passes if and only if it is within the maximum, pushes no joint out that stands at a limit and moves outwards, and speeds up none that is too fast |
| `JointLimits.AccelerationCommandAllowed` | joint_limits/src/joint_limits_helpers.cpp:236-257 | an acceleration command is within its limit, is the desired one if and only if that is, and otherwise the largest in its direction |
| `RangeLimiter.JointSaturationLimiter.OnEnforce` | joint_limits/src/joint_range_limiter.cpp:45-180 | each kind of command is clamped to its window, the stored previous command is updated with what was returned, and the answer tells whether anything changed |
| `RangeLimiter.PositionRunBounded` | joint_limits/src/joint_range_limiter.cpp:129-136 | in runs of any length every position command is inside the limits, and any two commands differ by at most max_velocity times the time between them |
| `RangeLimiter.VelocityRunBounded` | joint_limits/src/joint_range_limiter.cpp:138-147 | in runs of any length in which every position that is read is in bounds, every velocity command is within the maximum |
| `RangeLimiter.VelocityRunRespectsIff` | joint_limits/src/joint_range_limiter.cpp:138-147 | in such a run a command respects acceleration and position limits exactly in the cycles whose windows meet |
| `RangeLimiter.CommandPositions` | joint_limits/src/joint_range_limiter.cpp:45-180 | calling the limiter once per cycle with positions gives such a run: the commands stay inside the limits and travel no faster than the maximum velocity |
| `RangeLimiter.CommandVelocities` | joint_limits/src/joint_range_limiter.cpp:45-180 | calling the limiter once per cycle with velocities gives such a run: the commands stay within the maximum |
| `SoftLimiter.JointSoftLimiter.OnEnforcePosition` | joint_limits/src/joint_soft_limiter.cpp:25-205 | for every previous command each clamp gets ordered bounds, the command lies inside the soft window, and inside the hard window if and only if the two windows meet; a wish inside both is kept |
| `SoftLimiter.JointSoftLimiter.SoftWindow` | joint_limits/src/joint_soft_limiter.cpp:115-188 | the step-by-step bounds are the soft limits, narrowed by what the soft velocities reach in one step |
| `SoftLimiter.SoftBounds` | joint_limits/src/joint_soft_limiter.cpp:115-188 | the bounds are always ordered and inside the soft position limits, however far out the previous command was |
| `SoftLimiter.SoftApproachIff` | joint_limits/src/joint_soft_limiter.cpp:138-188 | between the soft limits exactly the positions pass that are reached with the maximum velocity and a velocity in proportion to the distance of the limit ahead |
| `SoftLimiter.SoftReturn` | joint_limits/src/joint_soft_limiter.cpp:152-176 | out of the soft limits a joint is sent back at a fixed velocity, no farther than to the limit |
| `SoftLimiter.SoftCreepIff` | joint_limits/src/joint_soft_limiter.cpp:157-165 | out of the soft limits with a reference between them, exactly the positions between the limits pass that the fixed velocity reaches from the reference |
| `SoftLimiter.SoftAbsentIff` | joint_limits/src/joint_soft_limiter.cpp:128-188 | without soft limits exactly the positions pass that the maximum velocity reaches |
| `SoftLimiter.SoftHold` | joint_limits/src/joint_soft_limiter.cpp:152-176 | far out of the hard limits a joint is held at its reference |
| `SoftLimiter.SoftCommandInside` | joint_limits/src/joint_soft_limiter.cpp:169-205 | the command lies inside the soft position limits, hence inside hard limits that contain them |
| `TrajectoryLimiter.JointSaturationLimiter.OnEnforce` | joint_limits/src/joint_saturation_limiter.cpp:29-422 | the array loops compute, for every joint, the position, velocity and acceleration limits in order, the look-ahead and the common braking; unusable input is returned as it is; the answer tells exactly whether some limit took part |
| `TrajectoryLimiter.JointSaturationLimiter.NeedsBraking` | joint_limits/src/joint_saturation_limiter.cpp:243-303 | braking is triggered exactly when the distance to the limit is shorter than the stopping distance, or than the motion while stopping (upwards only, as the sign in the code has it) |
| `TrajectoryLimiter.JointSaturationLimiter.BrakeAt` | joint_limits/src/joint_saturation_limiter.cpp:305-341 | one joint gets the acceleration that stops it within the period, cut by its deceleration or else acceleration limit |
| `TrajectoryClaims.VelocitiesBounded` | joint_limits/src/joint_saturation_limiter.cpp:77-341 | with the current state inside the limits and no acceleration request, every returned velocity of a velocity-limited joint is within its maximum |
| `TrajectoryClaims.RequestedAccelerationBreaksVelocity` | joint_limits/src/joint_saturation_limiter.cpp:179-214 | a concrete joint inside its limits whose requested acceleration is cut and yields a velocity above the maximum |
| `TrajectoryClaims.VelocityBoundedIff` | joint_limits/src/joint_saturation_limiter.cpp:77-341 | with any request, a returned velocity is within the maximum if and only if all joints brake, or the acceleration is not cut, or the velocity that the cut acceleration leads to is within it, or the distance to the limit over dt is |
| `TrajectoryClaims.MissingVelocityIsDerived` | joint_limits/src/joint_saturation_limiter.cpp:100-128 | a requested velocity that counts as zero is replaced by the one that leads to the returned position, unless the joint is there |
| `TrajectoryClaims.BrakingSlowsDown` | joint_limits/src/joint_saturation_limiter.cpp:305-341 | while braking, no returned velocity is larger in magnitude than the current one, or reversed |
| `TrajectoryClaims.BrakingIsHard` | joint_limits/src/joint_saturation_limiter.cpp:306-341 | while braking every joint comes to rest in one step or returns the largest acceleration that slowing down allows |
| `TrajectoryClaims.AccelerationsBounded` | joint_limits/src/joint_saturation_limiter.cpp:147-201 | for any request every returned acceleration is within the acceleration limit, or the deceleration limit when slowing down, braking included |
| `TrajectoryClaims.AccelerationsKeptIff` | joint_limits/src/joint_saturation_limiter.cpp:147-201 | without braking the wanted acceleration is returned if it is allowed, and otherwise the largest allowed in its direction |
| `TrajectoryClaims.ReturnedValuesAgreeIff` | joint_limits/src/joint_saturation_limiter.cpp:203-234 | when a joint brakes or its acceleration is cut, position and velocity are those after one step with the returned acceleration, the velocity exactly unless the look-ahead has to shorten a step that leaves the position limits |
| `TrajectoryClaims.CanStillStop` | joint_limits/src/joint_saturation_limiter.cpp:243-303 | unless all joints brake, every returned velocity lets its joint come to rest before its position limit |
| `TrajectoryClaims.DownwardBrakesIff` | joint_limits/src/joint_saturation_limiter.cpp:269-299 | a joint inside its limits that moves downwards brakes if and only if its stopping distance is too long: the second distance check never holds |
| `TrajectoryClaims.UpwardBrakesIff` | joint_limits/src/joint_saturation_limiter.cpp:269-299 | a joint that moves upwards brakes if and only if twice its stopping distance is too long |
| `TrajectoryClaims.BrakingIsLopsided` | joint_limits/src/joint_saturation_limiter.cpp:283-299 | of two mirrored joints the one that moves upwards brakes and the other does not |
| `TrajectoryClaims.NextPositionsInside` | joint_limits/src/joint_saturation_limiter.cpp:217-242 | unless all joints brake, a request of velocities alone keeps the next position inside the limits |
| `TrajectoryClaims.LookAheadBreaksAcceleration` | joint_limits/src/joint_saturation_limiter.cpp:217-242 | a concrete joint whose look-ahead forces a velocity change that its acceleration limit forbids |
| `TrajectoryClaims.AccelerationRespectedIff` | joint_limits/src/joint_saturation_limiter.cpp:146-242 | without an acceleration request, the change of a returned velocity is within the limits if and only if all joints brake, or the look-ahead takes no part, or slowing down to the distance to the limit over dt takes no more than the allowed deceleration |
| `TrajectoryClaims.PositionMayLeaveLimits` | joint_limits/src/joint_saturation_limiter.cpp:201-214 | a concrete joint inside its limits whose returned position is outside: a position integrated from a cut acceleration is not clamped again |
| `TrajectoryClaims.PositionInsideIff` | joint_limits/src/joint_saturation_limiter.cpp:92-214 | with any request, a returned position is inside its limits if and only if the position integrated last is: from the braking acceleration, else from the cut acceleration, else from the maximum velocity, if the wanted one is above it |
| `TrajectoryClaims.SoughtPositionInside` | joint_limits/src/joint_saturation_limiter.cpp:92-143 | for a request of positions alone a joint inside its limits seeks a position inside them, so only a cut or braking acceleration leads out |
| `TrajectoryClaims.UnlimitedIsKept` | joint_limits/src/joint_saturation_limiter.cpp:77-303 | a request that no limit changes is returned as it is, but for velocities and accelerations that count as zero |
| `TrajectoryClaims.StandStillKeptIff` | joint_limits/src/joint_saturation_limiter.cpp:119-127 | without braking, a request of velocities alone to stand still is kept by the limiter if and only if what the acceleration limit leaves of it is zero, which is at position zero when nothing is cut, or a position limit is in the way |
| `TrajectoryClaims.StandStillMoves` | joint_limits/src/joint_saturation_limiter.cpp:119-127 | a concrete joint that is asked to stand still and is returned its maximum velocity |
| `RateSelection.ControllerSpec.Tick` | controller_manager/src/controller_manager.cpp:3431-3454 | the run-or-skip decision, the period told to the controller and the stored time of its last run |
| `RateSelection.DueIff` | controller_manager/src/controller_manager.cpp:3445-3454 | running now is no worse than skipping if and only if the time since the last run reaches 1/r - 1/(2R) |
| `RateSelection.FirstPeriodIsItsOwn` | controller_manager/src/controller_manager.cpp:3429-3466 | a controller runs in its first cycle and is told its own period, or the manager's if it is as fast; later it is told the time since it ran last |
| `RateSelection.StrideIsLeast` | controller_manager/src/controller_manager.cpp:3445-3454 | the stride in closed form is the least number of ticks that reaches that threshold |
| `RateSelection.RunsEveryStride` | controller_manager/src/controller_manager.cpp:3431-3500 | with ticks exactly 1/R apart, a controller runs at exactly the multiples of its stride |
| `RateSelection.PeriodWithinHalfTick` | controller_manager/src/controller_manager.cpp:3431-3500 | so its period is within half a tick of 1/r |
| `RateSelection.PeriodsBounded` | controller_manager/src/controller_manager.cpp:3431-3500 | with any ticks at most S apart, every period lies in [1/r - 1/(2R), 1/r - 1/(2R) + S) |
| `RateSelection.FastRunsAlways` | controller_manager/src/controller_manager.cpp:3432-3454 | a controller that is as fast as the manager runs in every cycle |
| `Names.AddItem` | hardware_interface/include/hardware_interface/helpers.hpp:80-86 | nothing is lost, the item is there once, and a list without repetition stays one |
| `Names.RemoveItem` | hardware_interface/include/hardware_interface/helpers.hpp:110-120 | only the first occurrence goes, every other item stays |

## Left out

- ROS plumbing: services, parameters, publishers, diagnostics, statistics, introspection and log messages have no effect on the modelled state.
- Plug-in loading and plug-in code: callbacks are arbitrary outcomes; exceptions they throw, with or without `handle_exceptions`, count as an error result or are not modelled.
- BEST_EFFORT planning and AUTO strictness: the code keeps no clean statement there; the BEST_EFFORT half of activation is in `ActivateControllers`.
- Interface configurations ALL, REGEX and INDIVIDUAL_BEST_EFFORT: interfaces are individually named, and a controller's lists are fixed once it is configured.
- Interface names without a '/': the code throws on them; here an interface is an owner and an item.
- Fallback controllers: their check is an input of the plan (`rejected`), and an update cycle has none.
- The answers of prepare_command_mode_switch and perform_command_mode_switch are inputs; the lists of command interfaces passed to them, and the cache from controllers to hardware, are not part of this model.
- Asynchronous controllers and components, and their threads.
- Memory races below the stated steps: a state read or written by one event of `SwitchHandshake` or `DoubleBuffer` is read or written at once.
- Weak memory order, and a service thread that is interrupted by shutdown while it waits.
- Concurrent service calls: each holds the services lock, so the model has one service thread.
- ManageSwitch: gives exact chained modes for plug-ins that agree to every change, and bounds for those that refuse some or are rolled back; it covers deactivations that leave the active state, ActivateControllers and DeactivateControllers also those that do not.
- An update cycle between the plan of a switch and its execution: WholeSwitch executes the plan from the state that it was made for.
- CheckFollowingControllersForActivate: says nothing about the requests and the exposed interfaces that a refused check leaves behind; the requests are cleared then.
- Read and write visit the components in list order; the three lists of actuators, sensors and systems are one list.
- Hardware components are values in a list that methods replace, not objects of their own; import, removal and errors during initialisation are left out.
- Component clocks: whether a component is due in a cycle is an input; the rule is the one of `RateSelection`.
- Joint limiter arithmetic is exact: no rounding, NaN, infinity or signed zero; missing values are options, and limits are nonnegative and ordered.
- Soft limiter velocity, effort, acceleration and jerk branches: their bounds can cross.
- Trajectory limiter: a desired velocity or acceleration that is NaN; the lists of limited joints serve only messages.
- VelocitiesBounded: is for requests without accelerations; VelocityBoundedIff is for all.
- Hash maps are Dafny maps with an explicit iteration order `keys`.
- URDF and XML parsing, transmissions, semantic components, spawners, the GUI and sleep policies.
