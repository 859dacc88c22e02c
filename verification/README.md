# Oblimap: a verified model of its group tree, probe and sensor labels

Oblimap is a network map: a React client manages groups, sites and teams; Go probes scan local subnets and
relay tunnels; Go agents report sensor readings. This project models the parts of it that carry real logic and
proves what they promise, or, where the code does less than its comments or its screen suggest, exactly when
it keeps the promise.

| file | models |
|---|---|
| `GroupTree.dfy`, `Ancestry.dfy` | the group forest, its preorder listing, its parent relation, moves |
| `DropZones.dfy`, `GroupDrag.dfy` | the drop gaps of the group manager, and what a drop does |
| `GroupClosure.dfy` | the server's closure table: creating, moving and deleting groups |
| `Coverage.dfy` | permissions that a team holds through an ancestor group |
| `CollapseStore.dfy` | which groups are collapsed, per user and tenant |
| `Tunnels.dfy`, `WsSession.dfy`, `ScanPool.dfy` | the probe's goroutines, as step machines over every interleaving |
| `Bits.dfy`, `Cidr.dfy`, `ProbeScan.dfy` | CIDR blocks, host enumeration, exclusions, the device list of a scan |
| `Sorting.dfy`, `SubnetTable.dfy` | stable sorting; sorting and /24 grouping of a site's devices |
| `SensorLabels.dfy`, `SensorNames.dfy` | canonical sensor labels and their readable form |
| `LhmText.dfy`, `LhmReadings.dfy` | the text of the sensor script, and the labels and core clocks made of it |
| `Wrappers.dfy`, `Sequences.dfy`, `Text.dfy` | options, facts about sequences, decimal numbers and other text |

`dafny verify dfyconfig.toml` checks everything.

Code that builds its result step by step is a method with the same loop (`FlattenTree`, `DropZonesAfter`,
`HostIPs`, `SanitizeLabel`, ...) or a class with the same fields (`GroupStore`, `Collector`, `Probe`), proved
against a function; the lemmas then say what that function means. The concurrent parts are state machines
whose steps are single critical sections, channel operations or connection operations, and whose theorems range
over every sequence of enabled steps.

## Where the code and its description differ

The model follows the code. These are stated as theorems:

- A drop into a gap between groups is refused below the dragged group, but not directly inside it: the group is
  then sent to the server as its own parent (`GroupDrag.SentMovesKeepForestIff`, `GroupDrag.OwnParentIsSent`).
  The cycle there is the intended effect of the move sent; the server refuses it, because its closure table has a
  row from every group to itself (`GroupClosure.DropsKeepExact`).
- The server's comment on deletion says that the database also deletes child groups; by the schema they become
  roots. Closure rows from groups above the deleted one to groups below it stay behind
  (`GroupClosure.DeleteKeepsExactIff`, `GroupClosure.MiddleLeavesRows`).
- A move to a parent that does not exist fails at its last statement, when the rows above the group are already
  gone (`GroupClosure.MoveKeepsExactIff`).
- A gap's index counts the dragged group, the sibling list does not: dragging down inside one list lands one
  place too far, except in the last gap (`GroupDrag.LandsInGapIff`, `GroupDrag.DropBelowItselfMoves`).
- `expandAncestors` says it also expands the target, but a root target is left as it was
  (`CollapseStore.ExpandAncestorsIsExact`, `CollapseStore.RootTargetStaysCollapsed`).
- A covering group with id 0 would count as no cover (`Coverage.CoveredByNearestAssigned`,
  `Coverage.ZeroCoversNothing`). Ids of stored groups are positive, so this is no tree the page receives.
- `hostIPs` promises at most 4094 hosts; for 255.255.255.255/32 the first address wraps to 0.0.0.0 and nearly the
  whole address space is listed (`Cidr.HostsAreUsableIff`). A probe that scans this block can report any device
  twice (`ProbeScan.ReportsAreUniqueIff`).
- The comment of `discoverSubnets` says that excluded subnets are filtered out there; the filter is in `doScan`.
- If the server reuses a tunnel id while the first tunnel is up, a close command can no longer reach the first
  one (`Tunnels.CloseReachesLiveTunnelsIff`); `done` is still never closed twice.
- A close command that arrives before its tunnel is registered is dropped, and the tunnel then goes live
  (`Tunnels.CloseTakesTunnelIff`, `Tunnels.EarlyCloseIsLost`).
- A WebSocket session whose scan worker, heartbeat and read loop all fail before the ticker goroutine has sent
  its first trigger can hang for good. `WsSession.HangPossibleIff` says from which reachable states this can still
  happen, `WsSession.HungIsReachable` that it does.
- A session whose read loop has returned can leave its ticker, its scan worker or both blocked for ever
  (`WsSession.SettledIff`, `WsSession.TickerStaysIff`).
- Repeated sensor labels are numbered `_2`, `_3`, ..., which can collide with a sensor that is really called so
  (`LhmReadings.ReportedNamesDistinctIff`, `LhmReadings.NumberCanClash`).
- The sensor script does not escape `|`: a sensor whose name or hardware contains it is dropped
  (`LhmText.LineIsReadIff`).
- The comment of `parseLHMOutputAll` says that core N is slot N; the code shifts the lowest core to slot 0, and
  this is what `LhmReadings.ParseLHMOutputAll` states.

## Model

| member | source | states |
|---|---|---|
| GroupTree.FlattenTree | client/src/pages/GroupManagePage.tsx:52-59 | the loop with nested calls yields the preorder listing `Flatten` |
| GroupTree.RebuildUndoesFlatten | client/src/pages/GroupManagePage.tsx:52-59 | from the ids and depths of the rows alone the whole forest is read back, and nothing after it is touched |
| GroupTree.RowsAreTrue | client/src/pages/GroupManagePage.tsx:45-59 | every row's depth, parent id and sibling index are the true ones: it is a top-level member at that index, or the child at that index of another row |
| GroupTree.ChildrenAreListed | client/src/pages/GroupManagePage.tsx:52-59 | with a row, the rows of all its children are listed, with their true data |
| GroupTree.SiblingsAreListed | client/src/pages/GroupManagePage.tsx:52-59 | every top-level member is listed with its true data |
| GroupTree.NodesAreListed | client/src/pages/GroupManagePage.tsx:52-59 | every node at any depth has a row |
| Ancestry.FindInChildren | client/src/pages/GroupManagePage.tsx:72-78 | true exactly for the ids that occur in the forest, at any depth |
| Ancestry.FindNodeById | client/src/pages/GroupManagePage.tsx:80-87 | returns a node of the forest with that id, and nothing only if there is none |
| Ancestry.DescendantTestIsExact | client/src/pages/GroupManagePage.tsx:62-78 | `isDescendantOf` holds exactly for proper descendants along the parent relation |
| Ancestry.FindAncestorIds | client/src/store/groupStore.ts:35-42 | finds a path exactly for ids that occur in the tree |
| Ancestry.FindAncestorIdsIsPath | client/src/store/groupStore.ts:35-42 | the path found is the given start followed by the ids from the top down to the target, the target excluded |
| Ancestry.AncestorIdsAreTheChain | client/src/store/groupStore.ts:34-42 | read backwards, the path is the chain of parents up to the root; its members are exactly the proper ancestors |
| Ancestry.TreeIsForest | client/src/pages/GroupManagePage.tsx:62-87 | a tree with distinct ids has a parent relation in which every way up ends at a root |
| Ancestry.RowsNameTheirParents | client/src/pages/GroupManagePage.tsx:52-59 | the parent id of every row is the one of the parent relation |
| Ancestry.FoundChildren | client/src/pages/GroupManagePage.tsx:234-236 | the children of the group found by id are exactly the groups whose parent it is |
| Ancestry.MoveKeepsForestIff | client/src/pages/GroupManagePage.tsx:198-230 | reparenting keeps the relation a forest if and only if the new parent is outside the moved subtree |
| GroupClosure.GroupService.Create | server/src/services/group.service.ts:74-119 | the tables after creating a group, or no change if the parent does not exist |
| GroupClosure.GroupService.Move | server/src/services/group.service.ts:150-198 | the tables and the answer after a move, statement by statement, with what a failing last statement leaves behind |
| GroupClosure.GroupService.Delete | server/src/services/group.service.ts:200-204 | the tables after a deletion and its foreign key actions |
| GroupClosure.MoveRefusedIff | server/src/services/group.service.ts:155-163 | a move is refused exactly if the new parent is the group itself or a group below it |
| GroupClosure.MovedRowIff | server/src/services/group.service.ts:165-189 | after a move under an existing parent, (a, d, k) is in the closure table if and only if a is k levels above d in the new parent relation |
| GroupClosure.MoveOutcome | server/src/services/group.service.ts:150-198 | from exact tables, for every group and parent: no such group, or a parent in its own subtree, changes nothing; a missing parent leaves the parents and exactly the rows from groups that are themselves in the subtree or end outside it; in every other case the answer is success, the group is under its new parent, all others are where they were, and the tables are exact |
| GroupClosure.MoveKeepsExactIff | server/src/services/group.service.ts:150-198 | from exact tables a move leads to exact tables if and only if it is not one of a group with a parent to a parent that does not exist |
| GroupClosure.InsertedKeysAreNew | server/src/services/group.service.ts:178-189 | the rows that a move inserts repeat no primary key, neither among themselves nor with a row that stayed |
| GroupClosure.CreateKeepsExact | server/src/services/group.service.ts:99-116 | creating a group keeps the closure table exact |
| GroupClosure.CreateOutcome | server/src/services/group.service.ts:74-119 | creation adds exactly the new group under its parent with exact tables, or changes nothing if the parent does not exist |
| GroupClosure.DeleteOutcome | server/src/services/group.service.ts:200-204 | the other groups stay under their parents, the children become roots, and exactly the rows that name the group go |
| GroupClosure.DeleteKeepsExactIff | server/src/services/group.service.ts:200-204 | a deletion keeps the closure table exact if and only if the group has no parent or no children |
| GroupClosure.MiddleLeavesRows | server/src/services/group.service.ts:200-204 | otherwise the row from its parent to its child stays, although the child is a root now |
| GroupClosure.RunStaysExactIff | server/src/services/group.service.ts:74-204 | over every run of creations, moves and deletions the tables stay exact if and only if each operation is safe in this sense |
| GroupClosure.RunFromEmptyIff | server/src/services/group.service.ts:74-204 | this holds of every run of a new server, whose tables are empty |
| GroupClosure.AncestorQueryIsPath | server/src/services/group.service.ts:208-216 | the ancestors selected by depth are the path that the client's store finds in the tree |
| GroupClosure.DropsKeepExact | client/src/pages/GroupManagePage.tsx:198-226 | every move that the page sends for a drop arrives: the server answers success, the group is under the target of the drop, all others are where they were and the tables are exact; the server refuses exactly the drops of a group among its own children, and then changes nothing |
| DropZones.DropZonesAfter | client/src/pages/GroupManagePage.tsx:400-436 | the walk back up through the ancestors, looked up by id in the listing, yields the gaps after a row |
| DropZones.RenderZones | client/src/pages/GroupManagePage.tsx:392-436 | all gaps of the page, from the top one down through the rows |
| DropZones.BlockZones | client/src/pages/GroupManagePage.tsx:403-436 | the rows of a sibling list produce that list's own gaps followed by those of exactly the outer levels that end with it |
| DropZones.ZonesAreGaps | client/src/pages/GroupManagePage.tsx:392-436 | the gaps computed from depth changes are the gaps of the tree, in its own order |
| DropZones.EveryGapExactlyOnce | client/src/pages/GroupManagePage.tsx:392-436 | for every tree, the empty one included: a (parent, index) pair is rendered once if it is an insertion point at the root level of a non-empty tree or among existing children, and never otherwise |
| DropZones.ZoneTotal | client/src/pages/GroupManagePage.tsx:392-436 | the number of gaps is nodes + nodes with children + 1 |
| GroupDrag.HandleDragEnd | client/src/pages/GroupManagePage.tsx:186-261 | the server calls a drop causes, in order, including a failed move |
| GroupDrag.InsertDragged | client/src/pages/GroupManagePage.tsx:240-246 | the loop inserts the dragged id at the clamped index and keeps the rest |
| GroupDrag.IgnoredDrops | client/src/pages/GroupManagePage.tsx:190-221 | a drop causes no call exactly if nothing is dragged, or it has no target, hits the group itself, its parent or a proper descendant, or a gap below a proper descendant |
| GroupDrag.GroupDropMoves | client/src/pages/GroupManagePage.tsx:198-213 | an accepted drop on a group sends one call, and its effect is that the dragged group is under that group and all others are where they were |
| GroupDrag.GapDropSends | client/src/pages/GroupManagePage.tsx:215-260 | an accepted drop into a gap sends first the move if the parent differs, and nothing else if that fails; then the order, numbered from 0, of what is shown under the gap's parent, with the dragged group once, behind what is above the gap or one place later, by the rule of `LandsInGapIff` |
| GroupDrag.SentMovesKeepForestIff | client/src/pages/GroupManagePage.tsx:198-226 | a move that is sent keeps the groups a forest, if and only if it is not a drop into a gap whose parent is the dragged group |
| GroupDrag.OwnParentIsSent | client/src/pages/GroupManagePage.tsx:221-226 | the exception happens: a tree and a drop for which a group is sent as its own parent |
| GroupDrag.NewOrderKeepsOthers | client/src/pages/GroupManagePage.tsx:237-246 | the dragged id occurs once in the new order, the other siblings keep their order |
| GroupDrag.LandsInGapIff | client/src/pages/GroupManagePage.tsx:234-246 | the group lands behind exactly the siblings shown above the gap if and only if it did not stand above the gap in the same list or the gap is the last; otherwise it lands exactly one place later |
| GroupDrag.DropBelowItselfMoves | client/src/pages/GroupManagePage.tsx:237-246 | the exception happens: the first of three siblings, dropped into the gap just below itself, lands below the second |
| GroupDrag.DropReordersNewChildren | client/src/pages/GroupManagePage.tsx:215-251 | carried out, an accepted gap drop leaves the dragged group under the gap's parent, all others where they were, and numbers exactly the children that parent then has, each once, from 0 on |
| Coverage.Collector.CollectDescendants | client/src/pages/AdminUsersPage.tsx:416-428 | the recursion with its outer set and map records exactly the map `Covers`, and set and map hold the same groups |
| Coverage.CoversAlongPath | client/src/pages/AdminUsersPage.tsx:418-428 | what is recorded for a group depends only on the path from the root to it, whatever cover is in force at the top |
| Coverage.CoveredByNearestAssigned | client/src/pages/AdminUsersPage.tsx:412-429 | a group is covered by `a` exactly if it is not assigned itself and `a` is the nearest assigned group on the path that `findAncestorIds` returns (id 0 excepted) |
| Coverage.ZeroCoversNothing | client/src/pages/AdminUsersPage.tsx:422 | the exception for id 0: the nearest assigned group of group 1 is 0, and group 1 is not covered |
| CollapseStore.GroupStore.SaveCollapsed | client/src/store/groupStore.ts:14-32 | what is saved is what a later load of the active key yields, and a load of any other key yields what it did before |
| CollapseStore.GroupStore.ReinitForTenant | client/src/store/groupStore.ts:146-149 | the new state after switching to a context |
| CollapseStore.GroupStore.ToggleGroupExpanded | client/src/store/groupStore.ts:151-160 | the new state after a toggle |
| CollapseStore.GroupStore.ExpandGroup | client/src/store/groupStore.ts:162-169 | the new state after expanding one group; storage is written only if something changed |
| CollapseStore.GroupStore.ExpandAncestorsOf | client/src/store/groupStore.ts:171-193 | the loop removes all ancestors and the target, or nothing for a root or unknown target |
| CollapseStore.KeysAreInjective | client/src/store/groupStore.ts:8-12 | two contexts have one storage key exactly if they are the same user and tenant, no tenant counting as 0, or both have no user |
| CollapseStore.KeyText | client/src/store/groupStore.ts:8-12 | the text of the key for a user and a tenant, and without a user |
| CollapseStore.NothingLoaded | client/src/store/groupStore.ts:14-24 | an entry that is missing or unreadable loads as nothing collapsed |
| CollapseStore.ToggleTwice | client/src/store/groupStore.ts:151-169 | a toggle changes exactly the one group and a second toggle undoes it; expanding removes exactly the one group |
| CollapseStore.WritesIff | client/src/store/groupStore.ts:146-193 | a toggle always writes the entry of the active key, the expanding actions do exactly if they change the set, the others never; only a change of context changes the active key |
| CollapseStore.ExpandAncestorsIsExact | client/src/store/groupStore.ts:171-193 | exactly the proper ancestors and a non-root target become expanded, nothing else |
| CollapseStore.RootTargetStaysCollapsed | client/src/store/groupStore.ts:173-174 | the exception happens: a collapsed root is still collapsed after expanding down to it |
| CollapseStore.RunsKeepContextsApart | client/src/store/groupStore.ts:146-193 | over every run of actions, what is shown equals what storage holds at the active key, and every key holds what the actions taken in its own context made of it |
| Tunnels.StepKeepsInv | probe/tunnel.go:32-146 | every step of every opener, relay, pump and closer keeps the invariant about connections, channels and the shared map |
| Tunnels.DoneIsClosedAtMostOnce | probe/tunnel.go:74-90 | in every reachable state, ids reused or not, a tunnel's `done` was closed at most once, and a closer about to close it finds it open |
| Tunnels.ConnectionsAreOwned | probe/tunnel.go:37-146 | an open connection has an opener or relay still due to close it, a finished relay left both closed, and no pump finds `errCh` full |
| Tunnels.RequestsAtRestAreClean | probe/tunnel.go:32-146 | a request that can only wait for the network has closed its connections and ended its relay and both pumps (or never got so far), or is an established tunnel that nobody closed |
| Tunnels.RunsAreBounded | probe/tunnel.go:32-146 | nothing is retried: no run has more than 13 steps for each open request and 4 for each close command |
| Tunnels.OpenerStepsAreFew | probe/tunnel.go:32-71 | in every run an opener takes at most four steps |
| Tunnels.FailedDialEndsRequest | probe/tunnel.go:37-54 | in every run a request with a failed dial never registers a tunnel, holds no connection but the first until its opener has closed it, and after that its opener takes no step |
| Tunnels.ErrorsAreAccountedFor | probe/tunnel.go:103-146 | over every run, each pump that has finished has sent one error, which the relay has taken or which waits in `errCh` |
| Tunnels.TunnelsEndForAReason | probe/tunnel.go:138-145 | in every run a tunnel is torn down only if its relay took a pump's error or a close command closed `done` |
| Tunnels.OpenerRunsAlone | probe/tunnel.go:32-71 | from every reachable state an opener can run to its end while all others stand still, with any outcome of each dial still to come; it registers exactly if they all succeed, and otherwise leaves nothing open |
| Tunnels.PumpRunsAlone | probe/tunnel.go:103-136 | each pump can fail at any moment and then end although nobody takes its error |
| Tunnels.RelayRunsAlone | probe/tunnel.go:93-146 | once there is an error or `done` is closed, the relay can end alone, with both connections closed and its id out of the map |
| Tunnels.CloserRunsAlone | probe/tunnel.go:74-90 | a close command can run to its end alone: `done` and both connections of the tunnel found are closed and no other tunnel changes; none does if none is found |
| Tunnels.CleanupLeavesNothing | probe/tunnel.go:94-101 | with distinct ids, nothing is left in the map under the id of a relay that has cleaned up |
| Tunnels.ReusedIdHidesTunnel | probe/tunnel.go:63-65 | if an id occurs twice, some run leaves a live tunnel that no close command can find |
| Tunnels.CloseReachesLiveTunnelsIff | probe/tunnel.go:63-97 | close commands find every live tunnel in every interleaving if and only if no id is reused |
| Tunnels.FindableIff | probe/tunnel.go:63-79 | with distinct ids, for every run: the map names a tunnel at the end exactly if the run registers it and never removes it |
| Tunnels.CloseTakesTunnelIff | probe/tunnel.go:63-90 | with distinct ids, in every run a close command takes its tunnel if and only if its look-up falls between the tunnel's registration and its removal; then, whatever happens next, `done` and both connections are closed once it has finished, otherwise it changes nothing |
| Tunnels.EarlyCloseIsLost | probe/tunnel.go:74-84 | a run in which the close command comes before the registration, is dropped, and the tunnel goes live |
| WsSession.RunKeepsInv | probe/ws.go:143-216 | over every run, at most one trigger is pending and the values put into `done` are accounted for |
| WsSession.TickerUnblocksReadLoop | probe/ws.go:158-216 | past the first trigger, a read loop that finds `done` full faces a ticker ready to empty it, after which it can return |
| WsSession.HangPossibleIff | probe/ws.go:143-216 | in every reachable state some run still ends in the hung state if and only if the ticker has not sent its first trigger and, with the read loop running, the worker has not gone or its error still fills `done`; with the read loop failed, a trigger is pending and the worker is scanning, failing, or gone with its error still in `done` |
| WsSession.RiskCanHang | probe/ws.go:143-216 | from such a state, a run of concrete steps into the hung state |
| WsSession.ReadLoopCanReturnIff | probe/ws.go:143-216 | the hung state is the only reachable one from which a failed read loop has no schedule left that lets it return |
| WsSession.HungIsReachable | probe/ws.go:147-214 | a run from the start of a session that ends in the hung state |
| WsSession.SettledIff | probe/ws.go:143-216 | in every reachable state after the read loop's return, nothing can change any more exactly if the heartbeat is gone and ticker and worker are both gone, or the worker alone waits for a trigger, or the ticker alone blocks on its first one, or both block on full channels |
| WsSession.Settles | probe/ws.go:143-216 | from every state after the return, steps into one of these four situations |
| WsSession.AllOutcomesAreReachable | probe/ws.go:143-216 | each of the four happens |
| WsSession.TickerStaysIff | probe/ws.go:147-168 | after the return the ticker goroutine can stay for good if and only if its first trigger has not been sent, one is pending and the worker is not waiting for it |
| WsSession.RescanIsNotLost | probe/ws.go:249-253 | after a rescan command, for every continuation, a trigger is pending or a scan has started since |
| WsSession.ScansAreAccountedFor | probe/ws.go:144-184 | scans never outnumber the requests, and each scan that started has ended before the next one starts |
| WsSession.ReadLoopEnds | probe/ws.go:211-230 | over every run, the read loop leaves by a read error and by no message, and returns by sending that error |
| WsSession.WorkNeverBlocks | probe/ws.go:158-253 | messages, ticks and beats, in any number and order, can all be handled at once, end nothing, and leave one trigger pending if there was a tick or a rescan command |
| WsSession.TickerEnds | probe/ws.go:147-168 | over every run, the ticker goroutine is past its first send exactly if it made it, and has ended exactly if it took a value from `done` |
| WsSession.HeartbeatEnds | probe/ws.go:187-200 | over every run, the heartbeat has ended exactly if a beat failed or it took a value from `done` |
| WsSession.WorkerEnds | probe/ws.go:172-184 | over every run, the worker has ended exactly if it sent an error, and each result that could not be sent brings one such error |
| WsSession.TriggersPend | probe/ws.go:144-253 | a rescan command, a tick and the first send leave a trigger pending, whether one was or not; only the start of a scan takes one |
| ScanPool.StepKeepsInv | probe/network_scan.go:125-197 | every step of the loop and of its workers keeps the counts and the partial results right |
| ScanPool.InFlightIsBounded | probe/network_scan.go:129-136 | in every schedule, no more than the semaphore's capacity are dialling |
| ScanPool.CapacityIsReached | probe/network_scan.go:129-136 | the bound is tight: for every number of targets up to the capacity, some schedule has them all dialling at once |
| ScanPool.WorkerRunsAlone | probe/network_scan.go:134-154 | a started goroutine waits for no other: from every state it can run to its end while all others stand still |
| ScanPool.ScanNeverDeadlocks | probe/network_scan.go:131-154 | in every reachable state before the return, some goroutine can move |
| ScanPool.RunsAreBounded | probe/network_scan.go:131-154 | no schedule has more steps than the fuel of its start |
| ScanPool.ScanIsDeterministic | probe/network_scan.go:125-197 | every schedule ends after at most targets * (ports + 7) + 2 steps, having returned, with the one result that the answers determine |
| ScanPool.ExpectedIffSomePortAnswers | probe/network_scan.go:138-191 | a target is in that result exactly if some port answers, and the ports listed are exactly those that answer |
| Cidr.Canonical | probe/subnet_discover.go:56-58 | masking keeps the high bits: the network address is the address with its host bits cleared |
| Cidr.CanonicalIsBlock | probe/subnet_discover.go:56-59 | canonicalising twice is canonicalising once |
| Cidr.CanonicalIff | probe/subnet_discover.go:56-58 | the network of an address is the one block of its prefix length that contains it |
| Cidr.ContainsIsMembership | probe/push.go:428 | the mask comparison is membership in the range of 2^h consecutive addresses |
| Cidr.NestedOrDisjoint | probe/push.go:427-434 | two CIDR blocks are nested or share no address |
| Cidr.WithinIff | probe/push.go:427-434 | "contains the base address and the prefix is not longer" is inclusion of every address |
| Cidr.WithinByPrefix | probe/push.go:427-434 | it holds exactly if the prefix is not shorter and the addresses agree in all bits of the outer prefix |
| Cidr.HostIPs | probe/network_scan.go:17-42 | the uint32 loop ends and lists the range from network + 1 (wrapping) up to the broadcast address |
| Cidr.HostsAreUsableIff | probe/network_scan.go:15-42 | for every block with at most 12 host bits: exactly the addresses strictly between network and broadcast, ascending, 2^h - 2 of them, if and only if the block is not 255.255.255.255/32 |
| Cidr.HostsAreFew | probe/network_scan.go:15-24 | at most 4094 hosts, none for prefixes shorter than /20 |
| ProbeScan.Probe.IsExcluded | probe/push.go:398-437 | true exactly if some exclusion (a bare network read as /24) contains every address of the subnet; for unparseable text, if it is listed |
| ProbeScan.ExclusionPassesDown | probe/push.go:427-434 | a block inside an excluded block is excluded |
| ProbeScan.CidrExclusionIff | probe/push.go:411-434 | one exclusion in CIDR notation excludes the networks with a prefix at least as long that agree with it in all bits of its own prefix |
| ProbeScan.BareExclusionIff | probe/push.go:411-434 | a bare address excludes the networks from /24 on with the same first three octets |
| ProbeScan.ExcludedByOne | probe/push.go:409-436 | other text excludes no network, and the list excludes what one of its entries excludes by itself |
| ProbeScan.Collector.Add | probe/subnet_discover.go:59-67 | the `seen` set keeps the list equal to the first occurrences of what was offered |
| ProbeScan.Collector.AddInterfaces | probe/subnet_discover.go:22-69 | all IPv4 subnets of interfaces that are up, not loopback and not virtual are offered, in order |
| ProbeScan.Collector.AddExtras | probe/subnet_discover.go:71-84 | then the parseable extra subnets |
| ProbeScan.Probe.DiscoverSubnets | probe/subnet_discover.go:12-87 | the subnets are the first occurrences among interface and extra subnets; none if interfaces cannot be listed |
| ProbeScan.DiscoveredIff | probe/subnet_discover.go:22-84 | discovered is a network exactly if it is that of an IPv4 address on an interface that is up, no loopback and not virtual (a plain address counting with the prefix of its class), or that of an extra text in CIDR notation |
| Sequences.FirstOccurrencesAreDistinct | probe/subnet_discover.go:61-64 | deduplication loses no key and keeps none twice |
| ProbeScan.Probe.ScanSubnet | probe/network_scan.go:55-116 | one device per address that answered or is in the ARP table inside the subnet: its MAC and name are what the two tables hold for it or empty, it is online exactly if it answered or has a MAC, and its ports are absent without a port scan, empty unless it answered, and otherwise those found open; nothing for a subnet without hosts |
| ProbeScan.FoundIff | probe/network_scan.go:69-79 | for every block with hosts other than 255.255.255.255/32: reported are the addresses strictly inside it that answered and those in the block that the ARP table holds |
| ProbeScan.PoolFindsAlive | probe/network_scan.go:56-74 | whatever the schedule, a concurrent scan of a subnet's hosts that has returned holds exactly the alive set from which the device list is made |
| ProbeScan.PoolFindsPorts | probe/network_scan.go:88-110 | whatever the schedule, an alive device lists exactly its open ports among those configured, in their order |
| ProbeScan.AtMost256AtOnce | probe/network_scan.go:46-197 | in every schedule of either scan at most 256 targets are being dialled |
| ProbeScan.Probe.DoScan | probe/push.go:238-280 | which subnets are scanned, how often each address is reported, that each device is explained by a scanned subnet, and the probe's own entry |
| ProbeScan.ScannedBlocks | probe/push.go:241-253 | a block is scanned exactly if it was discovered and no exclusion contains it, and then once |
| ProbeScan.FoundIsInside | probe/network_scan.go:69-79 | a device reported for a block has an address of that block |
| ProbeScan.ScannableIff | probe/network_scan.go:56-59 | which blocks have anything to scan: /20 to /30, and 255.255.255.255/32 |
| ProbeScan.DuplicateMeansShared | probe/push.go:246-253 | an address reported twice comes from two different scanned blocks, nested or one of them wrapping |
| ProbeScan.ReportsAreUniqueIff | probe/push.go:246-253 | no network can make a scan report an address twice, if and only if no two scanned blocks are nested (or one wraps) with both having hosts |
| ProbeScan.SelfIsInjectedOnce | probe/push.go:257-280 | the probe's own address is present afterwards, once, online and with its MAC, and no other device is lost |
| ProbeScan.SelfEntry | probe/push.go:257-280 | the first device with the probe's address keeps its place, name and ports and is online with the probe's MAC; without one, a device with the probe's host name and no ports is added at the end; all other devices stay |
| ProbeScan.ScanReportsEachDeviceOnce | probe/push.go:246-280 | then the devices of a scan have pairwise distinct addresses, before and after the probe adds itself |
| SubnetTable.IpToNumIsPositional | client/src/pages/SiteDetailPage.tsx:478-482 | the signed 32-bit shifts and ors yield a*2^24 + b*2^16 + c*2^8 + d |
| SubnetTable.QuadsAreUsualSpelling | client/src/pages/SiteDetailPage.tsx:477-489 | the theorems about quads are about exactly the texts of four numbers below 256 in decimal |
| SubnetTable.ComparisonIsOrderIff | client/src/pages/SiteDetailPage.tsx:496-522 | for every column, direction and set of items the comparison is a total preorder, as a sort needs it, if and only if it is not by date with an unreadable date among different readable ones; of `localeCompare` only consistency is assumed |
| Sorting.SortSpec | client/src/pages/SiteDetailPage.tsx:604 | for a total preorder the sorted list is a permutation, ascending, and keeps the order of tied items |
| Sorting.StableSortIsUnique | client/src/pages/SiteDetailPage.tsx:604 | any ascending list with the same ties in the same order is the one modelled, so nothing depends on how the language sorts |
| SubnetTable.SortedItems | client/src/pages/SiteDetailPage.tsx:602-604 | so for every column and direction the list shown is ascending and keeps the order of ties, whenever the comparison is an order |
| SubnetTable.SortedByIp | client/src/pages/SiteDetailPage.tsx:496-522 | in the list sorted by address the address numbers ascend, or descend in descending order |
| SubnetTable.SortedByText | client/src/pages/SiteDetailPage.tsx:496-522 | sorted by MAC, vendor or type, those texts ascend or descend in the locale's order, a missing one being empty; sorted by name, the custom names, or else host names, in lower case do |
| SubnetTable.SortedByLastSeen | client/src/pages/SiteDetailPage.tsx:517-521 | sorted by date, the times ascend or descend, a missing date being time 0 |
| SubnetTable.VisibleKeepsOrder | client/src/pages/SiteDetailPage.tsx:603 | the filtered list is the items at ascending places, and these are all the places of items not to hide: order and repetitions are kept |
| SubnetTable.GroupBySubnet | client/src/pages/SiteDetailPage.tsx:606-612 | the loop's map holds for each /24 key the items of that subnet in list order, and its keys come in order of first appearance |
| SubnetTable.SubnetKeysSpec | client/src/pages/SiteDetailPage.tsx:613-614 | the keys shown are the subnets that occur, each once, in ascending order |
| SubnetTable.SubnetsFollowAddresses | client/src/pages/SiteDetailPage.tsx:478-489 | on quads, subnet order follows address order, and equal key numbers mean the same subnet |
| SubnetTable.SameGroupIff | client/src/pages/SiteDetailPage.tsx:484-489 | two texts fall into one group exactly if they are equal or both have three or four parts, the first three equal |
| SubnetTable.NotInFourParts | client/src/pages/SiteDetailPage.tsx:478-489 | text that is not in four parts has number 0 and its own text as group |
| SubnetTable.GroupsPartitionItems | client/src/pages/SiteDetailPage.tsx:606-614 | for every sort column the groups together show each item as often as it is listed |
| SubnetTable.SortedByIpGroupsConcatenate | client/src/pages/SiteDetailPage.tsx:602-614 | sorted by ascending address, the groups in key order concatenate to the stably sorted list of visible items |
| SensorLabels.SanitizeLabel | agent/temps_windows.go:447-456 | the rewriting loop terminates and equals splitting at separators, dropping empty words and joining with single underscores |
| SensorLabels.ReplacePairsKeepsWords | agent/temps_windows.go:452-454 | one left-to-right replacement of double underscores changes no word |
| SensorLabels.LabelHasNoStrayUnderscore | agent/temps_windows.go:446-456 | a label has no doubled, leading or trailing underscore |
| SensorLabels.LabelCharacters | agent/temps_windows.go:447-451 | a label has no capital letter and none of the blank, slash, backslash, hyphen, dot, parentheses, colon and comma |
| SensorLabels.LabelKeepsLetters | agent/temps_windows.go:447-456 | nothing else is lost: apart from separators and underscores a label has all characters of the name in lower case, in order |
| SensorLabels.CaseOfLetters | agent/temps_windows.go:448 | lower case maps each of the 26 capitals to its own small letter, upper case the other way, and nothing else changes |
| SensorLabels.SanitizingTwiceIsOnce | agent/temps_windows.go:447-456 | canonicalising is idempotent, for every name |
| SensorLabels.FilterRemovesNothing | shared/src/sensorLabels.ts:49-51 | in a non-empty canonical label the empty-word filter removes nothing |
| SensorLabels.SplitUndoesJoin | shared/src/sensorLabels.ts:49-50 | splitting at underscores undoes joining words |
| SensorLabels.JoinUndoesSplit | shared/src/sensorLabels.ts:49-58 | joining with underscores undoes splitting, for every text |
| SensorNames.TitleCaseKeepsWords | shared/src/sensorLabels.ts:48-59 | canonicalising the title-cased form of a plain text gives back its words |
| SensorNames.TitleCaseSpec | shared/src/sensorLabels.ts:38-59 | title case shows each non-empty word, in order, with single blanks: unchanged if it starts with `#` or a digit, in capitals if it is one of the seventeen acronyms, otherwise with a capital first letter |
| SensorNames.PrettyRoundTrip | shared/src/sensorLabels.ts:48-59 | for every name, the readable form of its label determines the label |
| SensorNames.HardwareKeyRoundTrip | shared/src/sensorLabels.ts:15-16 | for every key after `lhm_` made of plain characters, canonicalising what the user sees gives the canonical form of the text that the key spells |
| SensorNames.TaggedKeysRoundTrip | shared/src/sensorLabels.ts:17-19 | the same for `drive_`, `gpu_` and `asus_` keys; the last are shown with ASUS in front |
| SensorNames.ChipSensorIsShown | shared/src/sensorLabels.ts:21-28 | a chip's sensor is shown unchanged, behind the context of its chip and a dash if there is a context |
| SensorNames.ChipAloneIsShown | shared/src/sensorLabels.ts:21-29 | a chip by itself is shown as its context, or else in title case with hyphens separating words |
| SensorNames.ChipContextIff | shared/src/sensorLabels.ts:66-86 | the order of the chip table does not matter: a name has a context exactly if some entry's prefix fits, and at most one can |
| LhmText.LineRoundTrip | agent/temps_windows.go:238-266 | a line written for a sensor, with or without the carriage return, is read as that sensor's reading |
| Text.TrimSpec | agent/temps_windows.go:238 | trimming takes all white space off both ends and nothing else |
| LhmText.LineIsReadIff | agent/temps_windows.go:160-182 | a written line with a readable number is read back if and only if neither name contains the separator; otherwise its reading is dropped |
| LhmText.OutputRoundTrip | agent/temps_windows.go:160-182 | whatever list of sensors the script writes, the agent reads exactly their readings, in order |
| LhmText.OtherLinesAreSkipped | agent/temps_windows.go:243-266 | for every line: fewer than three fields, or no number in the last, yields no reading |
| LhmText.UntaggedIsTemperature | agent/temps_windows.go:243-266 | three fields without a tag are read as a temperature, their blanks trimmed |
| LhmText.CoreIndexOfName | agent/temps_windows.go:290-292 | the name `Core #N` is read as N, for every N that fits an integer |
| LhmText.CoreIndexIff | agent/temps_windows.go:290-292 | for every text: a core index is read exactly if, after the optional `Core #`, there are digits that fit an integer, after a plus sign or none, or a minus sign if they are zero; and it is their value |
| LhmReadings.ParseLHMOutputAll | agent/temps_windows.go:233-324 | from the raw output: the temperatures reported are those in range, in order, with numbered labels; the clock list is dense from the lowest to the highest core, with each core's peak and 0 for gaps |
| LhmReadings.LabelsDistinctIff | agent/temps_windows.go:279-284 | the numbered labels are pairwise distinct if and only if no base label is spelled like the number of a repeated one |
| LhmReadings.ReportedNamesDistinctIff | agent/temps_windows.go:268-289 | for every output: the names reported are pairwise distinct if and only if the base labels of the temperatures kept do not clash |
| LhmReadings.NumberCanClash | agent/temps_windows.go:273-284 | the exception happens: three readings whose labels come out as `lhm_a_t`, `lhm_a_t_2`, `lhm_a_t_2` |
| LhmReadings.LabelRoundTrip | agent/temps_windows.go:273-284 | for every hardware and sensor name, named or not, numbered or not: canonicalising what the client shows for the label gives the canonical form of all that it spells |
| LhmReadings.ReportedNamesRoundTrip | agent/temps_windows.go:273-288 | this holds of every name reported for every output |
| LhmReadings.PeakOfOneMore | agent/temps_windows.go:293-296 | comparing a raw reading with the rounded maximum kept so far still maintains the maximum of the rounded readings |
| LhmReadings.PeakIsMaximum | agent/temps_windows.go:292-296 | the peak of a core is the highest rounded clock among its readings, and there is none exactly without such a reading |
| LhmReadings.RoundSpec | agent/temps_windows.go:295 | rounding gives the nearest whole number, halves up |
| LhmReadings.TenthsSpec | agent/temps_windows.go:287 | temperatures are rounded to the nearest tenth, halves up |
| LhmReadings.KeptIff | agent/temps_windows.go:263-272 | kept are exactly the temperatures above 0 and up to 150 degrees |
| LhmReadings.ReportedValues | agent/temps_windows.go:263-289 | every value reported is that of such a reading to the nearest tenth |
| LhmReadings.Bounds | agent/temps_windows.go:308-317 | the lowest and highest core index, whatever the iteration order of the map |
| LhmReadings.Fill | agent/temps_windows.go:318-321 | the slice filled from the map, whatever its iteration order |

## Left out

- Sockets, HTTP, DNS, timeouts, the ARP table and the listing of interfaces: their results are inputs (which dials
  succeed, what the network answers to one subnet's scan, nondeterministic read and write errors).
- Parsing of CIDR text by Go's `net` package: configuration texts are given as CIDR notation, bare address or
  other text. IPv6 and non-contiguous masks are not modelled; the probe skips or does not support them.
- Go memory and goroutines: the concurrent parts are state machines on values; a connection is open or closed,
  bytes relayed through a tunnel are not modelled, and pumps may fail at any time.
- The globals `wsConn` and `wsConnFlag`, reconnection with backoff, and commands other than rescan.
- `resolveHostnames` is the scan pool with one lookup in place of the port list; the names themselves and the
  removal of a trailing dot are not modelled. The limit on goroutines is the parameter
  `capacity`: 256 for the two scans (`ProbeScan.AtMost256AtOnce`), 64 for names.
- The client's request wrappers: a move is its intended change of the parent relation, and whether it succeeds is
  an input of the page.
- The server beyond `GroupClosure`: requests are carried out one at a time; names, slugs, tenants, permissions and
  the HTTP status of an error are not modelled. New ids are given by the database.
- React rendering, drag sensors, toasts and translation; other pages; installers, updates, metrics.
- `localStorage` and JSON: an entry decodes to a set of ids or is unreadable; entries of another shape that the
  store never writes are not modelled.
- Case mapping outside ASCII in labels.
- Floating point: sensor values are reals, rounding is to the nearest, halves up, as `math.Round` does for
  positive values. Which texts are numbers, and which number each is, is the input `parseFloat`; texts for NaN
  count as unreadable (infinite values are dropped as out of range either way).
- The size of memory: a slice of core clocks is as long as the core numbers ask for.
- LhmText.OutputRoundTrip: the separator `|` in a name is excluded, because then the reading is lost
  (LhmText.LineIsReadIff); so is a line break inside a field.
- `Number` in JavaScript on text that is not plain decimal digits (hexadecimal, exponents, blanks) is read as 0.
- Names in the device table are lower-cased in ASCII only. Where the comparison is no order (unreadable dates), the
  language leaves the sorted list open, and so does the model.
- DropZones.RenderZones: does not model the zones' drag identifiers, which only name them.
- ProbeScan.Probe.DoScan: does not model flows, timings and the fields of the report that are not devices or subnets.
