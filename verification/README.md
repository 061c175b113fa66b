# Verification of the node agent

A Dafny model of the four stateful parts of the node agent, and proofs about them.

- **Port forwarding** (`Text`, `PortExpr`, `PortMeaning`, `PortText`, `Iptables`, `PortRules`,
  `Redirect`, `NatTable`, `Repair`). Port expressions of HY2 nodes are compiled to the text of
  iptables rules. What a rule means is defined on that text, by reading its options back, so the
  proofs go from the numbers and ranges a node writes to the packets its rules redirect, and from
  there to the live chain: the drift check is sound, and a repair converges from any chain.
- **The device limiter** (`Limiter`, `AdmissionRace`). Admission over recorded, recently reported and
  globally alive addresses, the roaming allowance of UDP sources, commits of online reports, and the
  bucket cache; and what calls that arrive at once can do to the limit.
- **The machine reconciler** (`MachinePlan`, `MachineFate`, `Machine`). The running controllers follow
  the desired nodes under any mix of fetch, start, close and replace failures; what becomes of each
  node is said of the positions in the lists.
- **Users and traffic** (`Users`, `UserDelta`, `UserSync`, `Traffic`, `TrafficScan`, `EdgeTraffic`,
  `TrafficReport`). Replication of the panel's users by deltas and full lists, agreement of the
  indexes, conservation of traffic between connections, counters, reports and the edge, and whom a
  scan reports.

Functions and predicates say what is computed; the methods and classes run the loops and change the
state as the source does, and are proved against them. What the main operations promise is stated
again on inputs and outputs alone, without these functions: on the fields of a rule, the text of an
expression, the positions in a list, the states of a run. `Lists`, `Sets` and `Results` hold small
general facts.

Assumptions about what cannot be seen:

- A listing of the nat PREROUTING chain repeats the fields of each rule, putting double quotes around
  a field with blanks, and adds at most one `-m udp`, anywhere after the chain name except directly
  after `-j` or `--comment`. Given rules, the tool ignores `-m udp`. `-D` removes the first equal rule.
  A one-port range such as `442:442` is echoed as written. Fields hold no double quote and no line
  break, and the rules themselves are otherwise arbitrary.
- Closing a controller stops it even if closing reports an error. Activating one may fail after it
  has begun to hold resources; it holds them until it is closed.
- The panel has a history that gives the users at each revision, with none at revision 0. Its deltas
  lead from the revision asked from; its full lists are complete and not empty. Within one message
  uuids are distinct.
- A scan sees every entry that its table of counters has from its start to its end; entries that
  come or go meanwhile it may see or not.
- Clocks, map iteration order, and the outcome of every request, start and close are arbitrary.

Findings. These hold of the code. Each is stated as the exact condition under which the expected
property holds, and shown at an input for which it does not:

- A commit of an online report can free a device slot when one address is reported for two users
  (`Limiter.SharedAddressFreesSlot`; without that it cannot, `Limiter.CommitKeepsSlots`). An address
  keeps its slot exactly when its last report is for that user, or it stays recorded and the panel
  does not know of it (`Limiter.SlotAfterCommit`).
- With at most n calls of one user at once, the addresses that the limiter keeps track of pass the
  device limit by at most n - 1 (`AdmissionRace.LimitUnderRaces`), and n calls can bring that about
  (`AdmissionRace.ManyAtOnce`). But pending addresses are forgotten exactly when a refused call takes
  back the record that it made after another call stored in it, or when one is given up
  (`AdmissionRace.TakeBackForgets`, `AdmissionRace.RefusedCallForgets`). So with two calls at once the
  number of addresses that are let in has no bound (`AdmissionRace.AnyNumberLetIn`); without UDP
  sources, and when no refused call takes back a record that others hold or have stored in, it has the
  same one (`AdmissionRace.LetInBound`).
- Two first connections of a tag can each make a table of counters, and the one stored last stays. What
  connections count in the storages of the other stays there and is never reported
  (`Traffic.ReplacingStrands`, `Traffic.NeverReported`, `Traffic.TwoTables`). So the bytes of a user are all in its one
  counter or in reports exactly when nothing is counted in other storages
  (`Traffic.OwnCounterConserved`).
- Starting a node does not clear the core's user ids left from an earlier start with the same tag in
  the same process, so the ids agree with the user list exactly when every id left over belongs to a
  present user (`UserSync.StartAgreesWhen`, `UserSync.RestartKeepsLeftOverId`).
- Node managers do not reject duplicate node keys at startup, and the reconciler sees every listed
  controller exactly when the keys are distinct (`Machine.SlotsShowAllWhenDistinct`,
  `Machine.TwoNodesOneKey`).

More conditions are exact, without an input that the node is known to meet and that fails them:

- The list of a first start is the panel's at the revision held exactly when it came with one or deltas
  are not in use (`UserSync.Controller.Start`). Only a cancelled request from revision 0 could make it
  otherwise (`UserSync.CancelledStartKeepsGoneUser`), and a start makes its requests in the background
  context (node/controller.go:128), which nobody cancels. An answer to a sync makes a list the panel's
  exactly when it is a full list or the two agree on every user it does not name
  (`UserSync.Controller.ExecuteNodeUserSync`).
- After a reconcile without failures the configurations are the desired ones exactly when those of the
  nodes without news already were (`Machine.NoFailureSettles`, `Machine.NoNewsKeepsOldConfig`). There
  is no news only if the panel answers with status 304 to the request of a new client, which names no
  description (api/v2board/node.go:173-178).
- Adding a user keeps the bucket cache right exactly when no added user is left with a bucket of
  another rate (`Limiter.UpdateKeepsBuckets`), which no sync does (`UserSync.Controller.ApplyChanges`).
- A record that the edge files under the core's own key for a user is matched to that user exactly when
  the tag has no bar and no leading blank, and the uuid is not empty and has no blank at either end
  (`EdgeTraffic.EdgeUserRoundTrip`).

## Model

| member | source | states |
|---|---|---|
| `PortExpr.ParsePortForwardMatchersAndRangesExcept` | node/port_forward.go:240-326 | the parser's loop computes the compilation, error for error |
| `PortExpr.Flush` | node/port_forward.go:259-279 | waiting single ports are written in chunks of at most 15 |
| `PortMeaning.CompileMeaning` | node/port_forward.go:240-326 | an expression is accepted exactly when every token is a port or range; then the ports its matchers' text matches, the ports of its ranges, and the declared ports without the excluded one are the same set, and each multiport list holds 2 to 15 ports |
| `PortMeaning.CutOutHas` | node/port_forward.go:281-298 | cutting the node's own port out of a range leaves exactly the other ports |
| `PortMeaning.ChunkMatcherHas` | node/port_forward.go:259-279 | the text of a chunk matches exactly its ports |
| `PortText.PieceParses` | node/port_forward.go:328-362 | the text of a number n, or of two numbers with a dash or colon between them, is accepted exactly when the numbers are from 1 to 65535 and in order, and then holds exactly the ports from the first to the last |
| `PortText.ExpressionMeaning` | node/port_forward.go:240-326 | numbers and ranges joined by commas, with blanks anywhere, compile exactly when each is valid, and then to exactly the ports they list without the excluded one |
| `Iptables.ParseIptablesSpec` | node/port_forward.go:421-451 | the tokeniser's loop |
| `Iptables.TokenisePrintLine` | node/port_forward.go:421-451 | reading a printed rule gives its fields back |
| `Iptables.TokenisePlain` | node/port_forward_status.go:217-219 | joining fields without blanks or quotes and reading them again is the identity |
| `Iptables.IsPortForwardRuleSpec` | node/port_forward.go:406-419 | the loop that recognises the node's own rules and legacy jumps |
| `Iptables.ManagedIsNodeRule` | node/port_forward.go:406-419 | a PREROUTING rule is the node's own exactly when some `-j` is followed by `V2NODE-HY2`, or some `--comment` by that text, bare or in quotes |
| `Iptables.RuleGoesFor` | node/port_forward.go:406-419 | a rule that is not kept has such a pair of fields |
| `Iptables.RuleGoes` | node/port_forward.go:406-419 | a rule that has such a pair is not kept |
| `Iptables.NormalizePortForwardSpecFields` | node/port_forward_status.go:273-287 | the loop that brings a rule to its normal form |
| `Iptables.EchoFaithful` | node/port_forward_status.go:235-249 | an added `-m udp` changes neither whether a rule is managed, nor its normal form, nor which rule a deletion names |
| `Iptables.RuleSpecMeaning` | node/port_forward_status.go:265-271 | the full text of a written rule redirects exactly the ports of its matcher, to its target |
| `PortRules.FindPortForwardTargetPortConflict` | node/port_forward.go:186-198 | finds another HY2 node's server port in the ranges if there is one |
| `PortRules.FindPortForwardRangeConflict` | node/port_forward.go:200-212 | finds an overlapping range with a different target if there is one |
| `PortRules.AcceptedWhen` | node/port_forward.go:123-147 | the two conflict searches decide acceptance: the node is accepted exactly when it reaches no other server port and shares no port with an earlier accepted node of a different target |
| `PortRules.RuleKeyInjective` | node/port_forward.go:156-160 | the deduplication key tells different rules apart |
| `PortRules.BuildHysteriaPortForwardRules` | node/port_forward.go:98-169 | the rules are those of the accepted nodes in order, without repetition; there is exactly one error for each rejected node, and it names a true reason |
| `Redirect.BuiltRulesConflictFree` | node/port_forward.go:98-169 | two built rules that share a port have the same target |
| `Redirect.ForwardExact` | node/port_forward.go:98-169 | first-match over the built rules sends a port to a target exactly when an accepted node with that server port declares it |
| `Redirect.NodeWants` | node/port_forward.go:106-122 | a HY2 node whose port text is a list of numbers and ranges asks for exactly the ports that they list, without its server port, if all of them are valid |
| `Redirect.OneNodeForwards` | node/port_forward.go:98-169 | so one such node has exactly these ports redirected to its server port |
| `Redirect.NodesForward` | node/port_forward.go:123-147 | of several such nodes that list neither each other's server ports nor each other's ports, every listed port goes to the server port of the node that lists it, and no other port goes anywhere |
| `Redirect.ForwardOnce` | node/port_forward.go:171-198 | no server port of a HY2 node is redirected, and redirecting twice is redirecting once |
| `Redirect.OrderIrrelevant` | node/port_forward.go:186-220 | order and repetition of the rules do not matter |
| `Redirect.AddRulesSends` | node/port_forward.go:155-165 | deduplication loses no redirected port |
| `NatTable.DeletePortForwardRules` | node/port_forward.go:384-404 | the rules that have a `-j V2NODE-HY2` or a comment `V2NODE-HY2` are deleted, and all others stay in order; without a listing, all plain legacy jumps are deleted |
| `NatTable.ReconcilePortForwardTool` | node/port_forward.go:363-382 | the rules without the node's jump or comment stay in order, and the written rules follow them, up to the first that is refused |
| `NatTable.ListPortForwardSpecs` | node/port_forward_status.go:235-249 | the listed texts are those of the managed rules in order |
| `Repair.InspectPortForwardTool` | node/port_forward_status.go:189-233 | what is reported extra and missing, by key |
| `Repair.NoDriftMeansInSync` | node/port_forward_status.go:210-229 | for managed rules without blanks or quotes, nothing is missing or extra exactly when the managed rules and the expected rules are the same set |
| `Repair.DriftCheckSound` | node/port_forward_status.go:189-233 | managed rules that are the expected ones, whatever their order and duplication, redirect every UDP port as the compiled rules do |
| `Repair.CleanInspectionSound` | node/port_forward_status.go:189-233 | so they do whenever an inspection finds nothing missing and nothing extra |
| `Repair.RepairConverges` | node/port_forward.go:363-418 | a repaired chain is in sync, and a second repair leaves it unchanged |
| `Repair.RepairTool` | node/port_forward_status.go:61-94 | the chain after a repair: the rules without the node's jump or comment, in order, and then the written ones; and that inspection then finds nothing missing or extra |
| `Repair.RepairHysteriaPortForward` | node/port_forward_status.go:61-94 | after a repair without refusals the live rules with the node's jump or comment send a port to a target exactly when an accepted node asks for it, and the rules without stay as they were, in order |
| `Limiter.DeviceBound` | limiter/limiter.go:451-479 | an admitted unknown address leaves the panel's count, the addresses reported since the last pull and the recorded addresses that nobody knows together at most at the limit, or one above it only for a tracked UDP source with counted devices; a refusal adds no pending address and drops no known one |
| `Limiter.AdmittedWithin` | limiter/limiter.go:451-479 | the same of any call that does what `CheckLimit` states |
| `Limiter.CountedOut` | limiter/limiter.go:314-402 | who counts as known, reported and pending, with the two minutes and the panel's mode written out |
| `Limiter.Limiter.CheckLimit` | limiter/limiter.go:420-496 | for every case whether the address is let in, the record that is left, and the bucket of the user's current rate: an unknown address is let in while the panel's count and the node's own addresses are below the limit, and at the limit only for a tracked UDP source of a user with counted devices, in the place of an address that nobody knows or one above |
| `Limiter.Limiter.AdmitUnknown` | limiter/limiter.go:457-477 | the decision on an address that is neither recorded nor known |
| `Limiter.Limiter.PendingNewIPCount` | limiter/limiter.go:329-353 | counts the pending addresses |
| `Limiter.Limiter.RecentReportedLocalIPCount` | limiter/limiter.go:381-402 | counts the addresses reported since the last alive pull |
| `Limiter.Limiter.DropOnePendingUnknownIP` | limiter/limiter.go:355-379 | drops some pending address if there is one, and nothing else |
| `Limiter.Limiter.GetOnlineDevice` | limiter/limiter.go:498-513 | lists every recorded address once |
| `AdmissionRace.LimitUnderRaces` | limiter/limiter.go:446-479 | under every interleaving of at most n calls, the devices of the user pass the limit by at most n - 1, and one more for a roaming UDP source |
| `AdmissionRace.ManyAtOnce` | limiter/limiter.go:451-479 | the bound is met by any number of calls |
| `AdmissionRace.AloneDecides` | limiter/limiter.go:446-479 | the steps of a call that meets no other make the decision of the whole call |
| `AdmissionRace.TakeBackForgets` | limiter/limiter.go:457-472 | over a run pending addresses are lost exactly when one is given up, or a refused call takes back the record it made after another call stored in it; then all that was stored in it is lost |
| `AdmissionRace.RecordContent` | limiter/limiter.go:355-379 | the pending addresses of a record are those that calls stored in it and did not give up |
| `AdmissionRace.RefusedCallForgets` | limiter/limiter.go:446-479 | a run of two calls in which that happens |
| `AdmissionRace.LetInBound` | limiter/limiter.go:446-479 | without UDP sources, and when no refused call takes back a record that others hold or stored in, the addresses let in keep to the same bound |
| `AdmissionRace.AnyNumberLetIn` | limiter/limiter.go:446-479 | with never more than two calls at once, any number of addresses can be let in |
| `Limiter.Limiter.CommitOnlineDeviceReport` | limiter/limiter.go:515-554 | the reported addresses are then those named with an id, each for the user named last; a record loses exactly the addresses named under its tag for its user |
| `Limiter.CommitKeepsSlots` | limiter/limiter.go:515-554 | when no address is shared and the user's unpulled addresses are reported again, every address that takes up a slot keeps it, and the number of devices does not go down |
| `Limiter.SharedAddressFreesSlot` | limiter/limiter.go:525-528 | with one address reported for two users it does |
| `Limiter.SlotAfterCommit` | limiter/limiter.go:515-554 | the addresses that take up a slot after a commit: those whose last report is for the user, and those still recorded that the panel does not know of |
| `Limiter.PendingAfterCommit` | limiter/limiter.go:533-542 | exactly which addresses are pending after a commit; one accepted after the report was taken stays so |
| `Limiter.Limiter.UpdateUser` | limiter/limiter.go:230-255 | the new state of every index, and exactly when the bucket cache stays right |
| `Limiter.Limiter.UpdateUserInfo` | limiter/limiter.go:257-279 | the new limits; the buckets of updated users are dropped |
| `Limiter.UpdateKeepsBuckets` | limiter/limiter.go:230-255 | every cached bucket still belongs to a present user and has the rate of the current limit, exactly when each added user has no bucket, a dropped one, or one with the rate of the new limit |
| `Limiter.RateIsTightest` | limiter/limiter.go:481-484 | the rate is that of the smaller limit set, in bytes per second, exactly when 64 bits hold the bits per second |
| `Limiter.Limiter.constructor` | limiter/limiter.go:56-85 | the indexes of a new limiter |
| `Limiter.Limiter.SetDefaultDeviceLimit` | limiter/limiter.go:135-145 | clamping of the fallback limit |
| `Limiter.Limiter.SetAliveSnapshot` | limiter/limiter.go:98-133 | the counts, mode and time of the snapshot, and for each user with a positive id its trimmed addresses without the prefix of mapped ones |
| `Limiter.SnapshotOf` | limiter/limiter.go:109-128 | which addresses of a snapshot are kept |
| `Limiter.PutInfosAt` | limiter/limiter.go:67-79 | a user has the limits and the id of its last mention |
| `MachinePlan.RoutingKept` | node/machine.go:129-202 | unless a full reload is required the same nodes carry the same custom routes before and after, whatever fails on the way |
| `MachinePlan.PlacementKeys` | node/machine.go:147-202 | every wanted node is placed once, under its key |
| `MachinePlan.NothingToDo` | node/machine.go:160-167 | nodes that run as described are kept and counted as unchanged |
| `MachinePlan.KeysShared` | node/machine.go:279-285 | two nodes share a key exactly when they have one positive id and one host, up to white space around it and slashes after it |
| `MachineFate.FatesOf` | node/machine.go:144-202 | what becomes of each wanted node: it keeps its controller when it was not described, is as described, or its replacement cannot be prepared; otherwise the old controller goes, and a new one is listed exactly when the old one closes and the new one activates |
| `MachineFate.TallyMeans` | node/machine.go:144-202 | the counts and failures are those of the nodes started, replaced, unchanged and failed |
| `MachineFate.RoutesChangeMeans` | node/machine.go:249-277 | a full reload is needed exactly when a node with custom routes comes, goes or changes |
| `MachineFate.RefreshCounts` | node/machine.go:71-121 | the failures and skips of a refresh are those of the nodes without a first mention of a key, or whose request fails, or without news while not running |
| `Machine.Node.Reconcile` | node/machine.go:54-210 | when it returns an error, and otherwise what becomes of each node (`MachineFate.Answered`): a node whose request fails or whose replacement cannot be prepared keeps its controller object, one whose old controller does not close or whose new one does not activate is gone, a new one that fails is absent; the slices list exactly the running controllers under distinct keys, and the routing is kept |
| `Machine.Node.Rebuild` | node/machine.go:144-202 | the next slices, their counts, and that exactly their controllers run |
| `Machine.Node.BringUp` | node/machine.go:147-201 | one wanted node: kept, started, replaced or gone, case by case, and what then runs |
| `Machine.Node.CloseRemoved` | node/machine.go:134-142 | exactly the unwanted nodes are closed |
| `Machine.Node.ReplaceController` | node/controller.go:89-104 | which of the two controllers runs after each way a replacement can end |
| `Machine.Node.CurrentMachineSlots` | node/machine.go:212-231 | the slots by key, or an error when the slices are out of step or a key is empty |
| `Machine.Node.Refresh` | node/machine.go:71-121 | the wanted keys in order, the described nodes, and the failures |
| `Machine.NoFailureSettles` | node/machine.go:144-207 | without failures the list is the desired nodes in order, as described, or as they were if unchanged; so it is as desired exactly when the unchanged nodes already were |
| `Machine.NoNewsKeepsOldConfig` | node/machine.go:106-109 | a node for which the panel has no news keeps a configuration that is no longer desired, and no failure says so |
| `Machine.ReconcileTwice` | node/machine.go:134-209 | a second round with the same answers keeps every controller object and counts nothing as changed |
| `Machine.SlotsShowAllWhenDistinct` | node/machine.go:218-229 | the slots show every listed controller exactly when keys are distinct |
| `Machine.TwoNodesOneKey` | node/node.go:51-83 | two nodes with one key both start, and the slots then own one of the two controllers |
| `Machine.Node.Prepare` | node/node.go:43-87 | one controller for every described node, for its configuration and description, and one failure for every other; slices in step; distinct keys stay distinct |
| `Machine.Node.Start` | node/node.go:89-137 | exactly the controllers that can be prepared and activated run after a start, and are listed, which with distinct keys is what a reconcile requires |
| `Machine.Node.Close` | node/node.go:139-151 | nothing runs after closing without error; the configurations are kept |
| `Traffic.StepConserves` | core/user.go:108-163 | no atomic step loses or invents a byte |
| `Traffic.RunConserves` | common/counter/traffic.go:66-74 | in every reachable state each counted byte is in a counter, in hand, swapped out, delivered, or was dropped for a user without an id |
| `Traffic.RegisteredTrafficConserved` | node/user.go:19-114 | for a user that stays registered, bytes counted in all its storages equal the change of these plus the bytes of the user in reports that returned no error |
| `Traffic.OwnCounterConserved` | common/counter/traffic.go:20-29 | they are all in its one counter or in reports exactly when nothing is counted in its storages out of reach |
| `Traffic.NeverReported` | core/app/dispatcher/default.go:216-223 | what is counted in a storage out of reach stays in it, and no report contains it |
| `Traffic.ReplacingStrands` | core/app/dispatcher/default.go:216-221 | a connection whose table replaces another puts every storage there is out of reach |
| `Traffic.TwoTables` | core/app/dispatcher/default.go:216-223 | a run of two first connections in which bytes are counted in a storage out of reach |
| `Traffic.RunKeepsUser` | core/user.go:127-133 | a registered user keeps its storage in every table |
| `Traffic.RunDropsNothing` | core/user.go:127-133 | nothing swapped out of a registered user is dropped |
| `Traffic.SentReportLosesNothing` | core/user.go:134-138 | from the end of a scan until the report is settled, the payload by user id holds everything that was swapped out, if ids were distinct at the end of the scan |
| `TrafficScan.ScanTakes` | core/user.go:121-150 | a user with an id that the table lists when a scan starts is seen by it, and is among its items exactly when the two amounts loaded for it add up to more than 1000 times the minimum; if it is not, its storage was only added to |
| `TrafficScan.ItemContent` | core/user.go:128-145 | the item of a user is of its storage, under its id, and holds what is no longer in the counter |
| `TrafficScan.BusyUsersReported` | core/user.go:121-150 | a user above the threshold when the scan starts is reported, and one that is reported is above it with what is counted meanwhile |
| `TrafficScan.ReportCanStep` | node/user.go:19-114 | in every reachable state the report task has a step to take |
| `EdgeTraffic.DrainEdgeUserTraffic` | node/edge_traffic.go:37-94 | which records are reported and which are restored, in order, and one report entry for each user that records are billed to, with the exact sum of these, saturated |
| `EdgeTraffic.FateMeans` | node/edge_traffic.go:60-84 | a record is billed to a user exactly when it counts something, names the node and a uuid whose last user with a positive id has that id, and is above the threshold |
| `EdgeTraffic.UuidMeans` | node/edge_traffic.go:96-110 | a text names a uuid exactly when, trimmed, it is the tag, a bar and the uuid with blanks around it |
| `EdgeTraffic.IdMeans` | node/edge_traffic.go:49-55 | the id of a uuid is that of its last user with a positive id |
| `EdgeTraffic.DrainPartitions` | node/edge_traffic.go:60-84 | every record that counts something lands in exactly one list |
| `EdgeTraffic.EdgeUserRoundTrip` | node/edge_traffic.go:96-110 | a record under the core's key for a user is matched to that user exactly when the tag has no bar and no leading blank, and the uuid is not empty and has no blank at either end |
| `EdgeTraffic.MergeUserTraffic` | node/edge_traffic.go:140-163 | the users of both lists; for amounts in range one entry per user with the saturated sum of both lists, exactly when the list merged into repeats no user |
| `EdgeTraffic.PayloadIsAmounts` | node/controlplane_panel_adapter.go:190-197 | the payload by user id drops nothing of a merged report |
| `EdgeTraffic.RestoreEdgeTraffic` | node/edge_traffic.go:112-128 | records are given back in order up to the first refusal |
| `EdgeTraffic.ReportEdgeTraffic` | node/user.go:36-45 | when the edge takes everything back, a report without error returns the records that are not billed, and a failed one all that count something |
| `TrafficReport.BuildReport` | node/user.go:34-46 | the payload has for every user the saturated sum of the core's items and the edge's reported records, and nothing else |
| `TrafficReport.SendReport` | node/user.go:34-114 | the report of a scan names the users with an item or a billed record, each with what was swapped out of it and what is billed to it, saturated |
| `UserDelta.ApplyUserDelta` | node/user_delta.go:9-37 | for every delta the next list is strictly sorted and holds the last mention of every upserted user, and of the old users those that are neither deleted nor upserted; who is deleted, added and updated; the three lists patch the old users into it exactly when no user is upserted twice |
| `UserDelta.CompareUserList` | node/user.go:147-170 | who is deleted, who is added and updated, and that patching gives the new list exactly when it names no user twice |
| `UserDelta.SortedUnique` | node/user_delta.go:35-35 | the sorted list is determined by the users it holds |
| `UserDelta.LessMeans` | node/user_delta.go:35-35 | the order is that of the first character in which two texts differ |
| `UserDelta.OverrideMeans` | node/user_delta.go:9-37 | of users with one uuid the last one counts |
| `UserSync.Controller.LoadAndSyncUsers` | node/controller.go:200-247 | exactly when the users come with a revision, when the saved state is asked about, and what is saved; with a revision they are the panel's at that revision, and the saved state stays a matching pair |
| `UserSync.Controller.Activate` | node/controller.go:162-190 | the indexes agree after a start exactly when no id is left over; the new limiter has the snapshot and the clamped default limit |
| `UserSync.Controller.Start` | node/controller.go:81-87 | exactly when a start succeeds, and when the list is then the panel's at the revision held, which is always so unless the request is cancelled; the indexes agree exactly when no id is left over |
| `UserSync.Controller.FetchChanges` | node/task.go:144-202 | the lists returned patch the old into the new; after an answer the list is the panel's at the revision held exactly when the answer is a full list or the two agree on the users it does not name |
| `UserSync.Controller.ApplyChanges` | node/task.go:216-242 | from agreeing indexes the three apply steps lead to agreeing indexes |
| `UserSync.Controller.ExecuteNodeUserSync` | node/task.go:144-254 | one sync keeps index agreement, replication and the saved pair, and brings a list that has fallen behind back exactly when the answer catches up; the limiter has the new snapshot, if there is one, without the counts of users that have gone |
| `UserSync.Controller.RunSyncs` | node/task.go:144-254 | so does any run of syncs |
| `UserSync.Run` | node/controller.go:200-247 | over any run of process starts, syncs, connections and reports the saved state matches, and while the node is up the list is the panel's and all indexes agree |
| `UserSync.StartAgreesWhen` | core/user.go:169-190 | ids agree after a start exactly when every id left over belongs to a started user |
| `UserSync.DeltaCatchesUp` | node/user_delta.go:9-37 | a delta leads two lists to the same users exactly when they agree on the users it does not name |
| `UserSync.CompleteAnswerCatchesUp` | node/task.go:155-182 | a complete answer replaces a list exactly when it deletes every user it does not name |
| `UserSync.CancelledStartKeepsGoneUser` | node/controller.go:220-246 | what a start would do if its request were cancelled: a user that the panel has deleted stays in the list and in the saved state; no start of the node is cancelled |
| `UserSync.RestartKeepsLeftOverId` | core/user.go:184-190 | a second start in the same process keeps the id of a user that has gone meanwhile |
| `UserSync.Core.DelUsers` | core/user.go:57-100 | no id, no traffic counter under the tag and no open connection of the deleted users is left |
| `UserSync.Core.AddUsers` | core/user.go:169-190 | the ids of added users are put in |

## Left out

- Traffic.StepConserves: byte counts are mathematical integers; a counter that passes 2^63 bytes is not modelled. The counters and the report task are a state machine over atomic steps and not classes, because what matters is how they interleave.
- Traffic.RegisteredTrafficConserved: a report counts as delivered when its call returns no error, also when the code returns none for a cancelled request.
- Limiter.Limiter.CheckLimit: one time stands for the several clock readings of a call, and the whole call is one step; `AdmissionRace` takes it apart. Dynamic speed limits and their expiry are not part of this model.
- AdmissionRace.LimitUnderRaces: what is known of the user stays the same, so no report and no alive pull falls into a run, and counting a record is one step.
- Limiter.Limiter.SetAliveSnapshot: the normalised snapshot is built by a comprehension and not by a loop.
- Machine.Node.Reconcile: a reconcile that ends in an error leaves the slices alone, but what runs then is not stated.
- UserSync.Controller.ApplyChanges: every apply step succeeds; runs in which one fails after the list has advanced are not modelled, nor are sidecar node types, which keep ids by design.
- UserSync.Controller.ExecuteNodeUserSync: the edge sidecar, the alive request and its errors are only the snapshot they yield.
- PortExpr.ParsePortForwardMatchersAndRangesExcept: waiting single ports are kept as numbers until a chunk is written; the source keeps their decimal text.
- Whether a tool is installed, root checks, the stale chain flag, and flushing the legacy chain.
- Links, sniffers, rate-limit buckets beyond their rate, inbounds and user builders of the core.
- HTTP, websockets, encodings, certificates, self-update, health, configuration files and logging.
