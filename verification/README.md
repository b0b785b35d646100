# Verification of the xds-controller placement and publishing path

xds-controller turns Kubernetes objects (Route, Listener, Cluster, TLSSecret) into Envoy xDS snapshots.
This project models the path that decides which Routes are served and publishes them, and proves
what that path is for: one placement whatever the order of work, listeners Envoy accepts, changes that
are never lost on the way to a snapshot, and versions that change exactly when the configuration does.

## The modules, in the order of the data

- `Prelude`, `Sorting`: options, the lexicographic order behind Go's string comparison and what it means for two
  names, a sort.
- `Matching`: filter chain matchers (`pkg/xds/fcm`). A matcher is brought to a normal form of keys, and
  two matchers are compared criterion by criterion; `Collide` is the independent definition, a common
  leaf of Envoy's trie of key tuples.
- `Routes`, `RouteStore`: Route and Listener objects, their age order, conflicts, and the served routes
  per node. `Decide` and `NextStore` say what one RDS reconcile means.
- `Convergence`, `RouteRuns`, `RouteQueue`, `BrokenRoutes`: the incremental algorithm over whole runs.
  `Greedy` is the oldest-first placement, defined by recursion over the age order and independent of
  the algorithm. `Inv` is what every reconcile and every edit of the cluster keeps.
- `RouteController`: the RDS reconciler as a class, one method per function of the source, proved to do
  what `Decide` says.
- `RouteTrace`: what the reconciler does to the outside, as a ghost trace of locked write sections, each with
  the store and the config counter it leaves, and of marks. `Follows` says that the trace accounts for the whole
  change of the store, that every section is safe, and that every changed listener is marked after its change.
- `Outcomes`: who is served, in a drained controller and by the audit, told from the objects as written: creation
  times and names, nodes, listener names, trie leaves (`Files`, straight from a filter_chain_match) and virtual host
  domains. Nothing in these statements goes through the comparison functions of the model.
- `RouteAudit`: the direct placement and report of `cmd/route-audit`, proved to be the greedy one.
- `PendingListeners`: the pending marks and their tokens, and the hand-off protocol between RDS and LDS
  as a state machine over single steps.
- `ListenerBuild`, `ListenerController`: the filter chains of a listener, the chain cache, and the LDS
  reconciler.
- `Snapshots`, `Publisher`: route references, pruning, the consistency check, and the polling publisher.
- `Varint`, `ConfigHash`, `VersionHasher`: the version hash as plain recursion, what it determines, and
  the memoizing hasher with its pool of writers.
- `CertificateBackoff`: the retry schedule of certificate operations in SDS.
- `EndpointRefs`, `Clusters`: merging the referenced Endpoint resources into a cluster's load assignment, and the
  one-copy cluster store of CDS.

## What holds only under a condition

Where a promise fails, the project gives an input for which it does and the exact condition under which it holds.

- **Order independence.** A Route whose spec stops compiling keeps serving its last good version
  (controllers/rds/route_controller.go:194-218). `BrokenRoutes.OrderCanMatter` drains one queue in two
  orders and ends with different routes served. The exact condition on the state the draining starts from is
  `BrokenRoutes.EveryOrderGreedyIff`: every order ends in the greedy placement iff every route served from a
  spec that no longer compiles clashes, where it is stored, with an older route the greedy pass serves. From
  an empty store the condition holds, so every order gives one and the same placement.
- **Audit against controller.** The audit never converts `route_config`, the controller does. With no route
  served from a spec that no longer compiles, they serve the same routes exactly when every route the audit serves
  converts (`RouteAudit.AuditPredictsController`; `BrokenRoutes.AuditPredictsDrain` has the condition on the start
  of the draining instead). A served route edited to an invalid matcher is a second way to disagree
  (`BrokenRoutes.PinnedDisagrees`). Without Listener objects the audit assumes every listener, the controller
  none (`RouteAudit.NoListenersDisagree`).
- **Hash.** A packed Any that does not decode is framed, one that decodes is replaced by a bare digest.
  The two meet exactly for an undecodable value of 31 bytes that completes a digest starting with 31
  (`ConfigHash.AnyBytesMeet`, `ConfigHash.DifferentAnysMeet`); the equivalences count such values as the same.
- **Rebuild of a listener that does not convert.** LDS logs it, keeps the old copy and still clears the
  pending mark (controllers/lds/listener_controller.go:273-278). With nothing owed or pending a changed part is
  current exactly when its listener converts with the routes now stored
  (`PendingListeners.NothingPendingMeansCurrent`; `PendingListeners.UnconvertedIsCleared` is the run that shows it).
  What not converting means is `ListenerController.LeaveIff`, and after every listener has been reconciled a node is
  current exactly when none of those had a copy there (`ListenerController.RebuildAll`). One way to get there is an
  empty, non-nil list of filter chains whose last route leaves (`ListenerController.EmptyListLeavesStale`).
- **Publishing.** The version of a node is recorded before SetSnapshot is called (pkg/serv/serv.go:177-184,
  pkg/serv/serv.go:245-247), so after a refused SetSnapshot the retry finds the version already recorded, succeeds
  without asking the cache, and the loop goes quiet (`Publisher.RefusedStaysLost`). `Publisher.NoUpdateLost`: in a quiet
  loop every node of the current snapshots has its version cached exactly when none has an outstanding refusal.
  The polling loop takes the counter as it finds it at the start (pkg/serv/serv.go:125), so what the
  configuration holds then waits for the next change (`Publisher.StartIsNotPublished`).
- **Force renewal.** The comment at controllers/sds/annotations.go:35-39 promises that the annotation goes only
  after a new certificate is stored. Over any run it goes only after that or after a failed attempt
  (`CertificateBackoff.RemovedMeansRenewedOrFailed`), and after a failed attempt it can go without a new certificate
  (`CertificateBackoff.ClearedWithoutNewCertificate`).
- **Deleting inside a range loop (CDS).** It runs out of range exactly when the last element matches and an
  earlier one does too (`Clusters.RangeDeletePanicsIff`), and it skips the element after each one deleted; the
  invariant that a name is stored once makes it safe.

## Assumptions

- One RDS worker; each locked section is one step. One LDS worker per listener. The work queue is a set of names.
- Route names are unique with a fixed creation time (`born`); name and generation fix the spec, as the API server
  guarantees and `placement.same` relies on.
- The nodes of a route are one function of its spec and the Listener objects, used by the controller and the audit.
- SHA-256 is a parameter. The hash equivalences assume that it has no collision among the byte strings hashed for
  the two sides, which is weaker than injectivity. Unknown proto fields are empty.
- A refused SetSnapshot leaves the cache as it was. Instants in a status are stored in whole seconds.
- During a run of the hand-off protocol the Listener objects do not change; LDS watches them itself.
- Parsing, JSON and proto conversion, validation and descriptor registries are fields of the inputs that say how
  they went. Messages are immutable while the memo can reach them.

## Model

| member | source | states |
|---|---|---|
| Matching.RangeKeysAreAddressSets | pkg/xds/fcm/fcm.go:169-186 | two ranges of one family compile to the same key iff they contain the same addresses |
| Matching.InRangeIsLeadingBits | pkg/xds/fcm/fcm.go:169-186 | a range contains exactly the addresses whose first prefix_len bits are those of its address |
| Matching.CompileRangeIsPrefix | pkg/xds/fcm/fcm.go:169-186 | the key of a range is the one prefix of the clamped length without host bits that has the address in its block |
| Matching.RangesCompile | pkg/xds/fcm/fcm.go:169-186 | a list of ranges compiles iff every address parses and no two have one prefix; it is filed under those prefixes, an empty list under all addresses of both families |
| Matching.NameKeyIsKey | pkg/xds/fcm/fcm.go:148-167 | the key of a name is the name without a leading star, every letter A to Z in lower case and nothing else changed |
| Matching.PartialWildcardIff | pkg/xds/fcm/fcm.go:151-153 | a name is refused iff it has a star anywhere but in a leading "*." |
| Matching.NamesCompile | pkg/xds/fcm/fcm.go:147-167 | a list of names compiles iff every star leads a "*." and no two names have one key; it is filed under the keys, an empty list under the empty name |
| Matching.PlainKeysAgree | pkg/xds/fcm/fcm.go:147-167 | two names without a star have one key iff they agree ignoring the case of A to Z |
| Matching.WildcardAgainstHost | pkg/xds/fcm/fcm.go:147-267 | "*." + d against a host: Duplicate iff the host is "." + d ignoring case, else Shadow iff it is one non-empty dot-free label + "." + d, or "." + d up to one trailing dot, else Apart |
| Matching.Unique | pkg/xds/fcm/fcm.go:134-144 | the list itself, the "any" keys when empty, and an error exactly when a value repeats |
| Matching.CompileServerNames | pkg/xds/fcm/fcm.go:147-156 | fails exactly on a misplaced star or two names with one key; otherwise files the list under exactly the keys of its names, lower-case, in order, or under the empty name |
| Matching.CompileCIDRs | pkg/xds/fcm/fcm.go:169-186 | fails exactly on an address that does not parse or two ranges with one prefix; otherwise files the list under exactly the prefixes of its ranges, in order |
| Matching.CompiledIsNormal | pkg/xds/fcm/fcm.go:95-131 | every criterion of a compiled matcher has at least one key and no key twice |
| Matching.CompileIff | pkg/xds/fcm/fcm.go:95-131 | when a filter_chain_match compiles, and that its matcher stands for exactly the trie leaves the match names criterion by criterion |
| Matching.CatchAllFiles | pkg/xds/fcm/fcm.go:95-98 | no match at all stands for exactly the leaves with the "any" key everywhere |
| Matching.CompareServerNames | pkg/xds/fcm/fcm.go:227-240 | Duplicate iff a key is shared, else Shadow iff a wildcard or trailing-dot pair exists, in whatever order pairs are met |
| Matching.CompareSymmetric | pkg/xds/fcm/fcm.go:191-203 | the verdict does not depend on the order of the matchers |
| Matching.DuplicateIffCollide | pkg/xds/fcm/fcm.go:191-240 | Duplicate iff some tuple of the nine criteria files both chains in Envoy's trie |
| Matching.CompareIff | pkg/xds/fcm/fcm.go:191-240 | Duplicate iff some leaf would hold both; Shadow iff none would, but two of their leaves differ only in names of which one covers the other or ends in one more dot |
| Matching.CoversOneLabel | pkg/xds/fcm/fcm.go:261-267 | a wildcard covers exactly the domains with one more non-empty label |
| Matching.MatcherSet.Add | pkg/xds/fcm/fcm.go:276-283 | the index stays complete and sound for everything added so far |
| Matching.MatcherSet.DuplicatesShareAName | pkg/xds/fcm/fcm.go:269-274 | any added duplicate of a matcher is filed under one of its names |
| Matching.MatcherSet.HasDuplicate | pkg/xds/fcm/fcm.go:286-295 | true iff a linear scan of all added matchers finds a Duplicate |
| Routes.OlderKeyTotal | controllers/util/util.go:145-150 | the age order is total and asymmetric; what it orders by is `Routes.OlderIffPrecedes` |
| Routes.OlderKeyTransitive | controllers/util/util.go:145-150 | the age order is transitive |
| Routes.OlderIffPrecedes | controllers/util/util.go:145-150 | the older route is the one created earlier; at equal times the one whose name ends first or has the smaller character where the names first differ |
| Routes.RouteConflictIff | controllers/rds/route_controller.go:377-423 | two routes on a common listener conflict as Duplicate iff a leaf would hold both, as Shadow iff they are a near miss and some domain stands in a virtual host of each |
| Routes.StaticConflictIff | controllers/rds/route_controller.go:521-547 | an own chain is in the way iff a named listener on one of the nodes defines one that compiles and shares a leaf with the route |
| Routes.RouteConflictSymmetric | controllers/rds/route_controller.go:377-386 | a conflict between two routes is mutual; what it is, is `Routes.RouteConflictIff` |
| Routes.RouteNodes | cmd/route-audit/main.go:180-195 | exactly the route's own nodes on which a listener it names is present |
| Routes.RouteNodesAre | cmd/route-audit/main.go:180-195 | a node is the route's iff it is one of its own and of a present listener it names |
| RouteStore.PutHas | controllers/rds/route_controller.go:622-639 | after writing an entry node by node, exactly those nodes hold it, once, and nothing else changed |
| Convergence.StepStoreOk | controllers/rds/route_controller.go:135-292 | a reconcile leaves no node with two clashing routes or a name twice, and touches only what it decides |
| Convergence.StepLosersOk | controllers/rds/route_controller.go:672-692 | everything a reconcile enqueues is strictly younger than the reconciled route |
| Convergence.StepCoveredSelf | controllers/rds/route_controller.go:248-258 | a route that yields is remembered by a served winner that blocks it |
| Convergence.StepCoveredOther | controllers/rds/route_controller.go:260-266 | no other unserved route is forgotten, also when its winner is evicted by a third route |
| Convergence.StepInv | controllers/rds/route_controller.go:135-292 | every reconcile of any name keeps the invariant |
| Convergence.EditInv | controllers/rds/route_controller.go:337-350 | any edit of routes and listeners keeps the invariant if every affected route is enqueued |
| Convergence.StoredIffGreedyUpTo | controllers/rds/route_controller.go:135-292 | with younger routes still queued, among the routes up to a given age exactly the greedy ones are stored, if none of them is queued or broken |
| Convergence.StoredIffGreedy | controllers/rds/route_controller.go:135-292 | with an empty queue and no broken route served, a route is served iff the oldest-first greedy pass serves it |
| Convergence.StoredIsPlaced | controllers/rds/route_controller.go:268-274 | a served route of a drained state is on all of its nodes and no others, with its current spec |
| Convergence.DrainedIsGreedy | controllers/rds/route_controller.go:135-292 | with an empty queue the entries on every node are the greedy ones iff no broken route is served there; `BrokenRoutes.EveryOrderGreedyIff` has the condition on the start |
| RouteRuns.StartInv | controllers/rds/route_controller.go:135-292 | a controller that just started, every route queued, satisfies the invariant |
| RouteRuns.RunInv | controllers/rds/route_controller.go:135-292 | the invariant holds after any run of edits and reconciles in any order |
| RouteRuns.EventuallyGreedy | cmd/route-audit/main.go:104-145 | after any run from a fresh start, an empty queue means the greedy placement iff no broken route is served at that point |
| RouteRuns.StepNoBroken | controllers/rds/route_controller.go:194-218 | a reconcile never starts to serve a spec that does not compile |
| RouteRuns.DrainIsGreedy | controllers/rds/route_controller.go:135-292 | any order of draining ends in the greedy placement if no broken route was served at the start (sufficient; the exact condition is `BrokenRoutes.EveryOrderGreedyIff`) |
| RouteRuns.OrderDoesNotMatter | controllers/rds/route_controller.go:135-292 | from a fresh start two drains in any orders end with the same entries on every node |
| RouteRuns.YoungerWeighLess | controllers/util/util.go:145-150 | all routes younger than one weigh less together than it alone: the measure behind termination |
| RouteRuns.StepShrinks | controllers/rds/route_controller.go:684-692 | every dequeued reconcile makes the queue strictly lighter, whatever it enqueues |
| RouteRuns.DrainBounded | controllers/rds/route_controller.go:660-692 | no drain of a fixed cluster is longer than the weight of its queue |
| RouteQueue.DrainQueue | controllers/rds/route_controller.go:135-292 | running the mutable reconciler on whatever is queued terminates in the greedy placement |
| Outcomes.ClashIff | controllers/rds/route_controller.go:377-423 | two routes that compile clash iff they name a common listener and their matches name a common leaf, or two near ones and a common domain |
| Outcomes.EligibleIff | controllers/rds/route_controller.go:176-246 | a route can be served iff it converts, a listener it names is on one of its nodes, and on none of them a named listener has an own chain with a leaf of the route |
| Outcomes.StoredNeverCrowd | controllers/rds/route_controller.go:427-463 | two routes stored on a node name no common listener with a common leaf, nor with near leaves and a common domain |
| Outcomes.NeverCrowd | controllers/rds/route_controller.go:135-292 | the same at every point of every run of edits and reconciles |
| Outcomes.DrainedServes | controllers/rds/route_controller.go:135-292 | a drained controller serves a route iff it can be served and no served route created earlier, or at the same time with an earlier name, meets it on a node and cannot stand with it |
| Outcomes.OlderOfTwoServed | controllers/rds/route_controller.go:239-274 | of two routes that meet and cannot stand together, the earlier created one is served, at equal times the one whose name comes first, unless an older route is in its way; the other is not |
| BrokenRoutes.SomeDrain | controllers/rds/route_controller.go:660-692 | from every reachable state some order empties the queue |
| BrokenRoutes.BrokenStaysOut | controllers/rds/route_controller.go:194-218 | a route whose spec does not compile and that is not served stays out of every drain |
| BrokenRoutes.OrderCanMatter | controllers/rds/route_controller.go:194-218 | with a broken route served, two orders of one queue end with different routes served |
| BrokenRoutes.DrainDisplaces | controllers/rds/route_controller.go:244-266 | if every broken route served clashes with an older greedy route, every drain in any order ends greedy |
| BrokenRoutes.OldestFirst | controllers/rds/route_controller.go:244-266 | otherwise draining oldest first keeps the oldest broken route without such a clash |
| BrokenRoutes.EveryOrderGreedyIff | controllers/rds/route_controller.go:194-274 | every order of draining ends greedy iff every broken route served at the start clashes, where it is stored, with an older greedy route |
| BrokenRoutes.AfterAnyRunGreedyIff | controllers/rds/route_controller.go:194-274 | the same for the state after any run of edits and reconciles from a fresh start |
| BrokenRoutes.AuditPredictsDrain | cmd/route-audit/main.go:104-176 | under that condition the audit names exactly the routes any drain ends with iff all it serves convert |
| BrokenRoutes.PinnedDisagrees | controllers/rds/route_controller.go:208-218 | a served route edited to an invalid matcher stays served, though the audit serves only routes that convert and not this one |
| RouteTrace.TraceIsRun | controllers/rds/route_controller.go:580-658 | the sections and marks of any trace are changes and marks the hand-off protocol allows in any state; what RDS owes is what the trace owes; a part whose version did not move has its old routes |
| RouteTrace.FollowsIsRun | controllers/rds/route_controller.go:642-658 | a reconcile's trace leaves RDS owing no more marks than before |
| RouteController.MergeNames | controllers/rds/route_controller.go:694-700 | exactly the union of the two lists |
| RouteController.MergedInOrder | controllers/rds/route_controller.go:694-700 | the merged list is in strictly ascending name order, so nothing is repeated |
| RouteController.RouteReconciler.constructor | controllers/rds/route_controller.go:116-128 | a new reconciler serves nothing and satisfies its invariant |
| RouteController.RouteReconciler.RemoveRouteLocked | controllers/rds/route_controller.go:610-620 | in-place delete removes exactly the name on the node, bumps the counter if it was there, and returns the listeners it named |
| RouteController.RouteReconciler.RemoveRouteFromNodes | controllers/rds/route_controller.go:580-594 | exactly one recorded locked section removes the route from exactly the given nodes, leaves a safe store and a moved counter, and owes marks only for the listeners returned |
| RouteController.RouteReconciler.RemoveRouteEverywhere | controllers/rds/route_controller.go:597-608 | one recorded section after which the route is on no node; every listener it named is returned |
| RouteController.RouteReconciler.UpdateRouteConfig | controllers/rds/route_controller.go:622-639 | one recorded section that replaces the entry where it stands or appends it, and bumps the counter; true iff it was there |
| RouteController.RouteReconciler.RoutePlacement | controllers/rds/route_controller.go:485-498 | the nodes, listeners and generation the route is stored with |
| RouteController.RouteReconciler.FindConflicts | controllers/rds/route_controller.go:427-463 | exactly the other routes on the nodes whose chains cannot coexist with the route's, oldest first |
| RouteController.RouteReconciler.AddLoser | controllers/rds/route_controller.go:672-682 | the loser is recorded under the winner and nothing is dropped |
| RouteController.RouteReconciler.EnqueueRoute | controllers/rds/route_controller.go:660-670 | the route is sent to the requeue channel |
| RouteController.RouteReconciler.RequeueLosers | controllers/rds/route_controller.go:684-692 | exactly the winner's losers are enqueued and then forgotten |
| RouteController.RouteReconciler.NotifyListeners | controllers/rds/route_controller.go:642-658 | every named listener is marked and notified, in order |
| RouteController.RouteReconciler.StaticChainConflict | controllers/rds/route_controller.go:521-547 | names a listener iff one of its own chains duplicates the route's on a shared node |
| RouteController.RouteReconciler.Unplace | controllers/rds/route_controller.go:501-506 | the route leaves every node and all listeners whose routes changed are notified |
| RouteController.RouteReconciler.Reject | controllers/rds/route_controller.go:509-517 | the same for a route that may not be served |
| RouteController.RouteReconciler.RecordYield | controllers/rds/route_controller.go:248-258 | the route is remembered under every older conflicting route and no other |
| RouteController.RouteReconciler.Evict | controllers/rds/route_controller.go:260-266 | younger conflicting routes leave every node, one recorded section each, are enqueued, and their listeners are marked after each section |
| RouteController.RouteReconciler.Place | controllers/rds/route_controller.go:268-271 | writing node by node, one recorded section each, passes only through stores without clashes and changes only the given listeners |
| RouteController.RouteReconciler.LeaveNodes | controllers/rds/route_controller.go:226-237 | the route leaves the nodes it no longer belongs to, with their listeners notified |
| RouteController.RouteReconciler.ClaimNodes | controllers/rds/route_controller.go:260-274 | evicts, writes and then marks every listener the writes changed, or nobody when the placement is the same |
| RouteController.RouteReconciler.Judge | controllers/rds/route_controller.go:239-274 | static chains, then older, then younger conflicts decide, as `Decide` says |
| RouteController.RouteReconciler.Contend | controllers/rds/route_controller.go:226-274 | the decision does not depend on where the route itself was stored before |
| RouteController.RouteReconciler.Resolve | controllers/rds/route_controller.go:176-274 | missing, unreferenced, uncompilable and nowhere-hosted routes take their own branch |
| RouteController.RouteReconciler.Reconcile | controllers/rds/route_controller.go:135-292 | store, losers and queue become what `Decide` says; the trace accounts for the change section by section, each safe and with a moved counter, every changed listener marked after its change; a failed read changes nothing |
| RouteAudit.SharedNodes | cmd/route-audit/main.go:197-210 | exactly the nodes of both lists |
| RouteAudit.Conflict | cmd/route-audit/main.go:147-176 | a line iff a static chain or a served route stands in the way, and then a true reason with its nodes |
| RouteAudit.Audit | cmd/route-audit/main.go:104-145 | serves, oldest first, exactly the eligible routes no older served route beats; one true line for each problem route and no other |
| RouteAudit.AuditIsGreedy | cmd/route-audit/main.go:104-145 | the audit's list is the recursive greedy placement of the cluster as the audit reads it |
| Outcomes.AuditOrderIs | cmd/route-audit/main.go:109-123 | the audit orders by creation time and then name, with manifests that have no creation time after all others |
| Outcomes.AuditServes | cmd/route-audit/main.go:104-176 | a route is in the audit's list iff it could be served alone and none in the list that comes before it meets it and cannot stand with it; an unapplied manifest never displaces an applied route |
| Outcomes.AuditServesFirst | cmd/route-audit/main.go:104-176 | of two routes that meet and cannot stand together the audit serves the one that comes first and not the other |
| RouteAudit.AuditAgreesIff | cmd/route-audit/main.go:125-131 | both greedy passes choose the same routes iff every route the audit serves converts |
| RouteAudit.AuditPredictsController | cmd/route-audit/main.go:104-176 | in a drained state that serves no broken route the audit names exactly the served routes iff all it serves convert |
| RouteAudit.NoListenersDisagree | cmd/route-audit/main.go:180-185 | without listeners the controller serves nothing; the audit agrees iff no route has a valid matcher and a node |
| PendingListeners.ReconciliationStatus.MarkListenerPending | pkg/status/status.go:252-260 | the mark gets a token never used before |
| PendingListeners.ReconciliationStatus.ListenerPendingSeq | pkg/status/status.go:263-267 | the token of the mark, 0 when there is none |
| PendingListeners.ReconciliationStatus.ClearListenerPending | pkg/status/status.go:270-276 | removes the mark only if it still has the token |
| PendingListeners.ReconciliationStatus.HasPendingListeners | pkg/status/status.go:279-283 | true iff some listener is marked |
| PendingListeners.ReconciliationStatus.AllReconciled | pkg/status/status.go:230-244 | never true while a listener is pending |
| PendingListeners.ClearKeepsLaterMark | pkg/status/status.go:269-276 | once a mark is placed after a token was taken, clearing with the token does nothing, token 0 included, whatever marks and clears come before, between and after |
| PendingListeners.StepKeepsKnown | controllers/lds/listener_controller.go:156-163 | every step of every interleaving of RDS and LDS keeps the hand-off invariant |
| PendingListeners.NoChangeLost | controllers/rds/route_controller.go:642-658 | a part no rebuild has looked at since a change is marked, or RDS still owes the mark |
| PendingListeners.NothingPendingMeansCurrent | controllers/lds/listener_controller.go:262-281 | with nothing owed or pending a part is built from the current store iff its routes never changed or its listener converts with those now stored |
| PendingListeners.RunKeepsHonest | controllers/lds/listener_controller.go:262-281 | over any run parts are built only from versions that convert and passed over only at versions that do not |
| PendingListeners.UnconvertedIsCleared | controllers/lds/listener_controller.go:273-278 | a run that clears the mark of a listener still built from the old store |
| ListenerBuild.ChainCache.Get | controllers/lds/listener_controller.go:851-867 | returns what building afresh would, after any sequence of gets and prunes |
| ListenerBuild.ChainCache.Prune | controllers/lds/listener_controller.go:870-878 | keeps exactly the entries of live routes |
| ListenerBuild.PlaceStatics | controllers/lds/listener_controller.go:765-775 | an error iff a static chain does not compile or duplicates an earlier one |
| ListenerBuild.ProcessRoute | controllers/lds/listener_controller.go:793-805 | a chain is taken iff it builds and duplicates nothing placed |
| ListenerBuild.PlaceRoutes | controllers/lds/listener_controller.go:777-790 | appends the accepted routes' chains in order, with or without the cache |
| ListenerBuild.ProcessRoutes | controllers/lds/listener_controller.go:764-791 | the listener's own chains and then one per accepted route that carries its match, name, settings, codec, secrets and transport; or an error; with or without the cache |
| ListenerBuild.SecretNames | controllers/lds/listener_controller.go:905-929 | every named secret once, in the order of first mention, tlssecret_ref before tlssecret_refs, without blanks |
| ListenerBuild.RouteChainCarries | controllers/lds/listener_controller.go:719-762 | a route's chain has its match, name and connection manager settings, HTTP/3 iff QUIC and an automatic codec (or HTTP/3 set), and with secrets QUIC transport iff the listener is QUIC, else TLS with the match's application protocols |
| ListenerBuild.ChainsCarry | controllers/lds/listener_controller.go:764-849 | the chains of a built listener are its own, then one that carries each accepted route, in order |
| ListenerBuild.AcceptedSeparate | controllers/lds/listener_controller.go:764-791 | accepting routes one by one never lets in a duplicate |
| ListenerBuild.BuiltChainsDisjoint | controllers/lds/listener_controller.go:764-791 | no leaf of Envoy's trie holds two chains of a built listener |
| ListenerBuild.BuiltChainMatchers | controllers/lds/listener_controller.go:815-837 | the chains of a built listener carry exactly the matchers that were compared |
| ListenerBuild.LeftOutIff | controllers/lds/listener_controller.go:793-805 | a route is left out iff its chain does not build or collides with one accepted earlier |
| ListenerBuild.AcceptedPrefix | controllers/lds/listener_controller.go:777-790 | a later route never removes or reorders what was accepted |
| ListenerBuild.AllAccepted | controllers/lds/listener_controller.go:777-790 | routes that build and do not duplicate each other or a static chain are all accepted |
| ListenerController.ListenerReconciler.constructor | controllers/lds/listener_controller.go:124-135 | a new reconciler stores nothing |
| ListenerController.ListenerReconciler.RemoveListenerFromNodes | controllers/lds/listener_controller.go:360-380 | the downward in-place deletion removes the name from exactly the given nodes and keeps every other listener in order |
| ListenerController.ListenerReconciler.UpdateListenerConfig | controllers/lds/listener_controller.go:459-487 | the node holds exactly this listener of the name; all others are untouched |
| ListenerController.ListenerReconciler.PreviousNodes | controllers/lds/listener_controller.go:209-220 | exactly the nodes that store the listener |
| ListenerController.ListenerReconciler.HasRoutesFor | controllers/lds/listener_controller.go:428-445 | true iff a route on one of the nodes attaches to the listener |
| ListenerController.ListenerReconciler.ListenerRecast | controllers/lds/listener_controller.go:675-701 | the rebuilt listener, each of whose chains after its own carries one accepted route, or an error exactly when it does not convert, would be empty, or its own chains clash |
| ListenerController.ListenerReconciler.RebuildOn | controllers/lds/listener_controller.go:263-281 | one node is removed from, replaced or left, as decided; all others are untouched |
| ListenerController.ListenerReconciler.RebuildNodes | controllers/lds/listener_controller.go:262-287 | every node of the listener ends as decided, repeated nodes included |
| ListenerController.ListenerReconciler.Reconcile | controllers/lds/listener_controller.go:146-300 | every node ends as decided, other listeners stay, and only the mark found at the start is cleared |
| ListenerController.LeaveIff | controllers/lds/listener_controller.go:263-278 | a node is left as it is iff there is something to build from and the spec does not convert, its own chains clash, or there is no chain at all |
| ListenerController.CurrentIff | controllers/lds/listener_controller.go:262-281 | with every listener settled, a node's listeners are those rebuilt from the store iff no listener left as it was had a copy there |
| ListenerController.RebuildAll | controllers/lds/listener_controller.go:146-300 | reconciling every listener once, in any order, against one store settles all of them, with that iff on every node |
| ListenerController.DrainedRebuiltConsistent | pkg/xds/xds.go:86-162 | drained queue, then every listener reconciled: a node's routes are those its listeners ask for, unless a listener with an empty chain list lost its last route with a copy there |
| ListenerController.EmptyListLeavesStale | controllers/lds/listener_controller.go:690-693 | an empty, non-nil chain list keeps the old copy when the last route leaves; a nil one removes it |
| Snapshots.RouteReferences | pkg/xds/xds.go:86-125 | exactly the route names some chain or default chain of the listeners asks for |
| Snapshots.PruneUnreferencedRoutes | pkg/xds/xds.go:129-138 | filtering over the slice's own memory keeps exactly the referenced routes in order |
| Snapshots.Consistent | pkg/xds/xds.go:150-161 | comparing lengths and then one inclusion decides equality of the two name sets |
| Snapshots.GetRoutesForNode | controllers/lds/listener_controller.go:399-425 | the routes attached to the listener on the node, by age |
| Snapshots.RoutesForMembers | controllers/lds/listener_controller.go:399-425 | they are sorted oldest first and are a permutation of the attached ones |
| Snapshots.EveryRouteAccepted | controllers/lds/listener_controller.go:764-805 | on a node RDS keeps safe a rebuilt listener takes every attached route |
| Snapshots.RebuiltCarries | controllers/lds/listener_controller.go:675-701 | wherever a listener can be rebuilt its chains are its own and one that carries each accepted route; these are attached there, and none has two chains |
| Snapshots.OneChainEach | controllers/lds/listener_controller.go:764-849 | on a good node every attached route has exactly one chain, which carries it on the listener's kind of transport, and every added chain carries one of them |
| Snapshots.RebuiltReferences | controllers/lds/listener_controller.go:719-762 | a rebuilt listener asks for exactly the routes attached to it |
| Snapshots.ReferencedIffStored | pkg/xds/xds.go:86-125 | a node's listeners ask for a route iff the node stores it |
| Snapshots.GoodNodeConsistent | pkg/xds/xds.go:129-162 | pruning drops nothing and the route half of the check succeeds |
| Snapshots.DrainedNodeIsGood | controllers/rds/route_controller.go:521-547 | a drained RDS queue leaves every node as the listener build needs it |
| Snapshots.DrainedSnapshotConsistent | pkg/xds/xds.go:45-82 | drained queue and current listeners give snapshots whose routes are exactly those asked for |
| Publisher.Server.IsSnapToUpdate | pkg/serv/serv.go:177-184 | true iff the version is not the one recorded for the node, and then recorded |
| Publisher.SnapshotConsistent | pkg/xds/xds.go:141-162 | running the check for endpoints and then for routes succeeds iff present and referenced names are equal for both |
| Publisher.Server.PublishNode | pkg/serv/serv.go:208-252 | one turn of the loop, with the check run on the snapshot, is one step of the pass |
| Publisher.Server.ProcessSnapshot | pkg/serv/serv.go:187-265 | cached snapshots have equal present and referenced names, of endpoints and of routes; a node where either differs, unreached or at its recorded version keeps cache and version; a new version is cached, or only recorded when refused; success iff for every node both are equal and none is refused |
| Publisher.RunKeepsAccurate | pkg/serv/serv.go:124-162 | every interleaving of writers and ticks keeps the counter ahead of what it counts |
| Publisher.CachedIsConsistent | pkg/serv/serv.go:208-247 | at every point of every run each cached snapshot has exactly the endpoints and exactly the routes it refers to |
| Publisher.InconsistentKept | pkg/serv/serv.go:208-222 | a pass over a node whose endpoint or route names differ from those referred to leaves the node as it was and does not succeed |
| Publisher.PublishSucceeds | pkg/serv/serv.go:187-265 | a pass succeeds iff every snapshot it reaches is consistent and none is refused, and stops only at a refusal |
| Publisher.QuietMeansPublished | pkg/serv/serv.go:124-162 | after a success with the counter unchanged, every snapshot of the config the last writer left has the endpoints and routes it refers to, and its version is in the cache iff its node has no outstanding refusal |
| Publisher.NoUpdateLost | pkg/serv/serv.go:124-265 | then every node of the current snapshots has its version cached iff none has an outstanding refusal |
| Publisher.RefusedStaysLost | pkg/serv/serv.go:177-184 | a run with one refused SetSnapshot that ends quiet, successful and without the node's snapshot |
| Publisher.FailedPassIsRetried | pkg/serv/serv.go:153-160 | after a pass that was not generated, was inconsistent or was refused the next tick processes again |
| Publisher.StartIsNotPublished | pkg/serv/serv.go:124-125 | ticks alone leave the loop as it started, with nothing published |
| Varint.UvarintPrefixFree | pkg/xds/hash.go:248-251 | no varint is a prefix of another: value and rest are determined |
| Varint.VarintPrefixFree | pkg/xds/hash.go:243-246 | the same for signed varints |
| Varint.FramedPrefixFree | pkg/xds/hash.go:238-241 | the same for length-prefixed byte strings |
| Varint.UvarintReads | pkg/xds/hash.go:248-251 | reading back what was written gives the number and the rest |
| Varint.VarintReads | pkg/xds/hash.go:243-246 | the same for signed varints |
| ConfigHash.AnyBytesMeet | pkg/xds/hash.go:186-202 | when a decodable and an undecodable packed value give the same bytes |
| ConfigHash.DifferentAnysMeet | pkg/xds/hash.go:186-202 | two different packed values with one digest, for any digest that starts with 31 |
| ConfigHash.MessageDetermined | pkg/xds/hash.go:147-228 | equal digests mean equal messages up to map order and packed values that meet, at every depth |
| ConfigHash.SameMessageDigest | pkg/xds/hash.go:147-236 | map order does not show in the digest, at every depth, also inside packed values |
| ConfigHash.DigestIffSame | pkg/xds/hash.go:131-228 | digests are equal iff messages are equal up to map order and packed values that meet; repeated fields keep their order |
| ConfigHash.ResourcesParse | pkg/xds/hash.go:95-117 | the bytes hashed determine the type URLs and the multiset of digests under each, and conversely |
| ConfigHash.ResourcesIffSame | pkg/xds/hash.go:95-117 | the bytes hashed are equal iff the resource maps are, up to resource order within a type, map order and packed values that meet |
| VersionHasher.Hasher.TakeWriter | pkg/xds/hash.go:119-127 | hands out a reset writer that nobody else holds |
| VersionHasher.Hasher.PutBack | pkg/xds/hash.go:129-129 | the writer is free and no longer in use |
| VersionHasher.Hasher.EndPass | pkg/xds/hash.go:65-67 | exactly the messages reached in the pass survive it |
| VersionHasher.Hasher.Get | pkg/xds/hash.go:69-85 | the memo returns the plain digest, though the computation uses the memo itself |
| VersionHasher.Hasher.HashMessage | pkg/xds/hash.go:131-145 | the plain digest, for any state of memo, pool and unpacking counter |
| VersionHasher.Hasher.HashFields | pkg/xds/hash.go:147-183 | the plain digest of the fields; nested calls never touch this call's writer |
| VersionHasher.Hasher.HashAny | pkg/xds/hash.go:186-202 | the plain digest; while decoding, the memo is left alone and the counter is restored |
| VersionHasher.Hasher.HashValue | pkg/xds/hash.go:204-228 | the plain bytes of a value |
| VersionHasher.Hasher.WriteEntries | pkg/xds/hash.go:164-173 | whatever order a map yields its entries in, the same bytes are written |
| VersionHasher.Hasher.WriteSorted | pkg/xds/hash.go:230-236 | the count, then the elements in byte order, each length-prefixed |
| VersionHasher.Hasher.HashResources | pkg/xds/hash.go:95-117 | the version is the digest of the plain bytes of the resources, for any passes before |
| VersionHasher.Hasher.HashPass | pkg/xds/xds.go:58-79 | a pass over all nodes gives the plain versions although free addresses hold new messages, and leaves exactly what it reached |
| CertificateBackoff.DelayGrowsWithinBounds | controllers/sds/annotations.go:87-123 | delays lie between base and cap and never shrink as failures add up, for any policy |
| CertificateBackoff.NormalizeIs | controllers/sds/annotations.go:87-103 | a sensible policy is used as it is; nonsense becomes ten minutes, a week and doubling, and a cap below the base delay the base delay |
| CertificateBackoff.DelayScales | controllers/sds/annotations.go:108-123 | the first retry waits the base delay and each further failure multiplies the wait, up to the cap and to rounding down to a nanosecond |
| CertificateBackoff.DelayMultiplies | controllers/sds/annotations.go:108-123 | with a whole multiplier the next delay is exactly the multiple of this one, or the cap |
| CertificateBackoff.DefaultSchedule | controllers/sds/annotations.go:59-66 | without settings ten minutes, doubled with every failure, up to a week |
| CertificateBackoff.FlagSetIff | controllers/sds/annotations.go:187-203 | an annotation is off iff absent or one of the six spellings of false |
| CertificateBackoff.RequestsDiffer | controllers/sds/annotations.go:171-185 | a request is recorded iff the annotation is on, and different values are different requests, but for an empty one and "true" |
| CertificateBackoff.TLSSecret.UpdateStatus | controllers/sds/tlssecret_controller.go:890-925 | the status written: kept certificate, kept backoff, or skipped when only the backoff instant differs |
| CertificateBackoff.TLSSecret.Reconcile | controllers/sds/tlssecret_controller.go:142-284 | whether a certificate is asked for, when the retry comes, and the status and annotation left behind |
| CertificateBackoff.BackoffKept | controllers/sds/tlssecret_controller.go:172-180 | no reconcile before the recorded instant asks, and none loses the backoff, through pauses and restarts |
| CertificateBackoff.CountIsStreak | controllers/sds/tlssecret_controller.go:214-243 | over any run the failure count is the number of failures since the last certificate |
| CertificateBackoff.BackoffAfterKthFailure | controllers/sds/tlssecret_controller.go:172-249 | after the k-th failure in a row nothing is asked for during DelayFor(k), less the part of a second that storing the instant cuts off, unless a new force-renew value comes |
| CertificateBackoff.AnnotationClearedIff | controllers/sds/tlssecret_controller.go:257-284 | when exactly an issuing reconcile removes the force-renew annotation |
| CertificateBackoff.RemovedMeansRenewedOrFailed | controllers/sds/tlssecret_controller.go:214-284 | over any run, a force-renew annotation the controller removed had a different certificate issued for it, or an attempt failed meanwhile |
| CertificateBackoff.ClearedWithoutNewCertificate | controllers/sds/tlssecret_controller.go:242-262 | a failed attempt lets the next success remove it although the certificate is the old one |
| Clusters.RangeDeletePanicsIff | controllers/cds/cluster_controller.go:163-174 | the loop that deletes from the slice it ranges over goes out of range iff the last element matches and an earlier one too |
| Clusters.AdjacentCopySurvives | controllers/cds/cluster_controller.go:163-174 | without unique names the loop leaves a copy behind |
| Clusters.UniqueNamesDelete | controllers/cds/cluster_controller.go:163-174 | with unique names the loop is safe and removes the name |
| Clusters.NextOnce | controllers/cds/cluster_controller.go:163-269 | every reconcile keeps every name stored at most once across all node keys |
| Clusters.NextLists | controllers/cds/cluster_controller.go:226-269 | a reconcile decides its own name and moves no other cluster |
| Clusters.RunKeepsLastVerdicts | controllers/cds/cluster_controller.go:107-269 | after any run a cluster is stored iff the last verdict on it was to serve it, and then under that node key only |
| EndpointRefs.LoadAssignment.Add | controllers/cds/cluster_controller.go:306-338 | one Endpoint is merged into the object in place and its endpoints are counted |
| EndpointRefs.MergeEndpointRefs | controllers/cds/cluster_controller.go:273-346 | fails iff a lookup does; otherwise the cluster's own object, edited in place, or a new one holds the merge; nothing is handed back when it is empty |
| EndpointRefs.MergedHolds | controllers/cds/cluster_controller.go:273-346 | a merge holds the own localities and then those of each Endpoint found, in order, for every endpoint name what the last Endpoint naming it says, and the last policy |
| EndpointRefs.CountZero | controllers/cds/cluster_controller.go:312-319 | the count is zero iff no locality of an Endpoint found holds an endpoint |
| Clusters.VerdictIs | controllers/cds/cluster_controller.go:150-224 | nothing changes iff something could not be read or converted; a cluster is dropped iff gone, or it refers to Endpoints without any endpoint and has no localities itself; else it is served with everything merged |
| Clusters.ServesOne | controllers/cds/cluster_controller.go:176-224 | node key, name, configuration and merged assignment determine the cluster served |
| Clusters.ServedAfterRun | controllers/cds/cluster_controller.go:107-269 | after any run a cluster is stored iff it serves what the last request on its name that decided anything read: own and merged localities, named endpoints and policy |
| Clusters.ClusterReconciler.MergeInto | controllers/cds/cluster_controller.go:198-216 | the merged assignment replaces the cluster's only if it has localities, though the cluster's own is edited in any case |
| Clusters.ClusterReconciler.DeleteWhileRanging | controllers/cds/cluster_controller.go:163-174 | the array-level loop leaves what the range semantics says, stale tail included |
| Clusters.ClusterReconciler.ShiftDown | controllers/cds/cluster_controller.go:167-167 | append over the same array shifts the rest down and leaves the old last element behind |
| Clusters.ClusterReconciler.DeleteCluster | controllers/cds/cluster_controller.go:163-174 | a deleted cluster is on no node key |
| Clusters.ClusterReconciler.RemoveFromAllNodes | controllers/cds/cluster_controller.go:368-386 | the downward loop removes every copy from any store |
| Clusters.ClusterReconciler.Store | controllers/cds/cluster_controller.go:226-269 | moved, updated where it stands, or added, with one copy in the end |
| Clusters.ClusterReconciler.Reconcile | controllers/cds/cluster_controller.go:107-269 | the store becomes what the verdict says, errors change nothing, and every change moves the counter |

## Left out

- RouteController.RouteReconciler.Reconcile: the Listener objects are one value for the whole call; a read of one that fails during the static chain check, which the source takes as no conflict, is not modelled.
- RouteController.RouteReconciler.NotifyListeners: a context cancelled while a listener is being sent to LDS leaves the rest unmarked; that is the shutdown of the process and is not modelled.
- RouteController.RouteReconciler.FindConflicts: the branch for a stored route without a compiled matcher does not arise, because every stored entry is proved to carry one.
- CertificateBackoff.BackoffAfterKthFailure: status writes are taken to land; a write that fails loses the backoff it was to record.
- CertificateBackoff.DelayGrowsWithinBounds: the multiplier is a real number, so NaN, infinities and float rounding are not modelled.
- VersionHasher.Hasher.HashResources: the hex form of the version is not modelled.
- ListenerController.ListenerReconciler.Reconcile: the route store does not change during the call; interleavings with RDS are the subject of `PendingListeners`. It builds chains without the cache; `ListenerBuild.ProcessRoutes` covers both.
- Publisher.NoUpdateLost: CDS bumps the counter without the config lock, so its writes are not steps of this loop; a data race there is not modelled.
- Clusters.ClusterReconciler.Reconcile: CDS does not take the config lock, so a read of the store during a reconcile is not modelled.
- ListenerBuild.RouteChainCarries: secret names are given without the spaces around them, which the source trims; whether a listener is QUIC is a field of the Listener object.
- `isListenerExists` falls back to default annotations for a listener it did not find (controllers/rds/route_controller.go:715-728); a missing listener hosts no node here.
- Integer widths: tokens, counters, generations and failure counts are unbounded; the source's uint64 and int32 do not wrap in the modelled runs.
- `targetNodes` and `addResource`: spreading cluster, endpoint and secret keys over comma-separated nodes would add only easy members.
- The memo of decoded route names in `routeReferences` is the same two-generation memo as in `VersionHasher`.
- The EDS store: it stores by `cluster_name` and deletes by resource name, so it has no invariant of this kind.
- The `*Reconciled` flags set by delayed goroutines, leader election, gRPC, metrics, logging and status conditions.
- Vault, ACME, x509, storage, base64, JSON and proto libraries: they appear as fields that say how they went.
