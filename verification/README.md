# Node readiness controller: a verified model

The controller keeps taints on Kubernetes nodes in step with readiness rules. A `NodeReadinessRule`
names node conditions with required statuses, one taint, and a label selector; a node the selector
accepts carries the taint while some condition is unmet. Two reconcilers do the work: one runs over all
nodes when a rule changes, one over all cached rules when a node changes. A webhook admits rules, and an
event filter decides which node updates are looked at.

The model has two layers. `Cluster` gives each reconcile as a function on a `World`: stored nodes in
their listing order, stored rules, the controller's rule cache and its off-switch. Every API call of a
reconcile may be rejected, as given by an arbitrary predicate over the calls. `Controller` holds the API
server and the controller as objects updated in place, with cache entries shared by reference as in the
source, and ties every method to its function in `Cluster`. The theorems are about those functions and
about runs of them, interleaved with arbitrary changes by kubelets and users.

| file | contents |
|---|---|
| `Seqs.dfy`, `Api.dfy` | list facts; nodes, rules and statuses as values |
| `Selectors.dfy` | what selectors match, and whether a selector change is noticed |
| `Evaluation.dfy` | conditions, taints, and the action a rule decides on |
| `EventFilter.dfy` | the update filter and its three comparisons |
| `StatusLists.dfy` | evaluations, failures, merging, the status schema, pruning, finalizers, dry-run counters |
| `Cluster.dfy`, `Controller.dfy` | the reconcilers, as functions and as programs |
| `NodePass.dfy`, `NodeStatus.dfy` | one node reconcile: order independence, settling, stored statuses and failures |
| `RulePass.dfy` | one rule reconcile without failures: cleanup, full effect, status, dry run, off-switch |
| `RuleOutcome.dfy` | one rule reconcile whatever fails: what it stores, caches, reports and forgets |
| `Runs.dfy`, `Orphans.dfy` | runs of steps; no orphaned taints |
| `PairChanges.dfy` | why a taint comes and goes on a node |
| `Latch.dfy` | where completion annotations come from, and the bootstrap latch |
| `Retry.dfy` | the get-modify-update loops among concurrent writers, on a versioned store |
| `Admission.dfy` | the webhook, and conflict freedom over runs |
| `Scenarios.dfy` | concrete runs that break a documented promise |

A reconcile is one step of a run. Inside a reconcile a retry loop is one call that is accepted or
rejected; `Retry` looks inside the loops, and `QuietMark` and `QuietMerge` show the two views agree when
nobody else writes. A status write is refused when an entry lacks its node or taint status or a node has
two entries; starting from accepted statuses, only the merge for a node without a cached entry meets that
(`SweptAccepted`, `StatusesAccepted`, `MergeAcceptedExact`). `metav1` selectors are modelled by their
meaning; a selector that does not parse applies to no node.

## Where the code departs from its documentation

- A missing condition reads as Unknown and therefore satisfies a requirement of Unknown (CONTEXT.md:225
  calls missing conditions unsatisfied): `MissingCondition`. A condition reported as Unknown is recorded as
  missing (api/v1alpha1/nodereadinessrule_types.go:242): `MissingExact`, at an input `ReportedUnknownMissing`.
- The selector comparison reads absent labels as empty strings and ignores repeated expressions. Moving a
  rule from the worker to the control-plane role label is not noticed and strands its taint:
  `UnchangedExact`, `MissedChangeExact`, as a run `RoleLabelMoveOrphans`.
- Deleting a rule cleans up by its stored selector, not the one last enforced (`EarlyDeleteExact`), a
  restarted controller no longer knows the old selector (`RestartExact`), and editing a rule's taint leaves
  the old one behind (`PairEditExact`). As runs: `EditThenDelete`, `EditThenRestart`, `PairEditOrphans`.
- Cleanup after a selector change removes the rule's new taint from the nodes of its old selector
  (internal/controller/nodereadinessrule_controller.go:628-635), so it can strip the taint of another rule
  from a node that is not ready: `TurnsExact`, `OtherTaintsKeptExact`, as a run `EditStripsOther`.
- The bootstrap latch is not consulted when the rule itself is reconciled, so later condition changes are
  not ignored then (CONTEXT.md:213), and a taint that comes back this way is kept by every later node
  reconcile: `RuleReconcileIgnoresLatch`, `LatchFreezesPair`, as runs `MarkedNodeTainted`, `RetaintedStays`.
- The global dry-run switch stops node reconciles only (CONTEXT.md:315): `SwitchStopsNodesOnly`, as a run
  `SwitchedOffTaints`.
- The webhook rejects an equal key and effect only for selectors that print alike or do not parse
  (CONTEXT.md:308), looks at stored rules while the reconcilers act on cached ones, and admits everything
  well-formed when its listing fails: `CachingExact`, `FailedListingAdmits`, as runs
  `DifferentTextsAdmitted`, `HandoverConflicts`.
- `appliedNodes` lists every matching node, also one whose patch failed
  (api/v1alpha1/nodereadinessrule_types.go:115): `AppliedExact`, as a run `FailedNodeApplied`.
- When a patch is rejected for a node and the cached rule has no entry for it, the status merge composes a
  blank entry, which the resource schema refuses (api/v1alpha1/nodereadinessrule_types.go:186-212): the old
  entry stays and this failure is not recorded (CONTEXT.md:313): `FailedEvaluationStored`, as a run
  `FailureNotStored`.

## Model

| member | source | states |
|---|---|---|
| Orphans.NoOrphanedTaints | internal/controller/nodereadinessrule_controller.go:96-146 | along every run with any failures, each node carrying a pair is claimed by a cached rule; hypotheses per step in `Careful` |
| Orphans.MissedChangeExact | internal/controller/nodereadinessrule_controller.go:135-146 | a selector edit leaves no orphan exactly when it is noticed or the updated cache still claims every carrier |
| Orphans.PairEditExact | internal/controller/nodereadinessrule_controller.go:597-647 | after moving a rule to another pair no orphan is left exactly when other cached rules claim every carrier of the old pair |
| Orphans.EarlyDeleteExact | internal/controller/nodereadinessrule_controller.go:96-117 | an accepted deletion leaves no orphan exactly when the stored selector, or another cached rule, claims every carrier |
| Orphans.RestartExact | internal/controller/nodereadinessrule_controller.go:60-67 | after losing the cache and reconciling every stored rule, in any order, no orphan is left exactly when each carrier is claimed by a stored rule that is live or still has the finalizer |
| Admission.ConflictFreedom | internal/webhook/nodereadinessgaterule_webhook.go:115-166 | over every run of admitted creates and edits that stay apart from what the cache holds of other rules, with an overlap heuristic exact for rules sharing a pair, the cached rules of a node own their pairs, and node passes do not depend on rule order |
| Admission.MirroredConsiderate | internal/webhook/nodereadinessgaterule_webhook.go:115-166 | with every edit of a pair or selector reconciled, each admitted write stays apart from the cached rules |
| Admission.AdmissionInvariant | internal/webhook/nodereadinessgaterule_webhook.go:115-166 | over every run of admitted writes no two stored rules share a pair and a canonical selector, and every stored spec is valid |
| Admission.CachingExact | internal/controller/nodereadinessrule_controller.go:383-423 | caching a rule keeps a node's rules apart exactly when it does not apply there or no other cached applicable rule has its pair |
| Admission.UnchangedSpecAdmitted | internal/webhook/nodereadinessgaterule_webhook.go:128-132 | an update that keeps the spec, as the controller's finalizer writes do, is always admitted |
| Admission.FailedListingAdmits | internal/webhook/nodereadinessgaterule_webhook.go:120-124 | a failed listing admits every valid spec, and the admission invariant survives exactly when no other stored rule clashes with it |
| Admission.AdmitsMeaning | internal/webhook/nodereadinessgaterule_webhook.go:126-147 | a valid spec is admitted exactly when every other listed rule has another key, another effect, or a selector that parses and prints differently |
| Admission.TwoEffectsAdmitted | internal/webhook/nodereadinessgaterule_webhook.go:134-137 | a rule with the key of another and a different effect is admitted even on the same selector |
| Admission.ClashSymmetric | internal/webhook/nodereadinessgaterule_webhook.go:153-166 | the overlap test does not depend on the order of its arguments |
| Admission.ValidateConditions | internal/webhook/nodereadinessgaterule_webhook.go:66-79 | one error for each empty type and each empty status, by index, and one for an empty list |
| Admission.ValidateSpec | internal/webhook/nodereadinessgaterule_webhook.go:62-112 | no error exactly for a valid spec; each error exactly for its reason |
| Admission.ValidateTaintConflicts | internal/webhook/nodereadinessgaterule_webhook.go:115-150 | an error for exactly the listed rules that clash, skipping only the rule itself on update; none when listing fails |
| Admission.ValidateCreate | internal/webhook/nodereadinessgaterule_webhook.go:179-189 | admits exactly valid specs without clash |
| Admission.ValidateUpdate | internal/webhook/nodereadinessgaterule_webhook.go:191-201 | the same, with the rule's own stored version skipped |
| NodePass.NodeEffect | internal/controller/node_controller.go:65-103 | the effect of a failure-free node pass, rule by rule: exactly when a rule is enforced, which taints of its pair the node ends with, value included, and when it is marked |
| NodePass.NodeLeavesAlone | internal/controller/node_controller.go:65-103 | a pair no applicable rule manages keeps its taints, in order |
| NodePass.EvaluationExact | internal/controller/nodereadinessrule_controller.go:276-351 | one evaluation in full, whichever calls fail: the local copy takes the decided taints even if their patch is rejected, and an accepted patch stores the whole list of the copy |
| NodePass.NodePassOrderIndependent | internal/controller/node_controller.go:65-103 | for rules owning their pairs, every order of the rule map ends with the same multiset of taints and the same annotations |
| NodePass.LastRuleDecides | internal/controller/node_controller.go:72-103 | among applicable rules of one pair, the last continuous one in the order of the rule map decides whether the node ends with the taint |
| NodePass.SharedPairOrderMatters | internal/controller/node_controller.go:72-103 | swapping two disagreeing rules of one pair in any order of the rule map reverses whether the node ends a reconcile with the taint |
| NodePass.VisitSettles | internal/controller/nodereadinessrule_controller.go:305-337 | a visit settles its rule and leaves every other rule as pending as it was |
| NodePass.PassSettles | internal/controller/node_controller.go:72-103 | a failure-free pass makes exactly as many patches as rules were pending, and leaves none pending |
| NodePass.LoopSettles | internal/controller/node_controller.go:306-326 | however often the node's own updates wake it, the passes together make one patch per initially pending rule |
| NodePass.CountOwned | internal/controller/node_controller.go:194-216 | a taint ends a pass with the multiplicity a visit of its owner alone would give it |
| PairChanges.PairChangeSound | internal/controller/nodereadinessrule_controller.go:305-337 | over every run, a node gains a pair only by a step that found a rule of it unready there, and loses it only by one that found such a rule ready, visibly gone from the node, or being deleted |
| PairChanges.NextKeepsPair | internal/controller/node_controller.go:65-103 | the same of one step, with any failures |
| PairChanges.TurnsExact | internal/controller/nodereadinessrule_controller.go:80-182 | a failure-free rule reconcile changes a pair on a node exactly when the stored rule has it and a reason to |
| PairChanges.OtherTaintsKeptExact | internal/controller/nodereadinessrule_controller.go:597-647 | a failure-free rule reconcile leaves the taints another cached rule holds alone exactly when the stored rule has another pair or takes it off none of those nodes |
| Latch.LatchHolds | internal/controller/node_controller.go:79-84 | over every run in which nobody else takes the mark off the node or the mode from the rule, no node reconcile whose latch read is accepted evaluates the rule there, whatever restarts, other rules and reconciles of the rule itself do |
| Latch.LatchReadDecides | internal/controller/node_controller.go:219-229 | a pass over a marked node evaluates the rule exactly when its latch read is rejected and neither dry run is on |
| Latch.LatchFreezesPair | internal/controller/node_controller.go:79-84 | over every run on a marked node without another rule of the pair, only a rule reconcile with a reason to changes whether the node carries it: node reconciles neither put it back nor take it off |
| Latch.AnnotationSound | internal/controller/nodereadinessrule_controller.go:305-325 | over every run, a completion annotation has an earlier step that found the bootstrap-only rule ready on that node and had its removal and its mark accepted |
| Latch.NextAnnotates | internal/controller/node_controller.go:231-265 | no controller step removes or overwrites an annotation, and a node is marked after it exactly if it was before or the step completed the rule there |
| Latch.CompletedMeaning | internal/controller/nodereadinessrule_controller.go:279-325 | a completing step had the rule bootstrap-only, not in dry run, with all conditions met on the node |
| Latch.RuleReconcileIgnoresLatch | internal/controller/nodereadinessrule_controller.go:250-261 | reconciling the rule itself taints a marked node again exactly when it is unready |
| NodeStatus.NodePassStatus | internal/controller/node_controller.go:98-157 | after a failure-free node pass, each active rule's stored entry for the node says what holds now, nothing else of the stored rule has changed but that node's failures, and the cached rule has the new entry |
| NodeStatus.FailedEvaluationStored | internal/controller/node_controller.go:98-157 | when a pass has a rule's patch rejected, whatever else fails, the failure is recorded in the cached rule, and stored exactly when that rule has an entry for the node |
| NodeStatus.StatusesAccepted | config/crd/bases/readiness.node.x-k8s.io_nodereadinessrules.yaml:244-378 | over every run on named nodes the cached statuses fit the schema, as the stored ones do because other writes are refused |
| RulePass.SweptAccepted | internal/controller/nodereadinessrule_controller.go:250-265 | from a status that fits the schema, the node loop composes one that fits |
| RulePass.FullEffect | internal/controller/nodereadinessrule_controller.go:80-182 | the whole effect of a failure-free live reconcile on one node: the taint list, with the rule's own taint appended where it is new and gone where the node is ready or visibly left, the completion mark, and nothing else |
| RulePass.StatusMatchesCluster | internal/controller/nodereadinessrule_controller.go:240-265 | the stored status agrees with the cluster: applied nodes in listing order, one evaluation each, Present exactly on nodes carrying the taint |
| RulePass.SweptStatus | internal/controller/nodereadinessrule_controller.go:250-265 | under any failures evaluations stay unique, evaluated nodes have exactly their new entry, all others keep theirs |
| RulePass.AppliedExact | internal/controller/nodereadinessrule_controller.go:248-265 | all applied nodes were managed successfully exactly when no patch that a matching node needs was rejected |
| RulePass.AppliedStored | internal/controller/nodereadinessrule_controller.go:250-265 | whichever patches fail, the stored applied nodes are the matching ones in listing order |
| RulePass.RecordedEvaluation | internal/controller/nodereadinessrule_controller.go:276-351 | an evaluation records one result per condition and the resulting taint status, a failed one records only the failure |
| RulePass.DryRunPredicts | internal/controller/nodereadinessrule_controller.go:483-553 | the four dry-run counters equal what failure-free enforcement does to the same nodes |
| RulePass.FinalizerProtocol | internal/controller/nodereadinessrule_controller.go:97-117 | finalizer and cache entry go exactly when every needed call is accepted, and then no node the rule applies to carries its taint; otherwise both stay; a rule with other finalizers stays stored, with those in order and otherwise as it was |
| RulePass.CleanupExact | internal/controller/nodereadinessrule_controller.go:561-647 | cleanup tries every tainted target, succeeds exactly when all removals do, leaves the taint on exactly the failed ones and touches nothing else |
| RulePass.PublishedNodesExist | internal/controller/nodereadinessrule_controller.go:169-179 | after a successful reconcile every stored evaluation names an existing node |
| RulePass.SwitchStopsNodePass | internal/controller/node_controller.go:86-91 | with the global switch on, a node pass changes nothing |
| RulePass.SwitchStopsNodesOnly | internal/controller/nodereadinessrule_controller.go:152-167 | with the switch on a node reconcile changes nothing, while a rule reconcile still patches exactly the matching nodes whose taint does not fit and leaves it fitting |
| RuleOutcome.LiveOutcome | internal/controller/nodereadinessrule_controller.go:80-182 | whatever fails: the finalizer stored, the rule cached, the status written exactly when all calls before are accepted and then which one, and success exactly if pruning is accepted too |
| RuleOutcome.NodeOutcome | internal/controller/nodereadinessrule_controller.go:119-182 | whatever fails: what a live reconcile leaves of one node, its own patch and mark deciding |
| RuleOutcome.FailuresStored | internal/controller/nodereadinessrule_controller.go:250-265 | whichever patches fail, the stored failures are one for each matching node whose needed patch was rejected, and the old ones of all other nodes |
| RuleOutcome.SweptFailures | internal/controller/nodereadinessrule_controller.go:250-265 | the same of the node loop |
| RuleOutcome.LiveSucceeds | internal/controller/nodereadinessrule_controller.go:135-146 | without failures a live reconcile succeeds unless the noticed old selector does not parse |
| RuleOutcome.DeletingOutcome | internal/controller/nodereadinessrule_controller.go:96-117 | a reconcile of a deleted rule succeeds exactly if every needed call is accepted, and does nothing without the finalizer |
| RuleOutcome.GoneForgotten | internal/controller/nodereadinessrule_controller.go:84-94 | a rule no longer stored leaves the cache, and nothing else changes |
| RuleOutcome.DryRunStored | internal/controller/nodereadinessrule_controller.go:483-553 | a failure-free dry-run reconcile stores in its four counters what the same reconcile with enforcement does beyond it, and keeps the rest of the status |
| Retry.NoLostUpdate | internal/controller/node_controller.go:237-258 | for any interleaving and number of attempts, the loop ends in what the others wrote around its calls, plus, if accepted, one write computed from the value stored just before it |
| Retry.InterferenceComplete | internal/controller/node_controller.go:237-258 | those writes of others are all they wrote up to where the loop ends, in order |
| Retry.RetrySucceeds | internal/controller/node_controller.go:237-258 | conflicts are retried: the loop is accepted once an attempt is undisturbed, if no call fails and nobody removes the object |
| Retry.ExhaustedMeans | internal/controller/node_controller.go:237-258 | the attempts run out only if somebody touched the object in every one |
| Retry.VersionPinsContent | internal/controller/node_controller.go:256-257 | an object still at the version that was read has not been touched |
| Retry.MarkLosesNothing | internal/controller/node_controller.go:231-265 | an accepted mark changes only its annotation key in the node as others left it; success without a write means the key was there |
| Retry.MergeLosesNothing | internal/controller/node_controller.go:111-157 | an accepted merge is the merge into the status as others left it; nothing is written without a stored and a cached entry |
| Retry.PruneLosesNothing | internal/controller/nodereadinessrule_controller.go:216-236 | pruning drops exactly the entries whose node is not in the snapshot, keeping the rest in order, whatever others wrote |
| Retry.PublishOverwrites | internal/controller/nodereadinessrule_controller.go:456-479 | publishing replaces the whole status, whatever others have made of it in the attempts |
| Retry.QuietMark | internal/controller/node_controller.go:231-265 | undisturbed, the marking loop is one call, as the reconcilers treat it |
| Retry.QuietMerge | internal/controller/node_controller.go:111-157 | undisturbed, the merge loop is one call, as the reconcilers treat it |
| Retry.VersionedStore.Update | internal/controller/node_controller.go:256-257 | an update succeeds only at the version that was read and with an acceptable value; a conflict shows first |
| Retry.VersionedStore.RetryOnConflict | internal/controller/node_controller.go:237-258 | the loop program computes the loop function |
| EventFilter.FilterExact | internal/controller/node_controller.go:306-326 | dropping an update is harmless to every rule the webhook admits exactly when no taint was swapped for its twin and no empty-valued label was dropped |
| EventFilter.FilterSound | internal/controller/node_controller.go:306-389 | a dropped update leaves applicability, and where the rule applies the recorded results and the chosen action, unchanged |
| EventFilter.SameTaintsExact | internal/controller/node_controller.go:353-374 | taints judged equal answer every lookup alike exactly when none was swapped for its twin |
| EventFilter.RunTogetherExact | internal/controller/node_controller.go:361-366 | the comparison key confuses two taints exactly when they are twins |
| EventFilter.TwinUpdateDropped | internal/controller/node_controller.go:353-374 | two different taints that the comparison takes for equal |
| EventFilter.SameConditionsSound | internal/controller/node_controller.go:332-350 | conditions judged equal read the same for every type |
| EventFilter.WakesExact | internal/controller/node_controller.go:306-326 | where the comparisons see everything, an update wakes the reconciler exactly when some condition, taint or label differs, in whatever order they are listed |
| EventFilter.UnchangedDropped | internal/controller/node_controller.go:306-326 | an update that changes none of them is dropped |
| EventFilter.SameConditionsExact | internal/controller/node_controller.go:332-350 | with unique types, conditions compare equal exactly when they are the same in any order |
| EventFilter.HasTaintPairs | internal/controller/node_controller.go:185-192 | presence is decided by key and effect |
| EventFilter.UpdateFunc | internal/controller/node_controller.go:306-326 | reconciles exactly when one of the three comparisons fails |
| EventFilter.ConditionsEqual | internal/controller/node_controller.go:332-350 | equal length and every new condition found with its status among the last ones per type |
| EventFilter.TaintsEqual | internal/controller/node_controller.go:353-374 | equal length and every new taint found under its run-together key with its value |
| Selectors.UnchangedExact | internal/controller/nodereadinessrule_controller.go:650-681 | an unnoticed change is no change exactly when empty-valued labels are shared and as many distinct expressions are printed |
| Selectors.UnchangedSound | internal/controller/nodereadinessrule_controller.go:650-681 | then both selectors accept the same label maps |
| Selectors.DistinctExpressionsSuffice | internal/controller/nodereadinessrule_controller.go:656-681 | distinct current expressions are enough for the count to agree |
| Selectors.LabelsOnlyExact | internal/controller/nodereadinessrule_controller.go:684-696 | without expressions, the comparison is right exactly when no empty-valued label is lost |
| Selectors.EmptyLabelMoveUnnoticed | internal/controller/nodereadinessrule_controller.go:684-696 | the role label move is not noticed |
| Selectors.RepeatedExpressionUnnoticed | internal/controller/nodereadinessrule_controller.go:661-678 | a repeated expression hides a dropped one |
| Selectors.ChangedExact | internal/controller/nodereadinessrule_controller.go:650-681 | with nothing to miss and no repeated expression, exactly the real changes are reported |
| Selectors.GoMapEqualMeaning | internal/controller/nodereadinessrule_controller.go:684-696 | equally many labels, the same non-empty values, and no empty value against another |
| Selectors.OperatorsMeaning | internal/controller/nodereadinessrule_controller.go:399-409 | what the four operators of an expression mean |
| Selectors.ValidMeaning | internal/controller/nodereadinessrule_controller.go:399-409 | which operators and values parse |
| Selectors.MatchesMeaning | internal/controller/nodereadinessrule_controller.go:399-409 | a selector demands all its labels and expressions, one by one |
| Selectors.PrintedInjective | internal/controller/nodereadinessrule_controller.go:662-671 | the printed expression determines a valid expression |
| Selectors.NodeSelectorChanged | internal/controller/nodereadinessrule_controller.go:650-681 | reports a change exactly when labels, expression count or printed expressions differ |
| Selectors.StringMapEqual | internal/controller/nodereadinessrule_controller.go:684-696 | equality as Go's default lookup sees it |
| Selectors.GoMapEqualExact | internal/controller/node_controller.go:377-389 | that equality is equality exactly when no empty-valued key is missing |
| Evaluation.EnforcedMeaning | internal/controller/nodereadinessrule_controller.go:305-337 | the action leaves the pair exactly while unready, as the rule's own taint where it is new, keeps all other taints in order, and leaves nothing to do |
| Evaluation.ReadyMeaning | internal/controller/nodereadinessrule_controller.go:279-303 | ready means that the first reported status of every required type, Unknown if there is none, is the required one |
| Evaluation.ResultsMeaning | internal/controller/nodereadinessrule_controller.go:279-303 | one result per requirement in order, with the status required, the one read, and whether they agree |
| Evaluation.OthersMeaning | internal/controller/node_controller.go:208-214 | removal drops exactly the taints with that key and effect, one by one |
| Evaluation.MissingCondition | internal/controller/nodereadinessrule_controller.go:284-300 | a missing condition satisfies a requirement exactly when Unknown is required |
| Evaluation.MissingExact | internal/controller/nodereadinessrule_controller.go:284-300 | missing is recorded just when the type is not reported, exactly if its first reported condition is not Unknown |
| Evaluation.ReportedUnknownMissing | internal/controller/nodereadinessrule_controller.go:284-300 | a condition reported as Unknown is recorded as missing |
| Evaluation.ConditionStatusMeaning | internal/controller/node_controller.go:175-182 | the status of the first condition of the type, Unknown if there is none |
| Evaluation.GetConditionStatus | internal/controller/node_controller.go:175-182 | the loop finds that status |
| Evaluation.EvaluateConditions | internal/controller/nodereadinessrule_controller.go:279-303 | all conditions satisfied, and one result per condition in order |
| Evaluation.HasTaintBySpec | internal/controller/node_controller.go:185-192 | whether a taint with that key and effect is there |
| Evaluation.WithoutTaint | internal/controller/node_controller.go:208-214 | all taints of other pairs, in order |
| StatusLists.UpsertMeaning | internal/controller/nodereadinessrule_controller.go:354-380 | the node gets its entry, uniqueness holds, other nodes' entries stay in order |
| StatusLists.WithFailureMeaning | internal/controller/node_controller.go:268-289 | the node has exactly the new failure, others keep theirs |
| StatusLists.WithFailureOf | internal/controller/node_controller.go:268-289 | node by node: the new failure is the node's only one, other nodes' failures do not change |
| StatusLists.MergedMeaning | internal/controller/node_controller.go:117-154 | the merge writes only with a stored entry and touches that node's entries alone |
| StatusLists.MergeAcceptedExact | internal/controller/node_controller.go:118-133 | the merge fits the schema exactly when the cached rule has an entry for the node, and then the node gets that entry and the cached failures |
| StatusLists.PrunedMeaning | internal/controller/nodereadinessrule_controller.go:198-209 | nothing to prune exactly when every entry names an existing node; otherwise exactly those entries stay |
| StatusLists.MergeNode | internal/controller/node_controller.go:117-154 | the loops of the merge body compute the merge |
| StatusLists.Prune | internal/controller/nodereadinessrule_controller.go:198-209 | the filtering loop computes the pruned status |
| StatusLists.RemoveFinalizer | internal/controller/nodereadinessrule_controller.go:716-724 | all other finalizers, in order |
| StatusLists.WithoutFinalizerMeaning | internal/controller/nodereadinessrule_controller.go:716-724 | every other finalizer keeps its place and number of occurrences |
| StatusLists.ContainsFinalizer | internal/controller/nodereadinessrule_controller.go:699-706 | whether the finalizer is there |
| StatusLists.Int32Meaning | internal/controller/nodereadinessrule_controller.go:483-553 | a counter holds the number modulo 2^32, within the range of int32 |
| StatusLists.ProcessDryRun | internal/controller/nodereadinessrule_controller.go:489-525 | the four 32-bit counters count matching, to-be-tainted, to-be-untainted and risky nodes |
| Controller.ReadinessGateController.ReconcileRule | internal/controller/nodereadinessrule_controller.go:80-182 | the program leaves the world and the result of the rule reconcile function |
| Controller.ReadinessGateController.ReconcileNode | internal/controller/node_controller.go:48-62 | the program leaves the world of the node reconcile function, for some order of the rule map |
| Controller.ReadinessGateController.GetApplicableRulesForNode | internal/controller/nodereadinessrule_controller.go:383-396 | every applicable cached rule once, in any order |
| Controller.ReadinessGateController.ProcessNodeAgainstAllRules | internal/controller/node_controller.go:65-172 | the rule loop is the pass function on shared cache entries |
| Controller.ReadinessGateController.EvaluateRuleForNode | internal/controller/nodereadinessrule_controller.go:276-351 | stored nodes, local node copy and rule object after one evaluation, failed patches included |
| Controller.ReadinessGateController.AddTaintBySpec | internal/controller/node_controller.go:195-203 | the local copy is changed even if the patch is rejected |
| Controller.ReadinessGateController.RemoveTaintBySpec | internal/controller/node_controller.go:206-216 | the local copy is changed even if the patch is rejected |
| Controller.ReadinessGateController.IsBootstrapCompleted | internal/controller/node_controller.go:219-229 | whether the mark is read; a rejected read means no |
| Controller.ReadinessGateController.MarkBootstrapCompleted | internal/controller/node_controller.go:231-265 | the mark, as one call |
| Controller.ReadinessGateController.UpdateNodeEvaluationStatus | internal/controller/nodereadinessrule_controller.go:354-380 | the evaluation of that node in the rule object |
| Controller.ReadinessGateController.RecordNodeFailure | internal/controller/node_controller.go:268-289 | the failure of that node in the rule object |
| Controller.ReadinessGateController.ProcessAllNodesForRule | internal/controller/nodereadinessrule_controller.go:240-273 | the node loop is the sweep function, with generation and applied nodes recorded |
| Controller.ReadinessGateController.CleanupTaintsForRule | internal/controller/nodereadinessrule_controller.go:561-594 | cleanup of the nodes the rule applies to |
| Controller.ReadinessGateController.CleanupNodesAfterSelectorChange | internal/controller/nodereadinessrule_controller.go:597-647 | cleanup of the nodes that left the selector |
| Controller.ReadinessGateController.CleanupDeletedNodes | internal/controller/nodereadinessrule_controller.go:185-237 | pruning of the stored status, in one reconcile |
| Controller.ReadinessGateController.UpdateRuleCache | internal/controller/nodereadinessrule_controller.go:412-423 | the cache holds a separate copy of the rule under its name |
| Controller.ReadinessGateController.RemoveRuleFromCache | internal/controller/nodereadinessrule_controller.go:438-445 | the cache loses exactly that name |
| Scenarios.RoleLabelMoveOrphans | internal/controller/nodereadinessrule_controller.go:684-696 | a concrete cluster in which moving a rule between the two role labels strands its taint |
| Scenarios.EditThenDelete | internal/controller/nodereadinessrule_controller.go:96-117 | a concrete selector edit that is cleaned up if reconciled, and strands the taint if the rule is deleted first |
| Scenarios.EditThenRestart | internal/controller/nodereadinessrule_controller.go:60-67 | the same edit strands the taint if the controller restarts first |
| Scenarios.PairEditOrphans | internal/controller/nodereadinessrule_controller.go:597-647 | a concrete edit of a rule's taint leaves the old one on its node |
| Scenarios.EditStripsOther | internal/controller/nodereadinessrule_controller.go:628-635 | an admitted edit moving a rule to the pair of another and to other nodes takes that pair off a node where the other rule holds it |
| Scenarios.HandoverConflicts | internal/webhook/nodereadinessgaterule_webhook.go:126-147 | from a settled cluster, two admitted edits hand a pair from one rule to another, and reconciling the second first leaves both with it on one node |
| Scenarios.DifferentTextsAdmitted | internal/webhook/nodereadinessgaterule_webhook.go:153-166 | from a settled cluster, a created rule whose selector prints differently is admitted and shares a pair with another on one node |
| Scenarios.RejectedPatchLeaks | internal/controller/node_controller.go:195-203 | in one node pass, a taint whose own patch was rejected is stored by the next rule's patch |
| Scenarios.MarkedNodeTainted | internal/controller/nodereadinessrule_controller.go:250-261 | a node marked as completed is tainted again by a reconcile of its rule |
| Scenarios.RetaintedStays | internal/controller/node_controller.go:79-84 | and keeps that taint through a node reconcile after its conditions hold again |
| Scenarios.SwitchedOffTaints | internal/controller/nodereadinessrule_controller.go:152-167 | with the switch on, a node reconcile of an unready node does nothing and a rule reconcile taints it |
| Scenarios.FailedNodeApplied | internal/controller/nodereadinessrule_controller.go:250-265 | a node whose patch was rejected, and which has no taint, is stored among the applied nodes |
| Scenarios.FailureNotStored | internal/controller/node_controller.go:98-157 | a fresh rule is reconciled, the node becomes ready and its patch is rejected: the stored rule does not change |

## Left out

- Manager setup, flags, leader election, health probes, logging and version strings: plumbing.
- The client, watch and patch machinery and back-off timing: a versioned store, rejected calls and a finite number of attempts stand for them.
- Parsing of label selectors: length limits and the exact grammar of label keys and values are not modelled, only their characters, operators and numbers of values.
- The canonical text of a selector is an arbitrary function of the selector, so nothing is claimed about how the label library prints.
- Schema limits other than required entry fields and one entry per node: a write those refuse counts as a rejected call.
- Timestamps, error messages, requeue delays and the wording of the dry-run summary.
- Goroutine interleavings inside a reconcile and the cache mutex: a reconcile is one step, and single API calls interleave only in the retry loops.
- Several node reconciles running at once on stale reads: a reconcile reads the stored state.
- Clearing old failures after a success, moving a taint when a rule's taint is edited, and untainting a node whose own labels change: the code does none of these.
- NodePassOrderIndependent: stated for passes without rejected calls, because a rejected patch leaves the local copy changed and a later patch then carries that change along (`EvaluationExact`, `RejectedPatchLeaks`).
- LatchFreezesPair: stated for nodes where no other rule has the pair, because such a rule may change the taint there; `PairChangeSound` covers the others.
- PublishOverwrites: a concurrent status change can be lost here, as the source writes the whole status.
- DryRunPredicts: stated for fewer than 2147483648 nodes, beyond which the counters wrap.
