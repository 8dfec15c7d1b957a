/**
 * Concrete runs in which a promise of the documentation is not kept. They start settled: the cache repeats
 * the stored rules.
 */
module Scenarios {
  import opened Admission
  import opened Api
  import opened Cluster
  import opened Evaluation
  import opened Orphans
  import opened RulePass
  import opened Runs
  import Latch
  import NodePass
  import NodeStatus
  import PairChanges
  import Seqs
  import StatusLists
  import S = Selectors

  const PAIR_1 := Taint("readiness.k8s.io/NetworkReady", "pending", "NoSchedule")
  const PAIR_2 := Taint("readiness.k8s.io/StorageReady", "pending", "NoSchedule")
  const PAIR_3 := Taint("readiness.k8s.io/DeviceReady", "pending", "NoSchedule")

  const READY := ConditionRequirement("Ready", "True")
  const X_1 := map["x" := "1"]
  const X_2 := map["x" := "2"]
  const Y_1 := map["y" := "1"]

  function SpecFor(labels: map<string, string>, p: Taint): Spec {
    Spec([READY], CONTINUOUS, p, Selector(labels, []), false)
  }

  function StoredRule(r: string, spec: Spec): Rule {
    Rule(r, 1, false, [FINALIZER], spec, FRESH)
  }

  function NodeWith(labels: map<string, string>, status: string, taints: seq<Taint>): Node {
    Node("n", labels, [Condition("Ready", status)], taints, map[])
  }

  function Settled(node: Node, rules: Rules): World {
    World(map[node.name := node], [node.name], rules, rules, false)
  }

  lemma SettledFormed(node: Node, rules: Rules)
    requires Named(rules)
    ensures WellFormed(Settled(node, rules)) && Mirrored(Settled(node, rules))
  {
    assert Seqs.Elems([node.name]) == {node.name};
  }

  lemma PairsDiffer()
    ensures !SamePair(PAIR_1, PAIR_2) && !SamePair(PAIR_2, PAIR_1) && !SamePair(PAIR_1, PAIR_3)
            && !SamePair(PAIR_3, PAIR_1)
    ensures !SamePair(PAIR_2, PAIR_3) && !SamePair(PAIR_3, PAIR_2)
  {
    var k := |"readiness.k8s.io/"|;
    assert PAIR_1.key[k] == 'N' && PAIR_2.key[k] == 'S' && PAIR_3.key[k] == 'D';
  }

  lemma ReconcileNext(w: World, f: Faults, r: string)
    requires WellFormed(w)
    ensures Covered(w.nodes, w.order) && Next(w, RuleReconcile(r, f)) == ReconcileRule(w, f, r).world
  {
    hide ReconcileRule;
    assert forall n :: n in w.order ==> n in Seqs.Elems(w.order);
  }

  lemma UnreadyNode(labels: map<string, string>, taints: seq<Taint>, p: Taint)
    ensures !AllSatisfied(SpecFor(labels, p).conditions, NodeWith(labels, "False", taints).conditions)
    ensures AllSatisfied(SpecFor(labels, p).conditions, NodeWith(labels, "True", taints).conditions)
  {
    assert SpecFor(labels, p).conditions[0] == READY;
  }

  lemma SelectsX()
    ensures S.Applies(Selector(X_1, []), X_1) && !S.Applies(Selector(X_2, []), X_1)
    ensures S.ValidSelector(Selector(X_1, [])) && S.ValidSelector(Selector(X_2, []))
    ensures S.SelectorChanged(Selector(X_2, []), Selector(X_1, []))
  {
    assert "x" in X_2 && X_1["x"] != X_2["x"];
  }

  // ----- One rule, edited

  /** A node tainted by the only rule, which selects it by all its labels. */
  function Start(labels: map<string, string>): World {
    Settled(NodeWith(labels, "False", [PAIR_1]), map["R" := StoredRule("R", SpecFor(labels, PAIR_1))])
  }

  function Edited(labels: map<string, string>, spec: Spec): World {
    Next(Start(labels), WriteRule("R", spec))
  }

  lemma StartGuarded(labels: map<string, string>)
    requires S.Applies(Selector(labels, []), labels)
    ensures Guarded(Start(labels), PAIR_1) && HasTaint(Start(labels).nodes["n"].taints, PAIR_1)
  {
    hide S.Applies;
    var w := Start(labels);
    SettledFormed(w.nodes["n"], w.rules);
    assert Claims(w.cache["R"], PAIR_1, labels);
    assert PAIR_1 in w.nodes["n"].taints;
  }

  lemma EditedParts(labels: map<string, string>, spec: Spec)
    ensures var w := Edited(labels, spec);
            && WellFormed(w) && w == Start(labels).(rules := w.rules)
            && w.rules.Keys == {"R"} && w.rules["R"].spec == spec && !w.rules["R"].deleting
               && w.rules["R"].finalizers == [FINALIZER]
            && w.cache.Keys == {"R"} && w.cache["R"].spec == SpecFor(labels, PAIR_1)
  {
    SettledFormed(Start(labels).nodes["n"], Start(labels).rules);
  }

  lemma EditedGuarded(labels: map<string, string>, spec: Spec)
    requires S.Applies(Selector(labels, []), labels) && spec.taint == PAIR_1
    ensures Guarded(Start(labels), PAIR_1) && Guarded(Edited(labels, spec), PAIR_1)
    ensures !S.Applies(spec.nodeSelector, labels)
            ==> !CarriersClaimed(Edited(labels, spec), Edited(labels, spec).rules, PAIR_1)
  {
    hide S.Applies, Guarded, HasTaint, Next;
    StartGuarded(labels);
    EditedParts(labels, spec);
    NextGuarded(Start(labels), WriteRule("R", spec), PAIR_1);
  }

  /** Moving a rule between the two standard role labels strands its taint on the nodes it left. */
  lemma RoleLabelMoveOrphans(f: Faults)
    requires FaultFree(f)
    ensures var worker, control := map[S.WORKER := ""], SpecFor(map[S.CONTROL_PLANE := ""], PAIR_1);
            Guarded(Start(worker), PAIR_1) && !NoOrphans(Next(Edited(worker, control), RuleReconcile("R", f)), PAIR_1)
  {
    hide ReconcileRule, S.SelectorChanged, S.Matches, S.LabelText, HasTaint, Guarded, NoOrphans, CarriersClaimed, Next;
    var worker, control := map[S.WORKER := ""], SpecFor(map[S.CONTROL_PLANE := ""], PAIR_1);
    var w := Edited(worker, control);
    S.EmptyLabelMoveUnnoticed();
    S.WorkerApplies();
    EditedParts(worker, control);
    EditedGuarded(worker, control);
    ReconcileNext(w, f, "R");
    MissedChangeExact(w, f, "R", PAIR_1);
    assert w.cache["R" := w.rules["R"]] == w.rules;
  }

  /** A noticed edit is cleaned up if the rule is reconciled next, but not if it is deleted first. */
  lemma EditThenDelete(f: Faults)
    requires FaultFree(f)
    ensures var w, step := Edited(X_1, SpecFor(X_2, PAIR_1)), RuleReconcile("R", f);
            && Guarded(Start(X_1), PAIR_1) && NoOrphans(Next(w, step), PAIR_1)
            && !NoOrphans(Next(Next(w, DeleteRule("R")), step), PAIR_1)
  {
    hide ReconcileRule, S.Applies, S.SelectorChanged, S.ValidSelector, HasTaint, Guarded, NoOrphans, CarriersClaimed,
      Next;
    var w := Edited(X_1, SpecFor(X_2, PAIR_1));
    SelectsX();
    EditedParts(X_1, SpecFor(X_2, PAIR_1));
    EditedGuarded(X_1, SpecFor(X_2, PAIR_1));
    ReconcileNext(w, f, "R");
    MissedChangeExact(w, f, "R", PAIR_1);
    var deleted := Next(w, DeleteRule("R"));
    DeletedParts(w);
    ReconcileNext(deleted, f, "R");
    EarlyDeleteExact(deleted, f, "R", PAIR_1);
    assert deleted.cache["R" := deleted.rules["R"]] == deleted.rules;
    SameClaims(w, deleted, PAIR_1);
  }

  lemma DeletedParts(w: World)
    requires WellFormed(w) && w.rules.Keys == {"R"} && !w.rules["R"].deleting && w.rules["R"].finalizers == [FINALIZER]
    ensures var deleted := Next(w, DeleteRule("R"));
            WellFormed(deleted) && deleted == w.(rules := map["R" := w.rules["R"].(deleting := true)])
  {
  }

  lemma SameClaims(w: World, v: World, p: Taint)
    requires w.nodes == v.nodes && w.rules.Keys == v.rules.Keys
    requires forall r :: r in w.rules ==> w.rules[r].spec == v.rules[r].spec
    ensures CarriersClaimed(w, w.rules, p) == CarriersClaimed(v, v.rules, p)
  {
    hide S.Applies, HasTaint;
    forall labels
      ensures Claimed(w.rules, p, labels) == Claimed(v.rules, p, labels)
    {
      assert forall r :: r in w.rules ==> Claims(w.rules[r], p, labels) == Claims(v.rules[r], p, labels);
    }
  }

  /** Nor if the controller restarts first, although it then reconciles every rule. */
  lemma EditThenRestart(f: Faults)
    requires FaultFree(f)
    ensures var w := Edited(X_1, SpecFor(X_2, PAIR_1));
            !NoOrphans(Next(Next(w, Restart), RuleReconcile("R", f)), PAIR_1)
  {
    hide S.Applies, HasTaint, Guarded, NoOrphans, CarriersClaimed, Next;
    var w := Edited(X_1, SpecFor(X_2, PAIR_1));
    SelectsX();
    EditedParts(X_1, SpecFor(X_2, PAIR_1));
    EditedGuarded(X_1, SpecFor(X_2, PAIR_1));
    assert Seqs.Elems(["R"]) == {"R"};
    assert AttendedRules(w.rules) == w.rules;
    RestartExact(w, f, ["R"], PAIR_1);
    assert ReconciledEach(Next(w, Restart), f, ["R"], 0) == Next(w, Restart);
  }

  /** Moving a rule to another taint leaves the old one behind. */
  lemma PairEditOrphans(f: Faults)
    requires FaultFree(f)
    ensures Guarded(Start(X_1), PAIR_1)
    ensures !NoOrphans(Next(Edited(X_1, SpecFor(X_1, PAIR_2)), RuleReconcile("R", f)), PAIR_1)
  {
    hide ReconcileRule, S.Applies, S.SelectorChanged, S.ValidSelector, HasTaint, Guarded, NoOrphans, Next, SamePair;
    var w := Edited(X_1, SpecFor(X_1, PAIR_2));
    SelectsX();
    PairsDiffer();
    StartGuarded(X_1);
    EditedParts(X_1, SpecFor(X_1, PAIR_2));
    ReconcileNext(w, f, "R");
    assert SamePair(PAIR_1, PAIR_1) by {
      PairRefl();
    }
    PairEditExact(w, f, "R", PAIR_1);
    assert w.cache - {"R"} == map[];
  }

  lemma PairRefl()
    ensures SamePair(PAIR_1, PAIR_1)
  {
  }

  // ----- One rule, one node

  /** With the off-switch on, the node reconciler does nothing and the rule reconciler still taints the node. */
  lemma SwitchedOffTaints(f: Faults, g: Faults)
    requires FaultFree(f)
    ensures var w := Settled(NodeWith(X_1, "False", []),
                             map["R" := StoredRule("R", SpecFor(X_1, PAIR_1))]).(globalDryRun := true);
            && Next(w, NodeReconcile("n", ["R"], g)) == w
            && var after := Next(w, RuleReconcile("R", f));
               "n" in after.nodes && HasTaint(after.nodes["n"].taints, PAIR_1)
  {
    hide ReconcileRule, HasTaint, AllSatisfied, S.Applies, S.SelectorChanged, S.ValidSelector;
    var node, rules := NodeWith(X_1, "False", []), map["R" := StoredRule("R", SpecFor(X_1, PAIR_1))];
    var w := Settled(node, rules).(globalDryRun := true);
    SelectsX();
    UnreadyNode(X_1, [], PAIR_1);
    SettledFormed(node, rules);
    ReconcileNext(w, f, "R");
    assert Enumerates(["R"], w.cache, X_1) by {
      assert Seqs.Elems(["R"]) == {"R"};
    }
    SwitchStopsNodesOnly(w, f, g, "n", ["R"], "R");
    if !NodeRead(w, g, "n") {
      NothingRead(w, g, "n", ["R"]);
    }
  }

  function BootstrapRule(): Rule {
    StoredRule("R", SpecFor(X_1, PAIR_1).(enforcementMode := BOOTSTRAP_ONLY))
  }

  function MarkedNode(status: string, taints: seq<Taint>): Node {
    NodeWith(X_1, status, taints).(annotations := map[LatchKey("R") := "true"])
  }

  function MarkedStart(): World {
    Settled(MarkedNode("False", []), map["R" := BootstrapRule()])
  }

  lemma MarkedStartAlone()
    ensures Latch.Alone(MarkedStart(), "n", "R", PAIR_1) && !HasTaint(MarkedStart().nodes["n"].taints, PAIR_1)
  {
    hide S.Applies;
    SettledFormed(MarkedStart().nodes["n"], MarkedStart().rules);
  }

  /** Reconciling a bootstrap-only rule taints a node it was completed on. */
  lemma MarkedNodeTainted(f: Faults)
    requires FaultFree(f)
    ensures var w := Next(MarkedStart(), RuleReconcile("R", f));
            && Latch.Alone(w, "n", "R", PAIR_1) && HasTaint(w.nodes["n"].taints, PAIR_1)
            && !HasTaint(MarkedStart().nodes["n"].taints, PAIR_1)
  {
    hide ReconcileRule, Next, HasTaint, AllSatisfied, S.Applies, S.SelectorChanged, S.ValidSelector, LatchKey,
      Latch.Alone;
    var w := MarkedStart();
    SelectsX();
    UnreadyNode(X_1, [], PAIR_1);
    MarkedStartAlone();
    MarkedStartParts();
    ReconcileNext(w, f, "R");
    Latch.RuleReconcileIgnoresLatch(w, f, "R", "n");
    Latch.NextAlone(w, RuleReconcile("R", f), "n", "R", PAIR_1);
  }

  lemma MarkedStartParts()
    ensures WellFormed(MarkedStart()) && Latch.Annotated(MarkedStart().nodes, "n", "R")
  {
    SettledFormed(MarkedStart().nodes["n"], MarkedStart().rules);
  }

  lemma OneNode(f: Faults)
    requires FaultFree(f)
    ensures var w := Next(MarkedStart(), RuleReconcile("R", f)); w.nodes.Keys == {"n"} && WellFormed(w)
  {
    hide ReconcileRule, S.Applies, S.SelectorChanged, S.ValidSelector, HasTaint;
    MarkedStartParts();
    SelectsX();
    ReconcileNext(MarkedStart(), f, "R");
    AfterLive(MarkedStart(), f, "R", PAIR_1);
    NextWellFormed(MarkedStart(), RuleReconcile("R", f));
  }

  /** Conditions of the node hold again. */
  function Recovery(w: World): Step
    requires "n" in w.nodes
  {
    WriteNodes(w.nodes["n" := w.nodes["n"].(conditions := [Condition("Ready", "True")])], w.order)
  }

  /** And when the node is ready again, no node reconcile takes the taint off. */
  lemma RetaintedStays(f: Faults, g: Faults, sequence: seq<string>)
    requires FaultFree(f) && FaultFree(g)
    ensures var w := Next(MarkedStart(), RuleReconcile("R", f));
            && "n" in w.nodes
            && var ready := Next(w, Recovery(w));
               && "n" in ready.nodes && AllSatisfied(BootstrapRule().spec.conditions, ready.nodes["n"].conditions)
               && var after := Next(ready, NodeReconcile("n", sequence, g));
                  "n" in after.nodes && HasTaint(after.nodes["n"].taints, PAIR_1)
  {
    hide ReconcileRule, ReconcileNode, HasTaint, AllSatisfied, S.Applies, LatchKey;
    var w := Next(MarkedStart(), RuleReconcile("R", f));
    MarkedNodeTainted(f);
    OneNode(f);
    UnreadyNode(X_1, [], PAIR_1);
    Latch.NextAlone(w, Recovery(w), "n", "R", PAIR_1);
    Latch.NextFrozen(Next(w, Recovery(w)), NodeReconcile("n", sequence, g), "n", "R", PAIR_1);
  }

  // ----- Statuses

  lemma Unedited(s: Selector)
    ensures !S.SelectorChanged(s, s)
  {
  }

  lemma Untainted(p: Taint)
    ensures !HasTaint([], p)
  {
  }

  function OnlyPatchFails(): Faults {
    (c: Call) => c == PatchTaints("n", "R")
  }

  /** A node whose patch was rejected is listed as one where the taint was managed. */
  lemma FailedNodeApplied()
    ensures var w := Next(Settled(NodeWith(X_1, "False", []), map["R" := StoredRule("R", SpecFor(X_1, PAIR_1))]),
                          RuleReconcile("R", OnlyPatchFails()));
            && "R" in w.rules && "n" in w.rules["R"].status.appliedNodes
            && "n" in w.nodes && !HasTaint(w.nodes["n"].taints, PAIR_1)
  {
    hide ReconcileRule, HasTaint, AllSatisfied, S.Applies, S.SelectorChanged, Seqs.Filter, StatusLists.SchemaAccepts;
    var node, rule := NodeWith(X_1, "False", []), StoredRule("R", SpecFor(X_1, PAIR_1));
    var w, f := Settled(node, map["R" := rule]), OnlyPatchFails();
    SelectsX();
    SettledFormed(node, w.rules);
    NodeStatus.FreshAccepted();
    Unedited(rule.spec.nodeSelector);
    ReconcileNext(w, f, "R");
    AppliedStored(w, f, "R");
    assert "n" in w.order;
    Untainted(PAIR_1);
  }

  /** A rule that was just created, with the finalizer but not yet reconciled. */
  function FreshStart(): World {
    Settled(NodeWith(X_1, "False", []), map["R" := StoredRule("R", SpecFor(X_1, PAIR_1))]).(cache := map[])
  }

  lemma FreshStartParts()
    ensures NodeStatus.Accepted(FreshStart())
    ensures S.Applies(FreshStart().rules["R"].spec.nodeSelector, FreshStart().nodes["n"].labels)
    ensures !AllSatisfied(FreshStart().rules["R"].spec.conditions, FreshStart().nodes["n"].conditions)
  {
    hide S.Applies, AllSatisfied, StatusLists.SchemaAccepts;
    SelectsX();
    UnreadyNode(X_1, [], PAIR_1);
    NodeStatus.FreshAccepted();
    SettledFormed(NodeWith(X_1, "False", []), FreshStart().rules);
  }

  /** Its first reconcile stores an entry for the node and caches a copy without one. */
  lemma FreshReconciled(f: Faults)
    requires FaultFree(f)
    ensures var w := Next(FreshStart(), RuleReconcile("R", f));
            && NodeStatus.Accepted(w) && w.nodes.Keys == {"n"} && HasTaint(w.nodes["n"].taints, PAIR_1)
            && w.nodes["n"].labels == X_1 && w.cache == FreshStart().rules && !w.globalDryRun
            && "R" in w.rules && StatusLists.HasEntry(w.rules["R"].status.nodeEvaluations, "n")
            && !StatusLists.HasEntry(w.cache["R"].status.nodeEvaluations, "n")
  {
    hide ReconcileRule, NodeStatus.Accepted, HasTaint, AllSatisfied, S.Applies, S.SelectorChanged, EvaluationOf, Next;
    var w := FreshStart();
    FreshStartParts();
    FreshFormed();
    ReconcileNext(w, f, "R");
    StatusMatchesCluster(w, f, "R");
    FullEffect(w, f, "R", "n");
    FirstCached(w, f, "R");
    SwitchKept(w, RuleReconcile("R", f));
    NodeStatus.NextAccepted(w, RuleReconcile("R", f));
    NodeStatus.EvaluationNamed(w.rules["R"], w.nodes["n"]);
    assert w.cache["R" := w.rules["R"]] == w.rules;
  }

  lemma FreshFormed()
    ensures WellFormed(FreshStart()) && StatusLists.SchemaAccepts(FreshStart().rules["R"].status)
  {
    FreshStartParts();
  }

  function FreshRecovered(f: Faults): World
    requires FaultFree(f)
  {
    FreshReconciled(f);
    var w := Next(FreshStart(), RuleReconcile("R", f));
    Next(w, Recovery(w))
  }

  lemma FreshRecoveredParts(f: Faults)
    requires FaultFree(f)
    ensures var w := FreshRecovered(f);
            && NodeStatus.Accepted(w) && NodeRead(w, OnlyPatchFails(), "n")
               && Enumerates(["R"], w.cache, w.nodes["n"].labels)
            && w.cache == FreshStart().rules && !w.globalDryRun
            && Decide(w.cache["R"].spec, w.nodes["n"]) == Remove
            && "R" in w.rules && StatusLists.HasEntry(w.rules["R"].status.nodeEvaluations, "n")
            && !StatusLists.HasEntry(w.cache["R"].status.nodeEvaluations, "n")
  {
    hide ReconcileRule, HasTaint, AllSatisfied, S.Applies, StatusLists.HasEntry, NodeStatus.Accepted;
    var w := Next(FreshStart(), RuleReconcile("R", f));
    FreshReconciled(f);
    NodeStatus.NextAccepted(w, Recovery(w));
    NodeStatus.AcceptedFormed(w);
    SelectsX();
    UnreadyNode(X_1, [], PAIR_1);
    assert Seqs.Elems(["R"]) == {"R"};
  }

  /** When a patch is rejected after that, the stored rule stays as it was. */
  lemma FailureNotStored(f: Faults)
    requires FaultFree(f)
    ensures var w, step := FreshRecovered(f), NodeReconcile("n", ["R"], OnlyPatchFails());
            && Enabled(w, step) && NodeRead(w, OnlyPatchFails(), "n") && "R" in w.cache
            && Decide(w.cache["R"].spec, w.nodes["n"]) == Remove
            && "R" in w.rules && "R" in Next(w, step).rules && Next(w, step).rules["R"] == w.rules["R"]
  {
    hide FreshRecovered, Decide, AllSatisfied, S.Applies, PassTo, StatusLists.HasEntry, NodeStatus.AllAccepted;
    var w, g := FreshRecovered(f), OnlyPatchFails();
    FreshRecoveredParts(f);
    PassStart(g, w, ["R"]);
    NodeStatus.FailedEvaluationStored(w, g, "n", ["R"], 0);
  }

  lemma PassStart(f: Faults, w: World, sequence: seq<string>)
    requires "n" in w.nodes && Seqs.Elems(sequence) <= w.cache.Keys
    ensures PassTo(f, false, StartOf(w, "n"), sequence, 0) == StartOf(w, "n")
  {
  }

  lemma SwitchKept(w: World, step: Step)
    ensures Next(w, step).globalDryRun == w.globalDryRun
  {
    hide Cleaned, Swept, PassTo, S.SelectorChanged, S.ValidSelector, StatusLists.DryRunOf, StatusLists.Pruned;
  }

  // ----- Two rules

  function TwoRules(a: Spec, b: Spec): Rules {
    map["A" := StoredRule("A", a), "B" := StoredRule("B", b)]
  }

  function TwoStart(labels: map<string, string>, a: Spec, b: Spec): World {
    Settled(NodeWith(labels, "False", [a.taint, b.taint]), TwoRules(a, b))
  }

  predicate Simple(spec: Spec) {
    spec == SpecFor(X_1, spec.taint) || spec == SpecFor(X_2, spec.taint) || spec == SpecFor(Y_1, spec.taint)
  }

  lemma SimpleOk(spec: Spec)
    requires Simple(spec) && spec.taint.key != "" && spec.taint.effect != ""
    ensures SpecOk(spec)
  {
    assert "x" in X_1 && "x" in X_2 && "y" in Y_1;
    assert S.LabelText("x") && S.LabelText("y") && S.LabelText("1") && S.LabelText("2");
  }

  /** The world and the store of two valid rules that do not clash. */
  lemma TwoStored(canon: Canonical, labels: map<string, string>, a: Spec, b: Spec)
    requires SpecOk(a) && SpecOk(b) && !Clash(canon, a, b)
    ensures var w := TwoStart(labels, a, b);
            WellFormed(w) && Mirrored(w) && StoreAdmitted(canon, w.rules)
              && Lists([w.rules["A"], w.rules["B"]], w.rules)
  {
    hide SpecOk, Clash;
    var w := TwoStart(labels, a, b);
    SettledFormed(w.nodes["n"], w.rules);
    ClashSymmetric(canon, a, b);
    assert w.rules.Values == {w.rules["A"], w.rules["B"]};
  }

  /** An edit of rule r that does not clash with the other rule. */
  lemma EditAdmitted(canon: Canonical, w: World, r: string, q: string, spec: Spec)
    requires WellFormed(w) && w.rules.Keys == {r, q} && r != q && SpecOk(spec) && !Clash(canon, spec, w.rules[q].spec)
    ensures Admitted(canon, w, WriteRule(r, spec))
    ensures var after := Next(w, WriteRule(r, spec));
            && WellFormed(after) && after == w.(rules := after.rules) && after.rules.Keys == {r, q}
            && after.rules[r] == w.rules[r].(spec := spec, generation := w.rules[r].generation + 1)
            && after.rules[q] == w.rules[q]
  {
    hide SpecOk, Clash;
    var list := [w.rules[r], w.rules[q]];
    assert w.rules.Values == {w.rules[r], w.rules[q]};
    assert Lists(list, w.rules) && Admits(canon, Some(list), r, spec, true);
  }

  lemma HandoverSpecs()
    ensures SpecOk(SpecFor(X_1, PAIR_1)) && SpecOk(SpecFor(X_1, PAIR_2)) && SpecOk(SpecFor(X_1, PAIR_3))
    ensures SpecOk(SpecFor(X_2, PAIR_2)) && SpecOk(SpecFor(Y_1, PAIR_1))
  {
    hide SpecOk;
    SimpleOk(SpecFor(X_1, PAIR_1));
    SimpleOk(SpecFor(X_1, PAIR_2));
    SimpleOk(SpecFor(X_1, PAIR_3));
    SimpleOk(SpecFor(X_2, PAIR_2));
    SimpleOk(SpecFor(Y_1, PAIR_1));
  }

  function TwoRuleStart(): World {
    TwoStart(X_1, SpecFor(X_1, PAIR_1), SpecFor(X_1, PAIR_2))
  }

  /** Rule A gives up its pair, and then rule B takes it. */
  function HandedOver(): World {
    Next(Next(TwoRuleStart(), WriteRule("A", SpecFor(X_1, PAIR_3))), WriteRule("B", SpecFor(X_1, PAIR_1)))
  }

  lemma HandoverAdmitted(canon: Canonical)
    ensures var w, one, two := TwoRuleStart(), WriteRule("A", SpecFor(X_1, PAIR_3)),
            WriteRule("B", SpecFor(X_1, PAIR_1));
            && WellFormed(w) && Mirrored(w) && StoreAdmitted(canon, w.rules)
            && Admitted(canon, w, one) && Admitted(canon, Next(w, one), two)
            && WellFormed(HandedOver()) && HandedOver() == w.(rules := HandedOver().rules)
            && HandedOver().rules.Keys == {"A", "B"} && HandedOver().rules["B"].spec == SpecFor(X_1, PAIR_1)
            && !HandedOver().rules["B"].deleting && Next(w, one) == w.(rules := Next(w, one).rules)
  {
    hide SpecOk, SamePair, Overlap, Admitted, StoreAdmitted, Next;
    var a, b, c := SpecFor(X_1, PAIR_1), SpecFor(X_1, PAIR_2), SpecFor(X_1, PAIR_3);
    PairsDiffer();
    HandoverSpecs();
    TwoStored(canon, X_1, a, b);
    EditAdmitted(canon, TwoRuleStart(), "A", "B", c);
    EditAdmitted(canon, Next(TwoRuleStart(), WriteRule("A", c)), "B", "A", a);
  }

  /**
   * Handing a pair from rule A to rule B by two admitted edits, and reconciling B first, leaves both with
   * it on one node. Only the second edit is not apart from what is still cached.
   */
  lemma HandoverConflicts(canon: Canonical, f: Faults)
    requires FaultFree(f)
    ensures var w, one, two := TwoRuleStart(), WriteRule("A", SpecFor(X_1, PAIR_3)),
            WriteRule("B", SpecFor(X_1, PAIR_1));
            && Mirrored(w) && StoreAdmitted(canon, w.rules)
            && Admitted(canon, w, one) && Considerate(w, one)
            && Admitted(canon, Next(w, one), two) && !Considerate(Next(w, one), two)
            && var after := Next(HandedOver(), RuleReconcile("B", f));
               "n" in after.nodes && !NodePass.OwnPairs(after, "n")
  {
    hide SpecOk, S.Applies, S.SelectorChanged, S.ValidSelector, SamePair, ReconcileRule, Admitted, StoreAdmitted, Next,
      HandedOver;
    PairsDiffer();
    SelectsX();
    PairRefl();
    HandoverAdmitted(canon);
    var handed := HandedOver();
    assert "A" in handed.cache && !Apart(handed.cache["A"].spec, SpecFor(X_1, PAIR_1));
    ReconcileNext(handed, f, "B");
    CachingExact(handed, f, "B", "n");
    assert "A" in ApplicableRules(handed.cache, X_1);
  }

  const X_Y := map["x" := "1", "y" := "1"]

  function LoneStart(): World {
    Settled(NodeWith(X_Y, "False", [PAIR_1]), map["A" := StoredRule("A", SpecFor(X_1, PAIR_1))])
  }

  lemma SelectsBoth()
    ensures S.Applies(Selector(X_1, []), X_Y) && S.Applies(Selector(Y_1, []), X_Y)
  {
    assert "x" in X_1 && "y" in Y_1;
  }

  lemma LoneStored(canon: Canonical, b: Spec)
    requires SpecOk(b) && !Clash(canon, b, SpecFor(X_1, PAIR_1))
    ensures var w := LoneStart();
            WellFormed(w) && Mirrored(w) && StoreAdmitted(canon, w.rules) && Admitted(canon, w, WriteRule("B", b))
  {
    hide SpecOk, Clash;
    var w := LoneStart();
    HandoverSpecs();
    SettledFormed(w.nodes["n"], w.rules);
    var list := [w.rules["A"]];
    assert w.rules.Values == {w.rules["A"]};
    assert Lists(list, w.rules) && Admits(canon, Some(list), "B", b, false);
  }

  lemma CreatedParts(b: Spec)
    requires WellFormed(LoneStart())
    ensures var created := Next(LoneStart(), WriteRule("B", b));
            && created == LoneStart().(rules := created.rules)
            && "B" in created.rules && created.rules["B"] == Rule("B", 1, false, [], b, FRESH)
  {
  }

  lemma ValidParts()
    ensures S.ValidSelector(Selector(X_1, [])) && S.ValidSelector(Selector(Y_1, []))
  {
    SelectsX();
    SelectsBoth();
  }

  /** Different texts, one node: a rule sharing the pair of another there is admitted, and reconciled beside it. */
  lemma DifferentTextsAdmitted(canon: Canonical, f: Faults)
    requires FaultFree(f) && canon(Selector(X_1, [])) != canon(Selector(Y_1, []))
    ensures var w, step := LoneStart(), WriteRule("B", SpecFor(Y_1, PAIR_1));
            && Mirrored(w) && StoreAdmitted(canon, w.rules) && Admitted(canon, w, step)
            && StoreAdmitted(canon, Next(w, step).rules)
            && var after := Next(Next(w, step), RuleReconcile("B", f));
               "n" in after.nodes && !NodePass.OwnPairs(after, "n")
  {
    hide SpecOk, S.Applies, S.SelectorChanged, S.ValidSelector, ReconcileRule, Admitted, StoreAdmitted, Next;
    var b := SpecFor(Y_1, PAIR_1);
    HandoverSpecs();
    SelectsBoth();
    ValidParts();
    assert !Clash(canon, b, SpecFor(X_1, PAIR_1));
    LoneStored(canon, b);
    CreatedParts(b);
    NextAdmitted(canon, LoneStart(), WriteRule("B", b));
    var created := Next(LoneStart(), WriteRule("B", b));
    ReconcileNext(created, f, "B");
    CachingExact(created, f, "B", "n");
    assert "A" in ApplicableRules(created.cache, X_Y);
  }

  lemma CarriesBoth()
    ensures HasTaint([PAIR_1, PAIR_2], PAIR_2)
  {
    assert PAIR_2 in [PAIR_1, PAIR_2];
  }

  lemma NeverBoth(b: Spec, c: Spec)
    requires b.nodeSelector == Selector(X_1, []) && c.nodeSelector == Selector(X_2, [])
    ensures Apart(b, c)
  {
    forall labels
      ensures !(S.Applies(b.nodeSelector, labels) && S.Applies(c.nodeSelector, labels))
    {
      assert "x" in X_1 && "x" in X_2 && X_1["x"] != X_2["x"];
    }
  }

  lemma StripAdmitted(canon: Canonical)
    requires canon(Selector(X_1, [])) != canon(Selector(X_2, []))
    ensures var w, step := TwoRuleStart(), WriteRule("A", SpecFor(X_2, PAIR_2));
            && WellFormed(w) && Mirrored(w) && StoreAdmitted(canon, w.rules) && Admitted(canon, w, step)
               && Considerate(w, step)
            && var edited := Next(w, step);
               && WellFormed(edited) && edited == w.(rules := edited.rules) && "A" in edited.rules
               && edited.rules["A"].spec == SpecFor(X_2, PAIR_2) && !edited.rules["A"].deleting
  {
    hide SpecOk, S.Applies, S.ValidSelector, SamePair, Admitted, StoreAdmitted, Next;
    var a, b, c := SpecFor(X_1, PAIR_1), SpecFor(X_1, PAIR_2), SpecFor(X_2, PAIR_2);
    PairsDiffer();
    HandoverSpecs();
    SelectsX();
    TwoStored(canon, X_1, a, b);
    NeverBoth(b, c);
    EditAdmitted(canon, TwoRuleStart(), "A", "B", c);
  }

  /**
   * Rule A takes the pair of rule B along to other nodes, and cleaning up after A strips B's taint from a
   * node B holds.
   */
  lemma EditStripsOther(canon: Canonical, f: Faults)
    requires FaultFree(f) && canon(Selector(X_1, [])) != canon(Selector(X_2, []))
    ensures var w, step := TwoRuleStart(), WriteRule("A", SpecFor(X_2, PAIR_2));
            && Mirrored(w) && StoreAdmitted(canon, w.rules) && Admitted(canon, w, step) && Considerate(w, step)
            && var edited := Next(w, step); var after := Next(edited, RuleReconcile("A", f));
               && "B" in edited.cache && edited.cache["B"].spec.taint == PAIR_2 && PairChanges.Held(edited, "B", "n")
               && "B" in after.cache && after.cache["B"] == edited.cache["B"]
               && "n" in after.nodes && !HasTaint(after.nodes["n"].taints, PAIR_2)
  {
    hide S.SelectorChanged, S.ValidSelector, ReconcileRule, Admitted, StoreAdmitted, Considerate, Next, AllSatisfied,
      HasTaint;
    SelectsX();
    StripAdmitted(canon);
    var edited := Next(TwoRuleStart(), WriteRule("A", SpecFor(X_2, PAIR_2)));
    ReconcileNext(edited, f, "A");
    UnreadyNode(X_1, [PAIR_1, PAIR_2], PAIR_2);
    CarriesBoth();
    PairChanges.TurnsExact(edited, f, "A", "n", PAIR_2);
    AfterLive(edited, f, "A", PAIR_2);
  }

  // ----- A rejected patch that comes back

  function UntaintedStart(): World {
    Settled(NodeWith(X_1, "False", []), TwoRules(SpecFor(X_1, PAIR_1), SpecFor(X_1, PAIR_2)))
  }

  function OnlyAFails(): Faults {
    (c: Call) => c == PatchTaints("n", "A")
  }

  /** The first iteration: nothing is stored, but the local copy has the taint. */
  lemma LeakFirst()
    ensures var w := UntaintedStart();
            var t := PassStep(OnlyAFails(), false, StartOf(w, "n"), "A");
            && t.nodes == w.nodes && t.local == w.nodes["n"].(taints := [PAIR_1])
            && t.cache.Keys == {"A", "B"} && t.cache["B"] == w.cache["B"]
  {
    hide EvaluateAndRecord, StatusMerged, AllSatisfied, HasTaint;
    var w := UntaintedStart();
    UnreadyNode(X_1, [], PAIR_1);
    Untainted(PAIR_1);
    NodePass.EvaluationExact(OnlyAFails(), w.cache["A"], w.nodes, w.nodes["n"]);
  }

  /** The second: its own patch is accepted and carries the list of the copy. */
  lemma LeakSecond(t: Pass)
    requires t.nodes == UntaintedStart().nodes && t.local == UntaintedStart().nodes["n"].(taints := [PAIR_1])
    requires "B" in t.cache && t.cache["B"] == UntaintedStart().cache["B"]
    ensures var u := PassStep(OnlyAFails(), false, t, "B");
            "n" in u.nodes && u.nodes["n"].taints == [PAIR_1, PAIR_2]
  {
    hide EvaluateAndRecord, StatusMerged, AllSatisfied, HasTaint, SamePair;
    UnreadyNode(X_1, [PAIR_1], PAIR_2);
    PairsDiffer();
    OnlyFirst();
    NodePass.EvaluationExact(OnlyAFails(), t.cache["B"], t.nodes, t.local);
    assert [PAIR_1] + [PAIR_2] == [PAIR_1, PAIR_2];
  }

  lemma OnlyFirst()
    ensures !HasTaint([PAIR_1], PAIR_2)
  {
    PairsDiffer();
  }

  lemma TwoSteps(f: Faults, s: Pass)
    requires "A" in s.cache && "B" in s.cache
    ensures Seqs.Elems(["A", "B"]) == {"A", "B"}
    ensures PassTo(f, false, s, ["A", "B"], 2) == PassStep(f, false, PassStep(f, false, s, "A"), "B")
  {
    hide PassStep;
    assert Seqs.Elems(["A", "B"]) == {"A", "B"};
    assert PassTo(f, false, s, ["A", "B"], 0) == s;
    assert PassTo(f, false, s, ["A", "B"], 1) == PassStep(f, false, s, "A");
  }

  lemma UntaintedParts()
    ensures var w := UntaintedStart();
            && WellFormed(w) && NodeRead(w, OnlyAFails(), "n") && "A" in w.cache && "B" in w.cache
            && Enumerates(["A", "B"], w.cache, w.nodes["n"].labels)
  {
    hide S.Applies;
    var w := UntaintedStart();
    SettledFormed(w.nodes["n"], w.rules);
    SelectsX();
    assert Seqs.Elems(["A", "B"]) == {"A", "B"};
  }

  /** A taint whose own patch was rejected is stored by the next rule's patch in the same pass. */
  lemma RejectedPatchLeaks()
    ensures var w, step := UntaintedStart(), NodeReconcile("n", ["A", "B"], OnlyAFails());
            && Enabled(w, step) && "n" in Next(w, step).nodes && Next(w, step).nodes["n"].taints == [PAIR_1, PAIR_2]
  {
    hide PassStep, PassTo, Enumerates, WellFormed;
    UntaintedParts();
    var w := UntaintedStart();
    TwoSteps(OnlyAFails(), StartOf(w, "n"));
    LeakFirst();
    LeakSecond(PassStep(OnlyAFails(), false, StartOf(w, "n"), "A"));
  }
}
