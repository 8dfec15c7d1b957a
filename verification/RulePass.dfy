/** What one reconcile of a rule does to the cluster: cleanup, enforcement, dry run and status. */
module RulePass {
  import opened Seqs
  import opened Api
  import opened Evaluation
  import opened StatusLists
  import opened Cluster
  import opened NodePass
  import S = Selectors

  // ----- Cleanup, under any pattern of failures

  predicate Target(targets: Node -> bool, p: Taint, node: Node) {
    targets(node) && HasTaint(node.taints, p)
  }

  function CleanedNode(f: Faults, r: string, p: Taint, targets: Node -> bool, node: Node): Node {
    if Target(targets, p, node) && !f(PatchTaints(node.name, r)) then node.(taints := Others(node.taints, p)) else node
  }

  lemma ListedAt(nodes: Nodes, order: seq<string>, i: nat)
    requires NodesListed(nodes, order) && i < |order|
    ensures order[i] in nodes && Listed(nodes, order)[i] == nodes[order[i]] && nodes[order[i]].name == order[i]
    ensures order[i] !in order[..i]
    ensures forall n :: n in order[..i + 1] <==> n in order[..i] || n == order[i]
  {
  }

  /** Each target is tried on its own: the loop's effect on a node depends on that node's patch only. */
  lemma {:induction false} CleanedPointwise(
    f: Faults, r: string, p: Taint, targets: Node -> bool, nodes: Nodes, order: seq<string>, i: nat)
    requires NodesListed(nodes, order) && i <= |order|
    ensures var c := Cleaned(f, r, p, targets, nodes, Listed(nodes, order), i);
            && (forall n :: n in nodes ==>
                  c.nodes[n] == if n in order[..i] then CleanedNode(f, r, p, targets, nodes[n]) else nodes[n])
            && forall n :: n in c.failed <==>
                 n in order[..i] && n in nodes && Target(targets, p, nodes[n]) && f(PatchTaints(n, r))
  {
    if i > 0 {
      CleanedPointwise(f, r, p, targets, nodes, order, i - 1);
      ListedAt(nodes, order, i - 1);
    }
  }

  /**
   * Cleanup tries every tainted target. It succeeds exactly when every removal was accepted, the
   * targets still tainted are exactly the failed ones, and nothing else on any node has changed.
   */
  lemma CleanupExact(f: Faults, r: string, p: Taint, targets: Node -> bool, nodes: Nodes, order: seq<string>)
    requires NodesListed(nodes, order)
    ensures var c := Cleaned(f, r, p, targets, nodes, Listed(nodes, order), |order|);
            && (c.failed == [] <==> forall n :: n in nodes && Target(targets, p, nodes[n]) ==> !f(PatchTaints(n, r)))
            && (forall n :: n in nodes && targets(nodes[n]) ==> (HasTaint(c.nodes[n].taints, p) <==> n in c.failed))
            && (forall n :: n in nodes && !targets(nodes[n]) ==> c.nodes[n] == nodes[n])
            && (forall n :: n in nodes ==> c.nodes[n] == nodes[n].(taints := c.nodes[n].taints)
                                           && Others(c.nodes[n].taints, p) == Others(nodes[n].taints, p))
  {
    hide Cleaned, HasTaint, Others;
    var c := Cleaned(f, r, p, targets, nodes, Listed(nodes, order), |order|);
    CleanedPointwise(f, r, p, targets, nodes, order, |order|);
    assert order[..|order|] == order;
    assert forall n :: n in nodes ==> n in Elems(order);
    if c.failed != [] {
      assert c.failed[0] in c.failed;
    }
    forall n | n in nodes
      ensures Others(c.nodes[n].taints, p) == Others(nodes[n].taints, p)
      ensures Target(targets, p, nodes[n]) && !f(PatchTaints(n, r)) ==> !HasTaint(c.nodes[n].taints, p)
    {
      OthersFree(nodes[n].taints, p);
    }
  }

  lemma OthersFree(taints: seq<Taint>, p: Taint)
    ensures !HasTaint(Others(taints, p), p)
    ensures Others(Others(taints, p), p) == Others(taints, p)
  {
    FilterAll(Others(taints, p), NotPair(p));
  }

  // ----- The finalizer protocol

  predicate Finalizing(w: World, r: string) {
    r in w.rules && w.rules[r].deleting && FINALIZER in w.rules[r].finalizers
  }

  /** No call that deleting the rule needs is rejected. */
  ghost predicate DeletionAccepted(w: World, f: Faults, r: string)
    requires r in w.rules
  {
    && !f(GetRule(r)) && !f(ListForCleanup(r)) && !f(DropFinalizer(r))
    && var targets := DeletionTargets(w.rules[r].spec.nodeSelector);
       forall n :: n in w.nodes && Target(targets, w.rules[r].spec.taint, w.nodes[n]) ==> !f(PatchTaints(n, r))
  }

  /** Nothing is left of the finalizers exactly when there was no other. */
  lemma OthersRemain(finalizers: seq<string>)
    ensures WithoutFinalizer(finalizers) == Filter(finalizers, (x: string) => x != FINALIZER)
    ensures FINALIZER !in WithoutFinalizer(finalizers)
    ensures WithoutFinalizer(finalizers) != [] <==> exists x :: x in finalizers && x != FINALIZER
  {
    FilterAgree(finalizers, OtherFinalizers(), (x: string) => x != FINALIZER);
    if WithoutFinalizer(finalizers) != [] {
      assert WithoutFinalizer(finalizers)[0] in WithoutFinalizer(finalizers);
    }
  }

  /**
   * The finalizer and the cache entry go exactly when every removal and the update were accepted,
   * and then no node the rule applies to carries its taint. Otherwise both stay, to be tried again. Other
   * finalizers stay, in order, and hold the rule in the store, which is otherwise as it was.
   */
  lemma FinalizerProtocol(w: World, f: Faults, r: string)
    requires WellFormed(w) && Finalizing(w, r)
    ensures var after := ReconcileRule(w, f, r).world;
            var spec := w.rules[r].spec;
            && (DeletionAccepted(w, f, r) <==> !Finalizing(after, r))
            && (Finalizing(after, r) ==> after.cache == w.cache && after.rules == w.rules)
            && (!Finalizing(after, r) ==>
                  && r !in after.cache
                  && (r in after.rules ==> FINALIZER !in after.rules[r].finalizers)
                  && forall n :: n in after.nodes && S.Applies(spec.nodeSelector, after.nodes[n].labels)
                                 ==> !HasTaint(after.nodes[n].taints, spec.taint))
    ensures var before, after := w.rules[r], ReconcileRule(w, f, r).world.rules;
            DeletionAccepted(w, f, r) ==>
              && after - {r} == w.rules - {r}
              && (r in after <==> exists x :: x in before.finalizers && x != FINALIZER)
              && (r in after ==>
                    && after[r] == before.(finalizers := after[r].finalizers)
                    && after[r].finalizers == Filter(before.finalizers, (x: string) => x != FINALIZER))
  {
    hide Cleaned, HasTaint, Others, WithoutFinalizer;
    OthersRemain(w.rules[r].finalizers);
    var rule := w.rules[r];
    CleanupExact(f, r, rule.spec.taint, DeletionTargets(rule.spec.nodeSelector), w.nodes, w.order);
    assert |Listed(w.nodes, w.order)| == |w.order|;
  }

  // ----- Enforcement, under any pattern of failures

  lemma ActIgnoresStatus(f: Faults, a: Rule, b: Rule, node: Node)
    requires a == b.(status := a.status)
    ensures Act(f, a, node) == Act(f, b, node)
  {
  }

  function SweptNode(f: Faults, rule: Rule, node: Node): Node {
    if S.Applies(rule.spec.nodeSelector, node.labels) then Act(f, rule, node) else node
  }

  lemma {:induction false} SweptPointwise(f: Faults, rule: Rule, nodes: Nodes, order: seq<string>, i: nat)
    requires NodesListed(nodes, order) && i <= |order|
    ensures var s := Swept(f, rule, nodes, Listed(nodes, order), i);
            forall n :: n in nodes ==>
              s.nodes[n] == if n in order[..i] then SweptNode(f, rule, nodes[n]) else nodes[n]
  {
    if i > 0 {
      hide EvaluateAndRecord, Act;
      SweptPointwise(f, rule, nodes, order, i - 1);
      ListedAt(nodes, order, i - 1);
      var s := Swept(f, rule, nodes, Listed(nodes, order), i - 1);
      assert s.nodes[order[i - 1]] == nodes[order[i - 1]];
      EvaluateActs(f, s.rule, s.nodes, nodes[order[i - 1]]);
      ActIgnoresStatus(f, s.rule, rule, nodes[order[i - 1]]);
    }
  }

  lemma SweptNodes(f: Faults, rule: Rule, nodes: Nodes, order: seq<string>)
    requires NodesListed(nodes, order)
    ensures Swept(f, rule, nodes, Listed(nodes, order), |order|).nodes == map n | n in nodes ::
            SweptNode(f, rule, nodes[n])
  {
    hide Swept, SweptNode;
    SweptPointwise(f, rule, nodes, order, |order|);
    assert order[..|order|] == order;
    assert forall n :: n in nodes ==> n in Elems(order);
  }

  /** What enforcement means for one node, when its patch is not rejected. */
  lemma ActMeaning(f: Faults, rule: Rule, node: Node)
    requires !f(PatchTaints(node.name, rule.name))
    ensures var after, p := Act(f, rule, node), rule.spec.taint;
            && (HasTaint(after.taints, p) <==> !AllSatisfied(rule.spec.conditions, node.conditions))
            && Others(after.taints, p) == Others(node.taints, p)
            && after == node.(taints := after.taints, annotations := after.annotations)
  {
    hide HasTaint, AllSatisfied, Others, Enforced;
    EnforcedMeaning(rule.spec, node);
  }

  // ----- The full effect of a reconcile

  predicate ChangeNoticed(w: World, r: string)
    requires r in w.rules
  {
    r in w.cache && S.SelectorChanged(w.rules[r].spec.nodeSelector, w.cache[r].spec.nodeSelector)
  }

  predicate Leaves(w: World, r: string, node: Node)
    requires r in w.rules
  {
    && ChangeNoticed(w, r)
    && S.Matches(w.cache[r].spec.nodeSelector, node.labels) && !S.Applies(w.rules[r].spec.nodeSelector, node.labels)
  }

  /** The nodes after a failure-free reconcile of a live rule, one by one. */
  function ReconciledNode(w: World, f: Faults, r: string, node: Node): Node
    requires r in w.rules
  {
    var spec := w.rules[r].spec;
    if S.Applies(spec.nodeSelector, node.labels) then
      if spec.dryRun then node else Act(f, w.rules[r], node)
    else if Leaves(w, r, node) && HasTaint(node.taints, spec.taint)
      then node.(taints := Others(node.taints, spec.taint))
    else node
  }

  lemma LeftNodes(w: World, f: Faults, rule: Rule)
    requires WellFormed(w) && FaultFree(f)
    requires rule.name in w.rules && rule == w.rules[rule.name].(finalizers := rule.finalizers)
    requires ChangeNoticed(w, rule.name) ==> S.ValidSelector(w.cache[rule.name].spec.nodeSelector)
    ensures var left := LeaveOld(w, f, rule);
            && left.ok
            && forall n :: n in w.nodes ==>
                 left.world.nodes[n] ==
                 if Leaves(w, rule.name, w.nodes[n]) && HasTaint(w.nodes[n].taints, rule.spec.taint)
                 then w.nodes[n].(taints := Others(w.nodes[n].taints, rule.spec.taint)) else w.nodes[n]
  {
    hide Cleaned, HasTaint, Others;
    if ChangeNoticed(w, rule.name) {
      var targets := LeavingTargets(w.cache[rule.name].spec.nodeSelector, rule.spec.nodeSelector);
      CleanedPointwise(f, rule.name, rule.spec.taint, targets, w.nodes, w.order, |w.order|);
      CleanupExact(f, rule.name, rule.spec.taint, targets, w.nodes, w.order);
      assert w.order[..|w.order|] == w.order;
      assert forall n :: n in w.nodes ==> n in Elems(w.order);
    }
  }

  lemma ActIgnoresMeta(f: Faults, a: Rule, b: Rule, node: Node)
    requires a.name == b.name && a.spec == b.spec
    ensures SweptNode(f, a, node) == SweptNode(f, b, node)
  {
  }

  lemma CachedNodes(w: World, f: Faults, rule: Rule)
    requires NodesListed(w.nodes, w.order) && FaultFree(f)
    ensures EnforceCached(w, f, rule).world.nodes
            == if rule.spec.dryRun then w.nodes
               else map n | n in w.nodes :: SweptNode(f, WithDryRun(rule, NoResults), w.nodes[n])
  {
    hide Swept, SweptNode, Publish, DryRunOf;
    SweptNodes(f, WithDryRun(rule, NoResults), w.nodes, w.order);
    assert |Listed(w.nodes, w.order)| == |w.order|;
  }

  lemma SweptAfterLeaving(w: World, f: Faults, rule: Rule, n: string, left: Node)
    requires n in w.nodes && rule.name in w.rules && rule.spec == w.rules[rule.name].spec
             && w.rules[rule.name].name == rule.name
    requires left == if Leaves(w, rule.name, w.nodes[n]) && HasTaint(w.nodes[n].taints, rule.spec.taint)
                     then w.nodes[n].(taints := Others(w.nodes[n].taints, rule.spec.taint)) else w.nodes[n]
    ensures (if rule.spec.dryRun then left else SweptNode(f, WithDryRun(rule, NoResults), left))
            == ReconciledNode(w, f, rule.name, w.nodes[n])
  {
  }

  lemma EnforcedNodes(w: World, f: Faults, rule: Rule)
    requires WellFormed(w) && FaultFree(f)
    requires rule.name in w.rules && rule == w.rules[rule.name].(finalizers := rule.finalizers)
    requires ChangeNoticed(w, rule.name) ==> S.ValidSelector(w.cache[rule.name].spec.nodeSelector)
    ensures Enforce(w, f, rule).world.nodes == map n | n in w.nodes :: ReconciledNode(w, f, rule.name, w.nodes[n])
  {
    hide LeaveOld, EnforceCached, HasTaint, Others, SweptNode, ReconciledNode, Leaves, ChangeNoticed, S.ValidSelector;
    LeftNodes(w, f, rule);
    var left := LeaveOld(w, f, rule).world;
    assert NodesListed(left.nodes, left.order);
    CachedNodes(left.(cache := w.cache[rule.name := rule]), f, rule);
    forall n | n in w.nodes
      ensures (if rule.spec.dryRun then left.nodes[n] else SweptNode(f, WithDryRun(rule, NoResults), left.nodes[n]))
              == ReconciledNode(w, f, rule.name, w.nodes[n])
    {
      SweptAfterLeaving(w, f, rule, n, left.nodes[n]);
    }
  }

  /** The nodes after a failure-free reconcile of a live rule: each as ReconciledNode says. */
  lemma ReconciledNodes(w: World, f: Faults, r: string)
    requires WellFormed(w) && FaultFree(f) && r in w.rules && !w.rules[r].deleting
    requires ChangeNoticed(w, r) ==> S.ValidSelector(w.cache[r].spec.nodeSelector)
    ensures ReconcileRule(w, f, r).world.nodes == map n | n in w.nodes :: ReconciledNode(w, f, r, w.nodes[n])
  {
    hide Enforce, Finalize, Act, HasTaint, Others, S.SelectorChanged, S.Matches, S.ValidSelector;
    var rule := w.rules[r];
    if FINALIZER in rule.finalizers {
      EnforcedNodes(w, f, rule);
    } else {
      var rule1 := rule.(finalizers := rule.finalizers + [FINALIZER]);
      var w1 := w.(rules := w.rules[r := rule1]);
      EnforcedNodes(w1, f, rule1);
      forall n | n in w.nodes
        ensures ReconciledNode(w1, f, r, w.nodes[n]) == ReconciledNode(w, f, r, w.nodes[n])
      {
        ActIgnoresMeta(f, rule1, rule, w.nodes[n]);
      }
    }
  }

  /** One enforcement whose calls are accepted, in full. */
  lemma ActExact(f: Faults, rule: Rule, node: Node)
    requires FaultFree(f)
    ensures var after, p := Act(f, rule, node), rule.spec.taint;
            var ready, has := AllSatisfied(rule.spec.conditions, node.conditions), HasTaint(node.taints, p);
            && after.taints == (if ready then Others(node.taints, p) else if has then node.taints
                                else node.taints + [p])
            && after.annotations
               == if ready && has && rule.spec.enforcementMode == BOOTSTRAP_ONLY
                 && LatchKey(rule.name) !in node.annotations
                  then node.annotations[LatchKey(rule.name) := "true"] else node.annotations
  {
    hide HasTaint, AllSatisfied, LatchKey;
    if !HasTaint(node.taints, rule.spec.taint) {
      NothingToRemove(node.taints, rule.spec.taint);
    }
  }

  /**
   * The full effect of a failure-free reconcile of a live rule on one node. Enforced matching nodes
   * carry the taint exactly while some condition is unmet, with the rule's value where it is new; nodes
   * that left the selector by a noticed change lose it; every other taint stays, in order. Nothing else
   * changes, except that a bootstrap-only rule marks the node it takes the taint off.
   */
  lemma FullEffect(w: World, f: Faults, r: string, n: string)
    requires WellFormed(w) && FaultFree(f) && r in w.rules && !w.rules[r].deleting && n in w.nodes
    requires ChangeNoticed(w, r) ==> S.ValidSelector(w.cache[r].spec.nodeSelector)
    ensures n in ReconcileRule(w, f, r).world.nodes
    ensures var spec, before, after := w.rules[r].spec, w.nodes[n], ReconcileRule(w, f, r).world.nodes[n];
            var applies := S.Applies(spec.nodeSelector, before.labels);
            && (applies && !spec.dryRun ==>
                  (HasTaint(after.taints, spec.taint) <==> !AllSatisfied(spec.conditions, before.conditions)))
            && (applies && spec.dryRun ==> after == before)
            && (Leaves(w, r, before) ==> !HasTaint(after.taints, spec.taint))
            && (!applies && !Leaves(w, r, before) ==> after == before)
            && Others(after.taints, spec.taint) == Others(before.taints, spec.taint)
            && after == before.(taints := after.taints, annotations := after.annotations)
    ensures var spec, before, after := w.rules[r].spec, w.nodes[n], ReconcileRule(w, f, r).world.nodes[n];
            var enforced := S.Applies(spec.nodeSelector, before.labels) && !spec.dryRun;
            var ready, has := AllSatisfied(spec.conditions, before.conditions), HasTaint(before.taints, spec.taint);
            && after.taints
               == (if Leaves(w, r, before) || (enforced && ready) then Others(before.taints, spec.taint)
                   else if enforced && !has then before.taints + [spec.taint] else before.taints)
            && after.annotations
               == if && enforced && ready && has && spec.enforcementMode == BOOTSTRAP_ONLY
                     && LatchKey(r) !in before.annotations
                  then before.annotations[LatchKey(r) := "true"] else before.annotations
  {
    hide ReconcileRule, Act, HasTaint, Others, AllSatisfied, ChangeNoticed, S.Applies, S.Matches, LatchKey;
    ReconciledNodes(w, f, r);
    ActMeaning(f, w.rules[r], w.nodes[n]);
    ActExact(f, w.rules[r], w.nodes[n]);
    OthersFree(w.nodes[n].taints, w.rules[r].spec.taint);
    if !HasTaint(w.nodes[n].taints, w.rules[r].spec.taint) {
      NothingToRemove(w.nodes[n].taints, w.rules[r].spec.taint);
    }
  }

  // ----- Status, under any pattern of failures

  predicate EvaluatedOk(f: Faults, rule: Rule, node: Node) {
    && S.Applies(rule.spec.nodeSelector, node.labels)
    && (Decide(rule.spec, node) == Keep || !f(PatchTaints(node.name, rule.name)))
  }

  /** One result per required condition in order, and the taint present while some condition is unmet. */
  function EvaluationOf(rule: Rule, node: Node): NodeEvaluation {
    NodeEvaluation(node.name, ResultsFor(rule.spec.conditions, node.conditions),
                   if AllSatisfied(rule.spec.conditions, node.conditions) then ABSENT else PRESENT)
  }

  lemma RecordedEvaluation(f: Faults, rule: Rule, nodes: Nodes, local: Node)
    requires local.name in nodes && Current(local, nodes[local.name])
    ensures var before, after := rule.status, EvaluateAndRecord(f, rule, nodes, local).rule.status;
            if Decide(rule.spec, local) == Keep || !f(PatchTaints(local.name, rule.name)) then
              after == before.(nodeEvaluations := Upsert(before.nodeEvaluations, EvaluationOf(rule, local)))
            else
              after == before.(failedNodes :=
                               WithFailure(before.failedNodes, NodeFailure(local.name, "EvaluationError")))
  {
    hide HasTaint, AllSatisfied, Others, Enforced, Upsert, WithFailure, ResultsFor;
    EnforcedMeaning(rule.spec, local);
  }

  /** The one entry for a node after the first i iterations, or what was there before. */
  ghost predicate EntryAfter(f: Faults, rule: Rule, nodes: Nodes, done: seq<string>, x: NodeEvaluation) {
    if x.nodeName in done && x.nodeName in nodes && EvaluatedOk(f, rule, nodes[x.nodeName])
    then x == EvaluationOf(rule, nodes[x.nodeName]) else x in rule.status.nodeEvaluations
  }

  function AppliesTo(nodes: Nodes, s: Selector): string -> bool {
    (n: string) => n in nodes && S.Applies(s, nodes[n].labels)
  }

  /**
   * Through the whole node loop evaluations stay unique by node; each successfully evaluated node has
   * exactly its own new entry, every other node keeps what it had, and the applied nodes are the
   * matching names in listing order.
   */
  lemma {:induction false} SweptStatus(f: Faults, rule: Rule, nodes: Nodes, order: seq<string>, i: nat)
    requires NodesListed(nodes, order) && i <= |order| && UniqueEvaluations(rule.status.nodeEvaluations)
    ensures var s := Swept(f, rule, nodes, Listed(nodes, order), i);
            && UniqueEvaluations(s.rule.status.nodeEvaluations)
            && (forall x: NodeEvaluation :: x in s.rule.status.nodeEvaluations <==>
                  EntryAfter(f, rule, nodes, order[..i], x))
            && s.applied == Filter(order[..i], AppliesTo(nodes, rule.spec.nodeSelector))
  {
    hide EvaluateAndRecord, UniqueEvaluations, Upsert, EvaluatedOk, EvaluationOf;
    if i > 0 {
      SweptStatus(f, rule, nodes, order, i - 1);
      SweptStatusStep(f, rule, nodes, order, i - 1);
    }
  }

  predicate NeedsPatch(rule: Rule, node: Node) {
    S.Applies(rule.spec.nodeSelector, node.labels) && Decide(rule.spec, node) != Keep
  }

  /** All applied nodes were managed successfully exactly when no patch that a matching node needs was rejected. */
  lemma AppliedExact(f: Faults, rule: Rule, nodes: Nodes, order: seq<string>)
    requires NodesListed(nodes, order) && UniqueEvaluations(rule.status.nodeEvaluations)
    ensures var s := Swept(f, rule, nodes, Listed(nodes, order), |order|);
            (forall n :: n in s.applied ==> n in nodes && EvaluatedOk(f, rule, nodes[n]))
            <==> forall n :: n in nodes && NeedsPatch(rule, nodes[n]) ==> !f(PatchTaints(n, rule.name))
  {
    hide Swept, Decide, S.Applies, EntryAfter, UniqueEvaluations;
    SweptStatus(f, rule, nodes, order, |order|);
    assert order[..|order|] == order;
    assert forall n :: n in order <==> n in Elems(order);
  }

  lemma SweptStatusStep(f: Faults, rule: Rule, nodes: Nodes, order: seq<string>, i: nat)
    requires NodesListed(nodes, order) && i < |order|
    requires var s := Swept(f, rule, nodes, Listed(nodes, order), i);
             && UniqueEvaluations(s.rule.status.nodeEvaluations)
             && (forall x: NodeEvaluation :: x in s.rule.status.nodeEvaluations <==>
                   EntryAfter(f, rule, nodes, order[..i], x))
             && s.applied == Filter(order[..i], AppliesTo(nodes, rule.spec.nodeSelector))
    ensures var s := Swept(f, rule, nodes, Listed(nodes, order), i + 1);
            && UniqueEvaluations(s.rule.status.nodeEvaluations)
            && (forall x: NodeEvaluation :: x in s.rule.status.nodeEvaluations <==>
                  EntryAfter(f, rule, nodes, order[..i + 1], x))
            && s.applied == Filter(order[..i + 1], AppliesTo(nodes, rule.spec.nodeSelector))
  {
    hide EvaluateAndRecord, UniqueEvaluations, Upsert, EvaluatedOk, EvaluationOf, EntryAfter, S.Applies, Filter;
    var s, node := Swept(f, rule, nodes, Listed(nodes, order), i), nodes[order[i]];
    ListedAt(nodes, order, i);
    SweptPointwise(f, rule, nodes, order, i);
    FilterStep(order, AppliesTo(nodes, rule.spec.nodeSelector), i);
    OkApplies(f, rule, node);
    if S.Applies(rule.spec.nodeSelector, node.labels) {
      StepRecords(f, s.rule, rule, s.nodes, node);
    }
    forall x: NodeEvaluation
      ensures EntryAfter(f, rule, nodes, order[..i + 1], x) <==>
                if x.nodeName == order[i] && EvaluatedOk(f, rule, node) then x == EvaluationOf(rule, node)
                else EntryAfter(f, rule, nodes, order[..i], x)
    {
      EntryExtends(f, rule, nodes, order, i, x);
    }
  }

  lemma OkApplies(f: Faults, rule: Rule, node: Node)
    ensures EvaluatedOk(f, rule, node) ==> S.Applies(rule.spec.nodeSelector, node.labels)
  {
  }

  lemma EntryExtends(f: Faults, rule: Rule, nodes: Nodes, order: seq<string>, i: nat, x: NodeEvaluation)
    requires NodesListed(nodes, order) && i < |order| && order[i] in nodes
    ensures EntryAfter(f, rule, nodes, order[..i + 1], x) <==>
              if x.nodeName == order[i] && EvaluatedOk(f, rule, nodes[order[i]])
                then x == EvaluationOf(rule, nodes[order[i]])
              else EntryAfter(f, rule, nodes, order[..i], x)
  {
    hide EvaluatedOk, EvaluationOf;
    ListedAt(nodes, order, i);
  }

  /** One evaluation replaces the node's entry, or leaves all entries. */
  lemma StepRecords(f: Faults, now: Rule, rule: Rule, nodes: Nodes, node: Node)
    requires now == rule.(status := now.status) && UniqueEvaluations(now.status.nodeEvaluations)
    requires node.name in nodes && Current(node, nodes[node.name]) && S.Applies(rule.spec.nodeSelector, node.labels)
    ensures var before, after := now.status.nodeEvaluations,
            EvaluateAndRecord(f, now, nodes, node).rule.status.nodeEvaluations;
            && UniqueEvaluations(after)
            && forall x: NodeEvaluation :: x in after <==>
                 if x.nodeName == node.name && EvaluatedOk(f, rule, node) then x == EvaluationOf(rule, node)
                   else x in before
  {
    hide EvaluateAndRecord, Upsert, Decide, S.Applies, ResultsFor, AllSatisfied;
    RecordedEvaluation(f, now, nodes, node);
    UpsertMeaning(now.status.nodeEvaluations, EvaluationOf(rule, node));
    UniqueEntry(Upsert(now.status.nodeEvaluations, EvaluationOf(rule, node)), EvaluationOf(rule, node));
  }

  lemma UniqueEntry(evals: seq<NodeEvaluation>, e: NodeEvaluation)
    requires e in evals
    ensures UniqueEvaluations(evals) ==> forall x :: x in evals && x.nodeName == e.nodeName ==> x == e
  {
  }

  lemma EvaluateAccepted(f: Faults, rule: Rule, nodes: Nodes, local: Node)
    requires local.name != "" && SchemaAccepts(rule.status)
    ensures SchemaAccepts(EvaluateAndRecord(f, rule, nodes, local).rule.status)
  {
    hide SchemaAccepts, Decide, Upsert, WithFailure;
    var results := ResultsFor(rule.spec.conditions, local.conditions);
    UpsertAccepted(rule.status, NodeEvaluation(local.name, results, PRESENT));
    UpsertAccepted(rule.status, NodeEvaluation(local.name, results, ABSENT));
    WithFailureAccepted(rule.status, NodeFailure(local.name, "EvaluationError"));
  }

  /** Starting from an accepted status, a sweep over named nodes composes one that is accepted again. */
  lemma {:induction false} SweptAccepted(f: Faults, rule: Rule, nodes: Nodes, order: seq<string>, i: nat)
    requires NodesListed(nodes, order) && "" !in nodes && i <= |order| && SchemaAccepts(rule.status)
    ensures SchemaAccepts(Swept(f, rule, nodes, Listed(nodes, order), i).rule.status)
  {
    hide SchemaAccepts, EvaluateAndRecord;
    if i > 0 {
      SweptAccepted(f, rule, nodes, order, i - 1);
      ListedAt(nodes, order, i - 1);
      var s := Swept(f, rule, nodes, Listed(nodes, order), i - 1);
      EvaluateAccepted(f, s.rule, s.nodes, nodes[order[i - 1]]);
    }
  }

  // ----- Dry run against enforcement

  function TaintAppears(before: Nodes, after: Nodes, p: Taint): string -> bool {
    (n: string) => n in before && n in after && !HasTaint(before[n].taints, p) && HasTaint(after[n].taints, p)
  }

  function TaintDisappears(before: Nodes, after: Nodes, p: Taint): string -> bool {
    (n: string) => n in before && n in after && HasTaint(before[n].taints, p) && !HasTaint(after[n].taints, p)
  }

  predicate RecordsMissing(e: NodeEvaluation) {
    exists r :: r in e.conditionResults && r.missing
  }

  /** Applied nodes whose recorded results contain a missing condition. */
  ghost function MissingRecorded(s: Sweep): string -> bool {
    (n: string) =>
      n in s.applied && exists e :: e in s.rule.status.nodeEvaluations && e.nodeName == n && RecordsMissing(e)
  }

  /** Counting listed nodes is counting their names. */
  lemma {:induction false} CountListed(nodes: Nodes, order: seq<string>, p: Node -> bool, q: string -> bool)
    requires Covered(nodes, order)
    requires forall n :: n in order ==> p(nodes[n]) == q(n)
    ensures Count(Listed(nodes, order), p) == Count(order, q)
  {
    hide Filter;
    FilterNone(Listed(nodes, []), p);
    FilterNone([], q);
    if order != [] {
      var k, items := |order| - 1, Listed(nodes, order);
      assert forall n :: n in order[..k] ==> n in order;
      CountListed(nodes, order[..k], p, q);
      assert items[..k] == Listed(nodes, order[..k]);
      FilterStep(items, p, k);
      FilterStep(order, q, k);
      assert items[..k + 1] == items && order[..k + 1] == order;
      assert items[k] == nodes[order[k]] && order[k] in order;
    }
  }

  lemma Int32Small(x: nat)
    requires x < TWO_31
    ensures Int32(x) == x
  {
  }

  lemma MissingResults(reqs: seq<ConditionRequirement>, conds: seq<Condition>)
    ensures (exists r :: r in ResultsFor(reqs, conds) && r.missing) <==> SomeMissing(reqs, conds)
  {
    if SomeMissing(reqs, conds) {
      var i :| 0 <= i < |reqs| && ConditionStatus(conds, reqs[i].ctype) == UNKNOWN;
      assert ResultsFor(reqs, conds)[i].missing;
    }
  }

  lemma TaintsPredicted(f: Faults, rule: Rule, nodes: Nodes, order: seq<string>, n: string)
    requires NodesListed(nodes, order) && FaultFree(f) && n in nodes
    ensures var s := Swept(f, rule, nodes, Listed(nodes, order), |order|);
            && WouldAdd(rule.spec)(nodes[n]) == TaintAppears(nodes, s.nodes, rule.spec.taint)(n)
            && WouldRemove(rule.spec)(nodes[n]) == TaintDisappears(nodes, s.nodes, rule.spec.taint)(n)
  {
    hide Swept, Act, HasTaint, AllSatisfied, Others;
    SweptNodes(f, rule, nodes, order);
    ActMeaning(f, rule, nodes[n]);
  }

  lemma ResultsPredicted(f: Faults, rule: Rule, nodes: Nodes, order: seq<string>, n: string)
    requires NodesListed(nodes, order) && FaultFree(f) && UniqueEvaluations(rule.status.nodeEvaluations) && n in nodes
    ensures var s := Swept(f, rule, nodes, Listed(nodes, order), |order|);
            && Affected(rule.spec)(nodes[n]) == (n in s.applied)
            && Risky(rule.spec)(nodes[n]) == MissingRecorded(s)(n)
  {
    hide Swept, HasTaint, AllSatisfied, SomeMissing, ResultsFor, UniqueEvaluations, EntryAfter;
    var s := Swept(f, rule, nodes, Listed(nodes, order), |order|);
    assert n in Elems(order) && order[..|order|] == order;
    SweptStatus(f, rule, nodes, order, |order|);
    if S.Applies(rule.spec.nodeSelector, nodes[n].labels) {
      var e := EvaluationOf(rule, nodes[n]);
      MissingResults(rule.spec.conditions, nodes[n].conditions);
      forall x: NodeEvaluation | x.nodeName == n
        ensures EntryAfter(f, rule, nodes, order[..|order|], x) <==> x == e
      {
        OwnEntry(f, rule, nodes, order, x);
      }
    }
  }

  lemma OwnEntry(f: Faults, rule: Rule, nodes: Nodes, order: seq<string>, x: NodeEvaluation)
    requires NodesListed(nodes, order) && FaultFree(f) && x.nodeName in nodes
    requires S.Applies(rule.spec.nodeSelector, nodes[x.nodeName].labels)
    ensures EntryAfter(f, rule, nodes, order[..|order|], x) <==> x == EvaluationOf(rule, nodes[x.nodeName])
  {
  }

  /** The four counters of a dry run are what a failure-free enforcement of the same rule then does. */
  lemma DryRunPredicts(f: Faults, rule: Rule, nodes: Nodes, order: seq<string>)
    requires NodesListed(nodes, order) && FaultFree(f) && UniqueEvaluations(rule.status.nodeEvaluations)
    requires |order| < TWO_31
    ensures var d, s := DryRunOf(rule.spec, Listed(nodes, order)), Swept(f, rule, nodes, Listed(nodes, order), |order|);
            && d.affectedNodes == |s.applied|
            && d.taintsToAdd == Count(order, TaintAppears(nodes, s.nodes, rule.spec.taint))
            && d.taintsToRemove == Count(order, TaintDisappears(nodes, s.nodes, rule.spec.taint))
            && d.riskyOperations == Count(order, MissingRecorded(s))
  {
    hide Swept, Affected, WouldAdd, WouldRemove, Risky, TaintAppears, TaintDisappears, MissingRecorded, AppliesTo,
      Int32;
    var items, s := Listed(nodes, order), Swept(f, rule, nodes, Listed(nodes, order), |order|);
    assert Covered(nodes, order) by {
      assert forall n :: n in order ==> n in Elems(order);
    }
    var applied := (n: string) => n in s.applied;
    forall n | n in order
      ensures Affected(rule.spec)(nodes[n]) == applied(n)
      ensures WouldAdd(rule.spec)(nodes[n]) == TaintAppears(nodes, s.nodes, rule.spec.taint)(n)
      ensures WouldRemove(rule.spec)(nodes[n]) == TaintDisappears(nodes, s.nodes, rule.spec.taint)(n)
      ensures Risky(rule.spec)(nodes[n]) == MissingRecorded(s)(n)
    {
      assert n in Elems(order);
      TaintsPredicted(f, rule, nodes, order, n);
      ResultsPredicted(f, rule, nodes, order, n);
    }
    CountListed(nodes, order, Affected(rule.spec), applied);
    CountListed(nodes, order, WouldAdd(rule.spec), TaintAppears(nodes, s.nodes, rule.spec.taint));
    CountListed(nodes, order, WouldRemove(rule.spec), TaintDisappears(nodes, s.nodes, rule.spec.taint));
    CountListed(nodes, order, Risky(rule.spec), MissingRecorded(s));
    AppliedCount(f, rule, nodes, order);
    forall x: nat | x <= |order|
      ensures Int32(x) == x
    {
      Int32Small(x);
    }
  }

  lemma AppliedCount(f: Faults, rule: Rule, nodes: Nodes, order: seq<string>)
    requires NodesListed(nodes, order) && UniqueEvaluations(rule.status.nodeEvaluations)
    ensures var s := Swept(f, rule, nodes, Listed(nodes, order), |order|);
            |s.applied| == Count(order, (n: string) => n in s.applied)
  {
    hide Swept, EntryAfter, UniqueEvaluations;
    var s, keep := Swept(f, rule, nodes, Listed(nodes, order), |order|), AppliesTo(nodes, rule.spec.nodeSelector);
    SweptStatus(f, rule, nodes, order, |order|);
    assert order[..|order|] == order;
    FilterAgree(order, keep, (n: string) => n in s.applied);
  }

  // ----- What is published

  lemma PublishPrunes(w: World, f: Faults, rule: Rule)
    requires Publish(w, f, rule).ok
    ensures var after := Publish(w, f, rule).world;
            && rule.name in after.rules
            && forall e :: e in after.rules[rule.name].status.nodeEvaluations ==> e.nodeName in w.nodes
  {
    hide Pruned;
    PrunedMeaning(w.nodes.Keys, rule.status);
  }

  lemma EnforcePublishes(w: World, f: Faults, rule: Rule)
    requires Covered(w.nodes, w.order) && Enforce(w, f, rule).ok
    ensures var after := Enforce(w, f, rule).world;
            && rule.name in after.rules && after.nodes.Keys == w.nodes.Keys
            && forall e :: e in after.rules[rule.name].status.nodeEvaluations ==> e.nodeName in w.nodes
  {
    hide Publish, LeaveOld, DryRunOf, Swept;
    var w1 := LeaveOld(w, f, rule).world.(cache := w.cache[rule.name := rule]);
    var items := Listed(w1.nodes, w1.order);
    if rule.spec.dryRun {
      PublishPrunes(w1, f, WithDryRun(rule, DryRunOf(rule.spec, items)));
    } else {
      var s := Swept(f, WithDryRun(rule, NoResults), w1.nodes, items, |items|);
      PublishPrunes(w1.(nodes := s.nodes), f, SweepDone(s));
    }
  }

  /** A successful reconcile of a live rule leaves no stored evaluation of a node that does not exist. */
  lemma PublishedNodesExist(w: World, f: Faults, r: string)
    requires WellFormed(w) && r in w.rules && !w.rules[r].deleting
    requires ReconcileRule(w, f, r).ok
    ensures var after := ReconcileRule(w, f, r).world;
            && r in after.rules && after.nodes.Keys == w.nodes.Keys
            && forall e :: e in after.rules[r].status.nodeEvaluations ==> e.nodeName in after.nodes
  {
    hide Enforce, Finalize;
    var rule := w.rules[r];
    if FINALIZER in rule.finalizers {
      EnforcePublishes(w, f, rule);
    } else {
      var rule1 := rule.(finalizers := rule.finalizers + [FINALIZER]);
      EnforcePublishes(w.(rules := w.rules[r := rule1]), f, rule1);
    }
  }

  lemma PublishFaultFree(w: World, f: Faults, rule: Rule)
    requires FaultFree(f) && rule.name in w.rules && SchemaAccepts(rule.status)
    ensures var after := Publish(w, f, rule).world;
            && rule.name in after.rules
            && after.rules[rule.name].status
               == rule.status.(nodeEvaluations := Filter(rule.status.nodeEvaluations, Exists(w.nodes.Keys)))
  {
    hide Filter, SchemaAccepts;
    FilterSameLength(rule.status.nodeEvaluations, Exists(w.nodes.Keys));
    PrunedAccepted(w.nodes.Keys, rule.status);
  }

  lemma PublishApplied(w: World, f: Faults, rule: Rule)
    requires rule.name in w.rules && !f(UpdateStatus(rule.name)) && SchemaAccepts(rule.status)
    ensures var after := Publish(w, f, rule).world;
            rule.name in after.rules && after.rules[rule.name].status.appliedNodes == rule.status.appliedNodes
  {
    hide SchemaAccepts, Filter;
    PrunedAccepted(w.nodes.Keys, rule.status);
  }

  /**
   * Whichever patches fail, the applied nodes stored for a rule are the matching ones, in listing order,
   * although a node whose patch is rejected stays as it was.
   */
  lemma AppliedStored(w: World, f: Faults, r: string)
    requires WellFormed(w) && "" !in w.nodes && r in w.rules && SchemaAccepts(w.rules[r].status) && !ChangeNoticed(w, r)
    requires !w.rules[r].deleting && !w.rules[r].spec.dryRun && FINALIZER in w.rules[r].finalizers
    requires !f(GetRule(r)) && !f(ListForProcessing(r)) && !f(UpdateStatus(r))
    ensures Covered(w.nodes, w.order)
    ensures var after := ReconcileRule(w, f, r).world;
            && r in after.rules
            && after.rules[r].status.appliedNodes == Filter(w.order, AppliesTo(w.nodes, w.rules[r].spec.nodeSelector))
            && forall n :: n in w.nodes && f(PatchTaints(n, r)) ==> n in after.nodes && after.nodes[n] == w.nodes[n]
  {
    hide Swept, Publish, SchemaAccepts, UniqueEvaluations, EntryAfter, Filter, S.Applies;
    assert forall n :: n in w.order ==> n in Elems(w.order);
    var rule := w.rules[r];
    var rule0, items := WithDryRun(rule, NoResults), Listed(w.nodes, w.order);
    var s := Swept(f, rule0, w.nodes, items, |items|);
    SweptNodes(f, rule0, w.nodes, w.order);
    AcceptedUnique(rule.status);
    SweptStatus(f, rule0, w.nodes, w.order, |w.order|);
    SweptAccepted(f, rule0, w.nodes, w.order, |w.order|);
    assert |items| == |w.order| && w.order[..|w.order|] == w.order;
    SweepDoneAccepted(s);
    PublishApplied(w.(cache := w.cache[r := rule], nodes := s.nodes), f, SweepDone(s));
  }

  lemma AcceptedUnique(status: Status)
    requires SchemaAccepts(status)
    ensures UniqueEvaluations(status.nodeEvaluations) && SchemaAccepts(status.(dryRunResults := NoResults))
  {
  }

  lemma SweepDoneAccepted(s: Sweep)
    requires SchemaAccepts(s.rule.status)
    ensures SchemaAccepts(SweepDone(s).status)
  {
  }

  /** The stored status of a rule enforced on these nodes, entry by entry. */
  ghost predicate StatusAgrees(nodes: Nodes, order: seq<string>, rule: Rule, status: Status) {
    && status.observedGeneration == rule.generation && status.dryRunResults == NoResults
    && status.appliedNodes == Filter(order, AppliesTo(nodes, rule.spec.nodeSelector))
    && (forall e :: e in status.nodeEvaluations ==> e.nodeName in nodes)
    && forall e: NodeEvaluation ::
         e.nodeName in nodes && S.Applies(rule.spec.nodeSelector, nodes[e.nodeName].labels) ==>
           (e in status.nodeEvaluations <==> e == EvaluationOf(rule, nodes[e.nodeName]))
  }

  lemma CachedStatus(w: World, f: Faults, rule: Rule)
    requires NodesListed(w.nodes, w.order) && "" !in w.nodes && FaultFree(f) && rule.name in w.rules
    requires !rule.spec.dryRun && SchemaAccepts(rule.status)
    ensures var after := EnforceCached(w, f, rule).world;
            rule.name in after.rules && StatusAgrees(w.nodes, w.order, rule, after.rules[rule.name].status)
  {
    hide Swept, Publish, EvaluationOf, S.Applies, Filter, EntryAfter, UniqueEvaluations;
    var rule0, items := WithDryRun(rule, NoResults), Listed(w.nodes, w.order);
    var s := Swept(f, rule0, w.nodes, items, |items|);
    SweptAccepted(f, rule0, w.nodes, w.order, |w.order|);
    assert |items| == |w.order|;
    PublishFaultFree(w.(nodes := s.nodes), f, SweepDone(s));
    SweptStatus(f, rule0, w.nodes, w.order, |w.order|);
    assert w.order[..|w.order|] == w.order;
    forall x: NodeEvaluation | x.nodeName in w.nodes && S.Applies(rule.spec.nodeSelector, w.nodes[x.nodeName].labels)
      ensures EntryAfter(f, rule0, w.nodes, w.order, x) <==> x == EvaluationOf(rule, w.nodes[x.nodeName])
    {
      OwnEntry(f, rule0, w.nodes, w.order, x);
      SameEvaluation(rule0, rule, w.nodes[x.nodeName]);
    }
  }

  lemma SameEvaluation(a: Rule, b: Rule, node: Node)
    requires a.spec == b.spec
    ensures EvaluationOf(a, node) == EvaluationOf(b, node)
  {
  }

  /** Nodes that differ only outside the selector give the same status. */
  lemma StatusAgreesOnMatching(left: Nodes, nodes: Nodes, order: seq<string>, a: Rule, b: Rule, status: Status)
    requires NodesListed(left, order) && NodesListed(nodes, order)
    requires a.spec == b.spec && a.generation == b.generation
    requires forall n :: n in nodes ==> left[n].labels == nodes[n].labels
    requires forall n :: n in nodes && S.Applies(a.spec.nodeSelector, nodes[n].labels) ==> left[n] == nodes[n]
    ensures StatusAgrees(left, order, a, status) ==> StatusAgrees(nodes, order, b, status)
  {
    hide EvaluationOf, S.Applies, Filter;
    FilterAgree(order, AppliesTo(left, a.spec.nodeSelector), AppliesTo(nodes, b.spec.nodeSelector));
    forall n | n in nodes
      ensures EvaluationOf(a, nodes[n]) == EvaluationOf(b, nodes[n])
    {
      SameEvaluation(a, b, nodes[n]);
    }
  }

  lemma EnforcedStatus(w: World, f: Faults, rule: Rule, original: Rule)
    requires WellFormed(w) && FaultFree(f) && rule.name in w.rules && rule == w.rules[rule.name]
    requires original.spec == rule.spec && original.generation == rule.generation
    requires !rule.spec.dryRun && SchemaAccepts(rule.status) && "" !in w.nodes
    requires ChangeNoticed(w, rule.name) ==> S.ValidSelector(w.cache[rule.name].spec.nodeSelector)
    ensures var after := Enforce(w, f, rule).world;
            rule.name in after.rules && StatusAgrees(w.nodes, w.order, original, after.rules[rule.name].status)
  {
    hide LeaveOld, EnforceCached, StatusAgrees, HasTaint, Others, S.ValidSelector, S.SelectorChanged, S.Matches,
      SchemaAccepts;
    LeftNodes(w, f, rule);
    var left := LeaveOld(w, f, rule).world;
    CachedStatus(left.(cache := w.cache[rule.name := rule]), f, rule);
    StatusAgreesOnMatching(left.nodes, w.nodes, w.order, rule, original,
                           Enforce(w, f, rule).world.rules[rule.name].status);
  }

  /**
   * After a failure-free reconcile of a live, enforced rule the stored status agrees with the cluster:
   * the applied nodes are the matching ones in listing order, each has exactly one evaluation, with a
   * result per required condition in order, saying the taint is present exactly when the node carries
   * it, and no evaluation names a node that does not exist.
   */
  lemma StatusMatchesCluster(w: World, f: Faults, r: string)
    requires WellFormed(w) && FaultFree(f) && r in w.rules && !w.rules[r].deleting && !w.rules[r].spec.dryRun
    requires SchemaAccepts(w.rules[r].status) && "" !in w.nodes
    requires ChangeNoticed(w, r) ==> S.ValidSelector(w.cache[r].spec.nodeSelector)
    ensures var after := ReconcileRule(w, f, r).world;
            && r in after.rules && StatusAgrees(w.nodes, w.order, w.rules[r], after.rules[r].status)
            && after.nodes.Keys == w.nodes.Keys
            && forall n :: n in w.nodes && S.Applies(w.rules[r].spec.nodeSelector, w.nodes[n].labels) ==>
                 (EvaluationOf(w.rules[r], w.nodes[n]).taintStatus == PRESENT
                  <==> HasTaint(after.nodes[n].taints, w.rules[r].spec.taint))
  {
    hide Enforce, Finalize, StatusAgrees, HasTaint, Others, AllSatisfied, S.Applies, S.Matches, S.ValidSelector,
      S.SelectorChanged, SchemaAccepts;
    var rule := w.rules[r];
    if FINALIZER in rule.finalizers {
      EnforcedStatus(w, f, rule, rule);
    } else {
      var rule1 := rule.(finalizers := rule.finalizers + [FINALIZER]);
      EnforcedStatus(w.(rules := w.rules[r := rule1]), f, rule1, rule);
    }
    ReconciledNodes(w, f, r);
    forall n | n in w.nodes && S.Applies(rule.spec.nodeSelector, w.nodes[n].labels)
      ensures HasTaint(ReconcileRule(w, f, r).world.nodes[n].taints, rule.spec.taint)
              <==> !AllSatisfied(rule.spec.conditions, w.nodes[n].conditions)
    {
      FullEffect(w, f, r, n);
    }
  }

  // ----- The global off-switch

  lemma {:induction false} SwitchStopsNodePass(f: Faults, s: Pass, sequence: seq<string>, i: nat)
    requires i <= |sequence| && Elems(sequence) <= s.cache.Keys
    ensures PassTo(f, true, s, sequence, i) == s
  {
    if i > 0 {
      SwitchStopsNodePass(f, s, sequence, i - 1);
    }
  }

  /**
   * With the switch on, a node reconcile changes nothing at all, whatever fails. A reconcile of a live
   * rule that is not in dry run still enforces it: a matching node is patched exactly if its taint does
   * not fit its conditions, and fits them afterwards.
   */
  lemma SwitchStopsNodesOnly(w: World, f: Faults, g: Faults, n: string, sequence: seq<string>, r: string)
    requires WellFormed(w) && w.globalDryRun && n in w.nodes && Enumerates(sequence, w.cache, w.nodes[n].labels)
    requires FaultFree(f) && r in w.rules && !w.rules[r].deleting && !w.rules[r].spec.dryRun
    requires S.Applies(w.rules[r].spec.nodeSelector, w.nodes[n].labels)
    requires ChangeNoticed(w, r) ==> S.ValidSelector(w.cache[r].spec.nodeSelector)
    ensures ReconcileNode(w, g, n, sequence) == w
    ensures n in ReconcileRule(w, f, r).world.nodes
    ensures var spec, before, after := w.rules[r].spec, w.nodes[n], ReconcileRule(w, f, r).world.nodes[n];
            && (after != before
                <==> HasTaint(before.taints, spec.taint) == AllSatisfied(spec.conditions, before.conditions))
            && (HasTaint(after.taints, spec.taint) <==> !AllSatisfied(spec.conditions, before.conditions))
  {
    hide ReconcileRule, HasTaint, AllSatisfied, Others, Enforced, S.Applies, PassTo;
    SwitchStopsNodePass(g, Pass(w.nodes, w.rules, w.cache, w.nodes[n]), sequence, |sequence|);
    FullEffect(w, f, r, n);
    ReconciledNodes(w, f, r);
  }
}
