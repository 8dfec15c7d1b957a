/** What a rule reconcile stores, forgets and reports, whatever fails. */
module RuleOutcome {
  import opened Api
  import opened Cluster
  import opened Evaluation
  import opened RulePass
  import opened Seqs
  import opened StatusLists
  import NodePass
  import PairChanges
  import Runs
  import S = Selectors

  // ----- Which calls a live reconcile needs

  /** Nothing visibly left, or its cleanup is accepted: listing, old selector, and each removal. */
  ghost predicate CleanupAccepted(w: World, f: Faults, r: string)
    requires r in w.rules
  {
    ChangeNoticed(w, r) ==>
      && !f(ListForSelector(r)) && S.ValidSelector(w.cache[r].spec.nodeSelector)
      && forall n :: n in w.nodes && Leaves(w, r, w.nodes[n]) && HasTaint(w.nodes[n].taints, w.rules[r].spec.taint)
                     ==> !f(PatchTaints(n, r))
  }

  /** The rule is read, and gets the finalizer if it has none. */
  predicate FinalizerEnsured(w: World, f: Faults, r: string)
    requires r in w.rules
  {
    !f(GetRule(r)) && (FINALIZER in w.rules[r].finalizers || (!f(AddFinalizer(r)) && !f(RefreshRule(r))))
  }

  /** All calls up to the status write of a live rule are accepted. */
  ghost predicate StatusWritten(w: World, f: Faults, r: string)
    requires r in w.rules
  {
    && FinalizerEnsured(w, f, r) && CleanupAccepted(w, f, r)
    && !f(if w.rules[r].spec.dryRun then ListForDryRun(r) else ListForProcessing(r)) && !f(UpdateStatus(r))
  }

  lemma LeftExact(w: World, f: Faults, rule: Rule)
    requires WellFormed(w) && rule.name in w.rules && rule.spec == w.rules[rule.name].spec
    ensures LeaveOld(w, f, rule).ok <==> CleanupAccepted(w, f, rule.name)
    ensures NodesListed(LeaveOld(w, f, rule).world.nodes, w.order)
  {
    hide Cleaned, HasTaint, Others, S.SelectorChanged, S.ValidSelector, S.Matches, S.Applies;
    Runs.LeftCarriers(w, f, rule, rule.spec.taint);
    if ChangeNoticed(w, rule.name) {
      var targets := LeavingTargets(w.cache[rule.name].spec.nodeSelector, rule.spec.nodeSelector);
      CleanupExact(f, rule.name, rule.spec.taint, targets, w.nodes, w.order);
      assert |Listed(w.nodes, w.order)| == |w.order|;
    }
  }

  /** Matching nodes are left alone by the cleanup. */
  lemma LeftMatching(w: World, f: Faults, rule: Rule, n: string)
    requires WellFormed(w) && rule.name in w.rules && rule.spec == w.rules[rule.name].spec && n in w.nodes
    ensures var left := LeaveOld(w, f, rule).world.nodes;
            && n in left && left[n].labels == w.nodes[n].labels
            && (S.Applies(rule.spec.nodeSelector, w.nodes[n].labels) ==> left[n] == w.nodes[n])
  {
    PairChanges.LeftKeepsPair(w, f, rule, n, rule.spec.taint);
    hide *;
  }

  // ----- Failures of a sweep

  /** The failures of one node after the rule was swept over the first i nodes. */
  function FailuresOf(f: Faults, rule: Rule, nodes: Nodes, done: seq<string>, n: string): seq<NodeFailure> {
    if n in done && n in nodes && NeedsPatch(rule, nodes[n]) && f(PatchTaints(n, rule.name))
    then [NodeFailure(n, "EvaluationError")] else Filter(rule.status.failedNodes, FailureOf(n))
  }

  lemma FailuresExtend(f: Faults, rule: Rule, nodes: Nodes, order: seq<string>, i: nat, n: string)
    requires NodesListed(nodes, order) && i < |order| && order[i] in nodes
    ensures FailuresOf(f, rule, nodes, order[..i + 1], n)
            == if n == order[i] && NeedsPatch(rule, nodes[n]) && f(PatchTaints(n, rule.name))
               then [NodeFailure(n, "EvaluationError")] else FailuresOf(f, rule, nodes, order[..i], n)
  {
    hide NeedsPatch, Filter;
    ListedAt(nodes, order, i);
  }

  lemma NothingFailed(f: Faults, rule: Rule, nodes: Nodes, n: string)
    ensures FailuresOf(f, rule, nodes, [], n) == Filter(rule.status.failedNodes, FailureOf(n))
  {
  }

  lemma SweptFailuresStep(f: Faults, rule: Rule, nodes: Nodes, order: seq<string>, i: nat, n: string)
    requires NodesListed(nodes, order) && i < |order|
    requires Filter(Swept(f, rule, nodes, Listed(nodes, order), i).rule.status.failedNodes, FailureOf(n))
             == FailuresOf(f, rule, nodes, order[..i], n)
    ensures Filter(Swept(f, rule, nodes, Listed(nodes, order), i + 1).rule.status.failedNodes, FailureOf(n))
            == FailuresOf(f, rule, nodes, order[..i + 1], n)
  {
    hide EvaluateAndRecord, NeedsPatch, Filter, FailuresOf, S.Applies;
    ListedAt(nodes, order, i);
    SweptPointwise(f, rule, nodes, order, i);
    FailuresExtend(f, rule, nodes, order, i, n);
    var s := Swept(f, rule, nodes, Listed(nodes, order), i);
    EvaluatedFailures(f, s.rule, rule, s.nodes, nodes[order[i]], n);
  }

  /** Each matching node whose needed patch is rejected has exactly that failure; all other nodes keep theirs. */
  lemma {:induction false} SweptFailures(f: Faults, rule: Rule, nodes: Nodes, order: seq<string>, i: nat, n: string)
    requires NodesListed(nodes, order) && i <= |order|
    ensures Filter(Swept(f, rule, nodes, Listed(nodes, order), i).rule.status.failedNodes, FailureOf(n))
            == FailuresOf(f, rule, nodes, order[..i], n)
  {
    hide EvaluateAndRecord, Filter, FailuresOf, S.Applies, NodesListed;
    if i == 0 {
      NothingFailed(f, rule, nodes, n);
      assert order[..0] == [];
    } else {
      SweptFailures(f, rule, nodes, order, i - 1, n);
      SweptFailuresStep(f, rule, nodes, order, i - 1, n);
    }
  }

  lemma EvaluatedFailures(f: Faults, now: Rule, rule: Rule, nodes: Nodes, node: Node, n: string)
    requires now == rule.(status := now.status) && node.name in nodes && NodePass.Current(node, nodes[node.name])
    ensures NeedsPatch(rule, node) ==> S.Applies(rule.spec.nodeSelector, node.labels)
    ensures S.Applies(rule.spec.nodeSelector, node.labels) ==>
              Filter(EvaluateAndRecord(f, now, nodes, node).rule.status.failedNodes, FailureOf(n))
              == if n == node.name && NeedsPatch(rule, node) && f(PatchTaints(n, rule.name))
                 then [NodeFailure(n, "EvaluationError")] else Filter(now.status.failedNodes, FailureOf(n))
  {
    hide EvaluateAndRecord, Decide, Filter, WithFailure, Upsert, S.Applies;
    RecordedEvaluation(f, now, nodes, node);
    WithFailureOf(now.status.failedNodes, NodeFailure(node.name, "EvaluationError"), n);
  }

  // ----- Publishing

  /** What is left of the evaluations if pruning is accepted, or not. */
  function Kept(f: Faults, r: string, nodes: Nodes, evals: seq<NodeEvaluation>): seq<NodeEvaluation> {
    if f(ListForPruning(r)) || f(PruneStatus(r)) then evals else Filter(evals, Exists(nodes.Keys))
  }

  /** Some entry names a node that does not exist. */
  predicate Stale(evals: seq<NodeEvaluation>, nodes: Nodes) {
    exists e :: e in evals && e.nodeName !in nodes
  }

  lemma PublishExact(w: World, f: Faults, rule: Rule)
    requires rule.name in w.rules && SchemaAccepts(rule.status)
    ensures var p := Publish(w, f, rule);
            if f(UpdateStatus(rule.name)) then p == Reconciled(w, false)
            else
              && p.world == w.(rules := p.world.rules) && rule.name in p.world.rules
              && p.world.rules - {rule.name} == w.rules - {rule.name}
              && p.world.rules[rule.name] == w.rules[rule.name].(status :=
                   rule.status.(nodeEvaluations := Kept(f, rule.name, w.nodes, rule.status.nodeEvaluations)))
              && (p.ok <==> !f(ListForPruning(rule.name))
                            && (Stale(rule.status.nodeEvaluations, w.nodes) ==> !f(PruneStatus(rule.name))))
  {
    hide SchemaAccepts, Filter;
    PrunedMeaning(w.nodes.Keys, rule.status);
    PrunedAccepted(w.nodes.Keys, rule.status);
    FilterSameLength(rule.status.nodeEvaluations, Exists(w.nodes.Keys));
  }

  // ----- Enforcing

  /** The evaluation of a node that was evaluated with success, or whatever was there before. */
  predicate EvaluationNow(f: Faults, rule: Rule, nodes: Nodes, x: NodeEvaluation) {
    if x.nodeName in nodes && EvaluatedOk(f, rule, nodes[x.nodeName])
    then x == EvaluationOf(rule, nodes[x.nodeName]) else x in rule.status.nodeEvaluations
  }

  /** Exactly the matching nodes whose needed patch was rejected have a new failure; other nodes keep theirs. */
  ghost predicate FailuresNow(f: Faults, rule: Rule, nodes: Nodes, failures: seq<NodeFailure>) {
    forall n :: Filter(failures, FailureOf(n)) ==
                if n in nodes && NeedsPatch(rule, nodes[n]) && f(PatchTaints(n, rule.name))
                then [NodeFailure(n, "EvaluationError")] else Filter(rule.status.failedNodes, FailureOf(n))
  }

  /** Evaluations are up to date, and those of missing nodes gone if pruning is accepted. */
  ghost predicate EvaluationsNow(f: Faults, rule: Rule, nodes: Nodes, evals: seq<NodeEvaluation>) {
    forall x :: x in evals <==>
                && EvaluationNow(f, rule, nodes, x)
                && (x.nodeName in nodes || f(ListForPruning(rule.name)) || f(PruneStatus(rule.name)))
  }

  /** The status of an enforced rule on these nodes, part by part, whatever patches failed. */
  ghost predicate EnforcedStatus(f: Faults, rule: Rule, nodes: Nodes, order: seq<string>, status: Status) {
    && status.observedGeneration == rule.generation && status.dryRunResults == NoResults
    && status.appliedNodes == Filter(order, AppliesTo(nodes, rule.spec.nodeSelector))
    && FailuresNow(f, rule, nodes, status.failedNodes) && EvaluationsNow(f, rule, nodes, status.nodeEvaluations)
  }

  lemma NeedsSame(a: Rule, b: Rule, nodes: Nodes, n: string)
    requires a.spec == b.spec
    ensures n in nodes ==> NeedsPatch(a, nodes[n]) == NeedsPatch(b, nodes[n])
  {
  }

  lemma EntryNow(f: Faults, a: Rule, b: Rule, nodes: Nodes, order: seq<string>, x: NodeEvaluation)
    requires a.spec == b.spec && a.name == b.name && a.status.nodeEvaluations == b.status.nodeEvaluations
    requires forall n :: n in nodes <==> n in Elems(order)
    ensures EntryAfter(f, a, nodes, order, x) <==> EvaluationNow(f, b, nodes, x)
  {
    hide ResultsFor, AllSatisfied, S.Applies, Decide;
    assert x.nodeName in nodes <==> x.nodeName in order;
  }

  lemma SweptFailuresNow(f: Faults, rule: Rule, nodes: Nodes, order: seq<string>)
    requires NodesListed(nodes, order)
    ensures var s := Swept(f, WithDryRun(rule, NoResults), nodes, Listed(nodes, order), |order|);
            FailuresNow(f, rule, nodes, s.rule.status.failedNodes)
  {
    hide Swept, NeedsPatch, Filter;
    var rule0 := WithDryRun(rule, NoResults);
    assert order[..|order|] == order && forall n :: n in nodes <==> n in Elems(order);
    forall n
      ensures Filter(Swept(f, rule0, nodes, Listed(nodes, order), |order|).rule.status.failedNodes, FailureOf(n)) ==
              if n in nodes && NeedsPatch(rule, nodes[n]) && f(PatchTaints(n, rule.name))
              then [NodeFailure(n, "EvaluationError")] else Filter(rule.status.failedNodes, FailureOf(n))
    {
      SweptFailures(f, rule0, nodes, order, |order|, n);
      NeedsSame(rule0, rule, nodes, n);
      assert n in nodes ==> n in order;
    }
  }

  lemma SweptEvaluationsNow(f: Faults, rule: Rule, nodes: Nodes, order: seq<string>)
    requires NodesListed(nodes, order) && UniqueEvaluations(rule.status.nodeEvaluations)
    ensures var s := Swept(f, WithDryRun(rule, NoResults), nodes, Listed(nodes, order), |order|);
            forall x :: x in s.rule.status.nodeEvaluations <==> EvaluationNow(f, rule, nodes, x)
  {
    hide Swept, UniqueEvaluations, EntryAfter, EvaluationNow;
    var rule0 := WithDryRun(rule, NoResults);
    assert order[..|order|] == order && forall n :: n in nodes <==> n in Elems(order);
    SweptStatus(f, rule0, nodes, order, |order|);
    forall x: NodeEvaluation
      ensures EntryAfter(f, rule0, nodes, order, x) <==> EvaluationNow(f, rule, nodes, x)
    {
      EntryNow(f, rule0, rule, nodes, order, x);
    }
  }

  lemma StaleNow(f: Faults, rule: Rule, nodes: Nodes, evals: seq<NodeEvaluation>)
    requires forall x :: x in evals <==> EvaluationNow(f, rule, nodes, x)
    ensures Stale(evals, nodes) <==> Stale(rule.status.nodeEvaluations, nodes)
    ensures EvaluationsNow(f, rule, nodes, Kept(f, rule.name, nodes, evals))
  {
    hide EvaluatedOk, EvaluationOf;
    assert forall e :: Exists(nodes.Keys)(e) <==> e.nodeName in nodes;
    forall x: NodeEvaluation | x.nodeName !in nodes
      ensures x in evals <==> x in rule.status.nodeEvaluations
    {
      assert x in evals <==> EvaluationNow(f, rule, nodes, x);
    }
  }

  lemma SweptOutcome(f: Faults, rule: Rule, nodes: Nodes, order: seq<string>)
    requires NodesListed(nodes, order) && "" !in nodes && SchemaAccepts(rule.status)
    ensures var done := SweepDone(Swept(f, WithDryRun(rule, NoResults), nodes, Listed(nodes, order), |order|));
            && SchemaAccepts(done.status) && done == rule.(status := done.status)
            && (Stale(done.status.nodeEvaluations, nodes) <==> Stale(rule.status.nodeEvaluations, nodes))
            && EnforcedStatus(f, rule, nodes, order, done.status.(nodeEvaluations :=
                 Kept(f, rule.name, nodes, done.status.nodeEvaluations)))
  {
    hide Swept, SchemaAccepts, UniqueEvaluations, FailuresNow, EvaluationsNow, EvaluationNow, EntryAfter, Stale, Kept,
      Filter;
    var rule0 := WithDryRun(rule, NoResults);
    var s := Swept(f, rule0, nodes, Listed(nodes, order), |order|);
    assert order[..|order|] == order;
    AcceptedUnique(rule.status);
    SweptStatus(f, rule0, nodes, order, |order|);
    SweptAccepted(f, rule0, nodes, order, |order|);
    SweepDoneAccepted(s);
    SweptFailuresNow(f, rule, nodes, order);
    SweptEvaluationsNow(f, rule, nodes, order);
    StaleNow(f, rule, nodes, s.rule.status.nodeEvaluations);
  }

  /** What a rule reconcile with this status leaves there when it gets to write it. */
  ghost predicate StatusOutcome(f: Faults, rule: Rule, nodes: Nodes, order: seq<string>, status: Status)
    requires Covered(nodes, order)
  {
    if rule.spec.dryRun then
      status == rule.status.(dryRunResults := DryRunOf(rule.spec, Listed(nodes, order)),
                             nodeEvaluations := Kept(f, rule.name, nodes, rule.status.nodeEvaluations))
    else EnforcedStatus(f, rule, nodes, order, status)
  }

  /** Of the rules, only this one's status has changed. */
  predicate StatusOnly(after: Rules, before: Rules, r: string) {
    && r in before && r in after && after - {r} == before - {r}
    && after[r] == before[r].(status := after[r].status)
  }

  predicate PruningAccepted(f: Faults, rule: Rule, nodes: Nodes) {
    !f(ListForPruning(rule.name)) && (Stale(rule.status.nodeEvaluations, nodes) ==> !f(PruneStatus(rule.name)))
  }

  lemma CachedOutcome(w: World, f: Faults, rule: Rule)
    requires NodesListed(w.nodes, w.order) && "" !in w.nodes && rule.name in w.rules && SchemaAccepts(rule.status)
    ensures Covered(w.nodes, w.order)
    ensures var e, r := EnforceCached(w, f, rule), rule.name;
            if f(if rule.spec.dryRun then ListForDryRun(r) else ListForProcessing(r)) || f(UpdateStatus(r)) then
              !e.ok && e.world.rules == w.rules
            else
              && StatusOnly(e.world.rules, w.rules, r)
              && StatusOutcome(f, rule, w.nodes, w.order, e.world.rules[r].status)
              && (e.ok <==> PruningAccepted(f, rule, w.nodes))
  {
    hide Swept, SchemaAccepts, Publish, DryRunOf, Stale, Kept, EnforcedStatus;
    assert forall n :: n in w.order ==> n in Elems(w.order);
    var items := Listed(w.nodes, w.order);
    var s := Swept(f, WithDryRun(rule, NoResults), w.nodes, items, |items|);
    SweptOutcome(f, rule, w.nodes, w.order);
    AcceptedDryRun(rule.status, DryRunOf(rule.spec, items));
    PublishExact(w, f, WithDryRun(rule, DryRunOf(rule.spec, items)));
    PublishExact(w.(nodes := s.nodes), f, SweepDone(s));
    StaleKeys(s.nodes, w.nodes, SweepDone(s).status.nodeEvaluations, f, rule.name);
  }

  lemma AcceptedDryRun(status: Status, results: DryRunResults)
    requires SchemaAccepts(status)
    ensures SchemaAccepts(status.(dryRunResults := results))
  {
  }

  lemma StaleKeys(a: Nodes, b: Nodes, evals: seq<NodeEvaluation>, f: Faults, r: string)
    requires a.Keys == b.Keys
    ensures Stale(evals, a) == Stale(evals, b) && Kept(f, r, a, evals) == Kept(f, r, b, evals)
  {
    assert forall n :: n in a <==> n in a.Keys;
  }

  /** The nodes of the selector are the same in both, and all labels are. */
  predicate SameMatching(left: Nodes, nodes: Nodes, s: Selector) {
    && left.Keys == nodes.Keys && (forall n :: n in nodes ==> left[n].labels == nodes[n].labels)
    && forall n :: n in nodes && S.Applies(s, nodes[n].labels) ==> left[n] == nodes[n]
  }

  lemma CountMatching(left: Nodes, nodes: Nodes, order: seq<string>, s: Selector, p: Node -> bool)
    requires NodesListed(left, order) && NodesListed(nodes, order) && Covered(left, order) && Covered(nodes, order)
    requires SameMatching(left, nodes, s) && forall x: Node :: p(x) ==> S.Applies(s, x.labels)
    ensures Count(Listed(left, order), p) == Count(Listed(nodes, order), p)
  {
    hide S.Applies;
    var q := (n: string) => n in nodes && p(nodes[n]);
    CountListed(left, order, p, q);
    CountListed(nodes, order, p, q);
  }

  /** A dry run looks at matching nodes only. */
  lemma DryRunMatching(left: Nodes, nodes: Nodes, order: seq<string>, spec: Spec)
    requires NodesListed(left, order) && NodesListed(nodes, order) && Covered(left, order) && Covered(nodes, order)
    requires SameMatching(left, nodes, spec.nodeSelector)
    ensures DryRunOf(spec, Listed(left, order)) == DryRunOf(spec, Listed(nodes, order))
  {
    hide S.Applies, SameMatching, Int32, Count;
    CountMatching(left, nodes, order, spec.nodeSelector, Affected(spec));
    CountMatching(left, nodes, order, spec.nodeSelector, WouldAdd(spec));
    CountMatching(left, nodes, order, spec.nodeSelector, WouldRemove(spec));
    CountMatching(left, nodes, order, spec.nodeSelector, Risky(spec));
  }

  /** Nodes that differ only outside the selector, and rules that differ only in finalizers, have the same outcome. */
  lemma OutcomeOnMatching(f: Faults, left: Nodes, nodes: Nodes, order: seq<string>, a: Rule, b: Rule, status: Status)
    requires NodesListed(left, order) && NodesListed(nodes, order)
    requires Covered(left, order) && Covered(nodes, order)
    requires a == b.(finalizers := a.finalizers) && SameMatching(left, nodes, b.spec.nodeSelector)
    ensures StatusOutcome(f, a, left, order, status) ==> StatusOutcome(f, b, nodes, order, status)
  {
    hide NeedsPatch, EvaluatedOk, EvaluationOf, S.Applies, Filter, DryRunOf, Stale;
    DryRunMatching(left, nodes, order, b.spec);
    StaleKeys(left, nodes, b.status.nodeEvaluations, f, b.name);
    FilterAgree(order, AppliesTo(left, a.spec.nodeSelector), AppliesTo(nodes, b.spec.nodeSelector));
    assert forall n :: n in left.Keys <==> n in nodes.Keys;
    forall n | n in nodes
      ensures NeedsPatch(a, left[n]) == NeedsPatch(b, nodes[n])
      ensures EvaluatedOk(f, a, left[n]) == EvaluatedOk(f, b, nodes[n])
      ensures EvaluatedOk(f, b, nodes[n]) ==> EvaluationOf(a, left[n]) == EvaluationOf(b, nodes[n])
    {
      MatchingAgree(f, a, b, left[n], nodes[n]);
    }
  }

  lemma MatchingAgree(f: Faults, a: Rule, b: Rule, x: Node, y: Node)
    requires a.spec == b.spec && a.name == b.name && x.labels == y.labels
    requires S.Applies(b.spec.nodeSelector, y.labels) ==> x == y
    ensures NeedsPatch(a, x) == NeedsPatch(b, y) && EvaluatedOk(f, a, x) == EvaluatedOk(f, b, y)
    ensures EvaluatedOk(f, b, y) ==> EvaluationOf(a, x) == EvaluationOf(b, y)
  {
    hide ResultsFor, AllSatisfied, S.Applies, Decide;
  }

  lemma LeftSame(w: World, f: Faults, rule: Rule)
    requires WellFormed(w) && rule.name in w.rules && rule.spec == w.rules[rule.name].spec
    ensures SameMatching(LeaveOld(w, f, rule).world.nodes, w.nodes, rule.spec.nodeSelector)
  {
    hide LeaveOld, S.Applies;
    forall n | n in w.nodes
      ensures var left := LeaveOld(w, f, rule).world.nodes;
              && n in left && left[n].labels == w.nodes[n].labels
              && (S.Applies(rule.spec.nodeSelector, w.nodes[n].labels) ==> left[n] == w.nodes[n])
    {
      LeftMatching(w, f, rule, n);
    }
  }

  lemma EnforceOutcome(w: World, f: Faults, rule: Rule, original: Rule)
    requires WellFormed(w) && "" !in w.nodes && rule.name in w.rules && rule == w.rules[rule.name]
    requires rule == original.(finalizers := rule.finalizers) && SchemaAccepts(rule.status)
    ensures Covered(w.nodes, w.order)
    ensures Enforce(w, f, rule).world.cache
            == if CleanupAccepted(w, f, rule.name) then w.cache[rule.name := rule] else w.cache
    ensures var e, r := Enforce(w, f, rule), rule.name;
            if || !CleanupAccepted(w, f, r) || f(UpdateStatus(r))
               || f(if rule.spec.dryRun then ListForDryRun(r) else ListForProcessing(r)) then
              !e.ok && e.world.rules == w.rules
            else
              && StatusOnly(e.world.rules, w.rules, r)
              && StatusOutcome(f, original, w.nodes, w.order, e.world.rules[r].status)
              && (e.ok <==> PruningAccepted(f, original, w.nodes))
  {
    hide LeaveOld, EnforceCached, SchemaAccepts, StatusOutcome, CleanupAccepted, SameMatching, PruningAccepted;
    assert Covered(w.nodes, w.order) by {
      assert forall n :: n in w.order ==> n in Elems(w.order);
    }
    LeftExact(w, f, rule);
    LeftSame(w, f, rule);
    var left := LeaveOld(w, f, rule);
    if left.ok {
      CachedOutcome(left.world.(cache := w.cache[rule.name := rule]), f, rule);
      Runs.CachedCache(left.world.(cache := w.cache[rule.name := rule]), f, rule);
      var after := Enforce(w, f, rule).world.rules;
      if rule.name in after {
        OutcomeOnMatching(f, left.world.nodes, w.nodes, w.order, rule, original, after[rule.name].status);
      }
      PruningKeys(f, rule, original, left.world.nodes, w.nodes);
    }
  }

  lemma PruningKeys(f: Faults, a: Rule, b: Rule, left: Nodes, nodes: Nodes)
    requires left.Keys == nodes.Keys && a.name == b.name && a.status == b.status
    ensures PruningAccepted(f, a, left) == PruningAccepted(f, b, nodes)
  {
    StaleKeys(left, nodes, b.status.nodeEvaluations, f, b.name);
  }

  /** Of the rules, only this one's status and, once, its finalizer change. */
  predicate FinalizerAndStatus(after: Rules, before: Rules, f: Faults, r: string) {
    && r in before && r in after && after - {r} == before - {r}
    && after[r] == before[r].(status := after[r].status, finalizers :=
         if FINALIZER in before[r].finalizers || f(GetRule(r)) || f(AddFinalizer(r)) then before[r].finalizers
         else before[r].finalizers + [FINALIZER])
  }

  /**
   * What a reconcile of a live rule stores, caches and reports, whatever fails. The finalizer is appended if
   * it was not there. The rule is cached as it was read, once the nodes it left are clean. The status is
   * written exactly when all calls up to its update are accepted, and is then the one of the enforced rule,
   * or the old one with the dry-run counters. The reconcile succeeds exactly if pruning is accepted, too.
   * Nothing else of any rule changes.
   */
  lemma LiveOutcome(w: World, f: Faults, r: string)
    requires WellFormed(w) && "" !in w.nodes && r in w.rules && SchemaAccepts(w.rules[r].status) && !w.rules[r].deleting
    ensures Covered(w.nodes, w.order)
    ensures var rule, done := w.rules[r], ReconcileRule(w, f, r);
            && FinalizerAndStatus(done.world.rules, w.rules, f, r)
            && done.world.cache == (if FinalizerEnsured(w, f, r) && CleanupAccepted(w, f, r)
                                    then w.cache[r := done.world.rules[r].(status := rule.status)] else w.cache)
            && (if StatusWritten(w, f, r) then
                  StatusOutcome(f, rule, w.nodes, w.order, done.world.rules[r].status)
                else done.world.rules[r].status == rule.status)
            && (done.ok <==> StatusWritten(w, f, r) && PruningAccepted(f, rule, w.nodes))
  {
    hide Enforce, Finalize, SchemaAccepts, StatusOutcome, CleanupAccepted, PruningAccepted;
    var rule := w.rules[r];
    if FINALIZER in rule.finalizers {
      EnforceOutcome(w, f, rule, rule);
    } else {
      var rule1 := rule.(finalizers := rule.finalizers + [FINALIZER]);
      var w1 := w.(rules := w.rules[r := rule1]);
      EnforceOutcome(w1, f, rule1, rule);
      SameCleanup(w, w1, f, r);
    }
  }

  lemma SameCleanup(w: World, w1: World, f: Faults, r: string)
    requires r in w.rules && r in w1.rules && w1 == w.(rules := w.rules[r := w1.rules[r]])
    requires w1.rules[r].spec == w.rules[r].spec
    ensures CleanupAccepted(w, f, r) <==> CleanupAccepted(w1, f, r)
  {
    hide HasTaint, S.SelectorChanged, S.Matches, S.Applies, S.ValidSelector;
    forall n | n in w.nodes
      ensures Leaves(w, r, w.nodes[n]) == Leaves(w1, r, w1.nodes[n])
    {
    }
  }

  /** Without failures a live reconcile succeeds, unless a changed selector was cached that does not parse. */
  lemma LiveSucceeds(w: World, f: Faults, r: string)
    requires WellFormed(w) && "" !in w.nodes && r in w.rules && SchemaAccepts(w.rules[r].status) && !w.rules[r].deleting
    requires FaultFree(f)
    ensures Covered(w.nodes, w.order)
    ensures ReconcileRule(w, f, r).ok <==> (ChangeNoticed(w, r) ==> S.ValidSelector(w.cache[r].spec.nodeSelector))
  {
    hide ReconcileRule, S.ValidSelector, S.SelectorChanged, StatusOutcome, SchemaAccepts;
    LiveOutcome(w, f, r);
  }

  /**
   * Whichever patches fail, once the status of an enforced live rule is written, a node's stored failures
   * are one new failure if the node matches, its taint did not fit, and its patch was rejected; all others
   * are the old ones.
   */
  lemma FailuresStored(w: World, f: Faults, r: string, n: string)
    requires WellFormed(w) && "" !in w.nodes && r in w.rules && SchemaAccepts(w.rules[r].status) && !w.rules[r].deleting
    requires StatusWritten(w, f, r) && !w.rules[r].spec.dryRun
    ensures Covered(w.nodes, w.order) && r in ReconcileRule(w, f, r).world.rules
    ensures var rule, stored := w.rules[r], ReconcileRule(w, f, r).world.rules[r].status.failedNodes;
            Filter(stored, FailureOf(n)) ==
            if && n in w.nodes && S.Applies(rule.spec.nodeSelector, w.nodes[n].labels)
               && (HasTaint(w.nodes[n].taints, rule.spec.taint)
                   <==> AllSatisfied(rule.spec.conditions, w.nodes[n].conditions))
               && f(PatchTaints(n, r))
            then [NodeFailure(n, "EvaluationError")] else Filter(rule.status.failedNodes, FailureOf(n))
  {
    hide ReconcileRule, StatusWritten, EvaluationsNow, SchemaAccepts, HasTaint, AllSatisfied, S.Applies, Filter,
      PruningAccepted;
    LiveOutcome(w, f, r);
  }

  // ----- Nodes, whatever fails

  lemma CleanedExact(f: Faults, r: string, p: Taint, targets: Node -> bool, node: Node)
    ensures var after := CleanedNode(f, r, p, targets, node);
            after == node.(taints :=
              if targets(node) && !f(PatchTaints(node.name, r)) then Others(node.taints, p) else node.taints)
  {
    hide HasTaint, Others;
    if !HasTaint(node.taints, p) {
      NodePass.NothingToRemove(node.taints, p);
    }
  }

  lemma LeftNode(w: World, f: Faults, rule: Rule, n: string)
    requires WellFormed(w) && rule.name in w.rules && rule.spec == w.rules[rule.name].spec && n in w.nodes
    ensures var r, left := rule.name, LeaveOld(w, f, rule).world.nodes;
            && n in left
            && left[n] == w.nodes[n].(taints :=
                 if && Leaves(w, r, w.nodes[n]) && !f(ListForSelector(r))
                    && S.ValidSelector(w.cache[r].spec.nodeSelector) && !f(PatchTaints(n, r))
                 then Others(w.nodes[n].taints, rule.spec.taint) else w.nodes[n].taints)
  {
    hide Cleaned, CleanedNode, HasTaint, Others, S.SelectorChanged, S.Applies, S.Matches, S.ValidSelector;
    if ChangeNoticed(w, rule.name) {
      var targets := LeavingTargets(w.cache[rule.name].spec.nodeSelector, rule.spec.nodeSelector);
      PairChanges.CleanedOne(f, rule.name, rule.spec.taint, targets, w.nodes, w.order, n);
      CleanedExact(f, rule.name, rule.spec.taint, targets, w.nodes[n]);
      assert |Listed(w.nodes, w.order)| == |w.order|;
    }
  }

  /** The node after one enforcement on it, whichever of its calls fail. */
  lemma ActOutcome(f: Faults, rule: Rule, node: Node)
    ensures var after, p := NodePass.Act(f, rule, node), rule.spec.taint;
            var ready, has := AllSatisfied(rule.spec.conditions, node.conditions), HasTaint(node.taints, p);
            after == if f(PatchTaints(node.name, rule.name)) then node else
                       node.(taints :=
                               if ready then Others(node.taints, p)
                               else if has then node.taints else node.taints + [p],
                             annotations :=
                               if && ready && has && rule.spec.enforcementMode == BOOTSTRAP_ONLY
                                  && !f(MarkLatch(node.name, rule.name)) && LatchKey(rule.name) !in node.annotations
                               then node.annotations[LatchKey(rule.name) := "true"] else node.annotations)
  {
    hide HasTaint, AllSatisfied, LatchKey, Others;
    if !HasTaint(node.taints, rule.spec.taint) {
      NodePass.NothingToRemove(node.taints, rule.spec.taint);
    }
  }

  lemma EnforceNode(w: World, f: Faults, rule: Rule, n: string)
    requires WellFormed(w) && rule.name in w.rules && rule.spec == w.rules[rule.name].spec && n in w.nodes
    ensures var r, left, after := rule.name, LeaveOld(w, f, rule).world.nodes, Enforce(w, f, rule).world.nodes;
            && n in after && n in left
            && after[n] == if && CleanupAccepted(w, f, r) && !f(ListForProcessing(r)) && !rule.spec.dryRun
                              && S.Applies(rule.spec.nodeSelector, w.nodes[n].labels)
                           then NodePass.Act(f, rule, w.nodes[n]) else left[n]
  {
    hide LeaveOld, EnforceCached, NodePass.Act, S.Applies, CleanupAccepted;
    LeftExact(w, f, rule);
    LeftMatching(w, f, rule, n);
    var left := LeaveOld(w, f, rule).world;
    PairChanges.CachedNodesAny(left.(cache := w.cache[rule.name := rule]), f, rule);
    ActIgnoresStatus(f, WithDryRun(rule, NoResults), rule, left.nodes[n]);
  }

  /**
   * What a reconcile of a live rule does to one node, whichever calls fail. A node that visibly left loses
   * the taint if its own patch is accepted, whatever happens to others. Matching nodes are enforced once all
   * that left are clean and the nodes are listed, each if its own patch is accepted.
   */
  lemma NodeOutcome(w: World, f: Faults, r: string, n: string)
    requires WellFormed(w) && r in w.rules && !w.rules[r].deleting && n in w.nodes
    ensures Covered(w.nodes, w.order) && n in ReconcileRule(w, f, r).world.nodes
    ensures var rule, before, after := w.rules[r], w.nodes[n], ReconcileRule(w, f, r).world.nodes[n];
            var p, patched := rule.spec.taint, !f(PatchTaints(n, r));
            var left := && FinalizerEnsured(w, f, r) && Leaves(w, r, before) && patched
                        && !f(ListForSelector(r)) && S.ValidSelector(w.cache[r].spec.nodeSelector);
            var enforced := && FinalizerEnsured(w, f, r) && CleanupAccepted(w, f, r) && !f(ListForProcessing(r))
                            && PairChanges.EnforcedOn(rule, before) && patched;
            var ready, has := AllSatisfied(rule.spec.conditions, before.conditions), HasTaint(before.taints, p);
            after == before.(
              taints := if left || (enforced && ready) then Others(before.taints, p)
                        else if enforced && !has then before.taints + [p] else before.taints,
              annotations :=
                if && enforced && ready && has && rule.spec.enforcementMode == BOOTSTRAP_ONLY
                   && !f(MarkLatch(n, r)) && LatchKey(r) !in before.annotations
                then before.annotations[LatchKey(r) := "true"] else before.annotations)
  {
    hide Enforce, Finalize, HasTaint, AllSatisfied, Others, CleanupAccepted, LatchKey, NodePass.Act;
    hide S.Applies, S.SelectorChanged, S.Matches, S.ValidSelector;
    assert Covered(w.nodes, w.order) by {
      assert forall m :: m in w.order ==> m in Elems(w.order);
    }
    var rule := w.rules[r];
    var rule1 := if FINALIZER in rule.finalizers then rule else rule.(finalizers := rule.finalizers + [FINALIZER]);
    var w1 := w.(rules := w.rules[r := rule1]);
    SameCleanup(w, w1, f, r);
    LeftNode(w1, f, rule1, n);
    EnforceNode(w1, f, rule1, n);
    ActOutcome(f, rule1, w.nodes[n]);
    assert FINALIZER in rule.finalizers ==> w1 == w;
  }

  // ----- A dry run against enforcement

  function AppliedIn(status: Status): string -> bool {
    (n: string) => n in status.appliedNodes
  }

  /** Applied nodes with a stored result of a missing condition. */
  ghost function MissingIn(status: Status): string -> bool {
    (n: string) =>
      n in status.appliedNodes && exists e :: e in status.nodeEvaluations && e.nodeName == n && RecordsMissing(e)
  }

  /** The same world with the rule enforced instead of in dry run. */
  function Enforcing(w: World, r: string): World
    requires r in w.rules
  {
    w.(rules := w.rules[r := w.rules[r].(spec := w.rules[r].spec.(dryRun := false))])
  }

  lemma DryRunTaints(w: World, f: Faults, r: string, n: string)
    requires WellFormed(w) && FaultFree(f) && r in w.rules && !w.rules[r].deleting && w.rules[r].spec.dryRun
             && n in w.nodes
    requires ChangeNoticed(w, r) ==> S.ValidSelector(w.cache[r].spec.nodeSelector)
    ensures Covered(w.nodes, w.order)
    ensures var spec, dry, full := w.rules[r].spec, ReconcileRule(w, f, r).world,
            ReconcileRule(Enforcing(w, r), f, r).world;
            && WouldAdd(spec)(w.nodes[n]) == TaintAppears(dry.nodes, full.nodes, spec.taint)(n)
            && WouldRemove(spec)(w.nodes[n]) == TaintDisappears(dry.nodes, full.nodes, spec.taint)(n)
  {
    hide ReconcileRule, HasTaint, AllSatisfied, Others, S.Applies, S.Matches, S.SelectorChanged, S.ValidSelector,
      LatchKey;
    assert Covered(w.nodes, w.order) by {
      assert forall m :: m in w.order ==> m in Elems(w.order);
    }
    FullEffect(w, f, r, n);
    FullEffect(Enforcing(w, r), f, r, n);
  }

  lemma DryRunResults(w: World, f: Faults, r: string, n: string, done: Status)
    requires WellFormed(w) && FaultFree(f) && r in w.rules && n in w.nodes
    requires EnforcedStatus(f, Enforcing(w, r).rules[r], w.nodes, w.order, done)
    ensures Affected(w.rules[r].spec)(w.nodes[n]) == AppliedIn(done)(n)
    ensures Risky(w.rules[r].spec)(w.nodes[n]) == MissingIn(done)(n)
  {
    hide FailuresNow, HasTaint, AllSatisfied, SomeMissing, ResultsFor, S.Applies;
    var rule := Enforcing(w, r).rules[r];
    assert n in Elems(w.order);
    if S.Applies(rule.spec.nodeSelector, w.nodes[n].labels) {
      var e := EvaluationOf(rule, w.nodes[n]);
      MissingResults(rule.spec.conditions, w.nodes[n].conditions);
      forall x: NodeEvaluation | x.nodeName == n
        ensures x in done.nodeEvaluations <==> x == e
      {
        assert EvaluationNow(f, rule, w.nodes, x) <==> x == e;
      }
    }
  }

  lemma DryRunCounts(w: World, f: Faults, r: string, dry: World, full: World, done: Status)
    requires WellFormed(w) && FaultFree(f) && r in w.rules && |w.order| < TWO_31 && Covered(w.nodes, w.order)
    requires EnforcedStatus(f, Enforcing(w, r).rules[r], w.nodes, w.order, done)
    requires forall n :: n in w.nodes ==>
               && WouldAdd(w.rules[r].spec)(w.nodes[n]) == TaintAppears(dry.nodes, full.nodes, w.rules[r].spec.taint)(n)
               && WouldRemove(w.rules[r].spec)(w.nodes[n])
                  == TaintDisappears(dry.nodes, full.nodes, w.rules[r].spec.taint)(n)
    ensures var d, p := DryRunOf(w.rules[r].spec, Listed(w.nodes, w.order)), w.rules[r].spec.taint;
            && d.affectedNodes == |done.appliedNodes|
            && d.taintsToAdd == Count(w.order, TaintAppears(dry.nodes, full.nodes, p))
            && d.taintsToRemove == Count(w.order, TaintDisappears(dry.nodes, full.nodes, p))
            && d.riskyOperations == Count(w.order, MissingIn(done))
  {
    hide Affected, WouldAdd, WouldRemove, Risky, TaintAppears, TaintDisappears, MissingIn, AppliedIn, Int32,
      FailuresNow, EvaluationsNow;
    var spec, p := w.rules[r].spec, w.rules[r].spec.taint;
    forall n | n in w.order
      ensures Affected(spec)(w.nodes[n]) == AppliedIn(done)(n) && Risky(spec)(w.nodes[n]) == MissingIn(done)(n)
    {
      DryRunResults(w, f, r, n, done);
    }
    CountListed(w.nodes, w.order, Affected(spec), AppliedIn(done));
    CountListed(w.nodes, w.order, WouldAdd(spec), TaintAppears(dry.nodes, full.nodes, p));
    CountListed(w.nodes, w.order, WouldRemove(spec), TaintDisappears(dry.nodes, full.nodes, p));
    CountListed(w.nodes, w.order, Risky(spec), MissingIn(done));
    AppliedLength(w.nodes, w.order, spec.nodeSelector, done);
    forall x: nat | x <= |w.order|
      ensures Int32(x) == x
    {
      Int32Small(x);
    }
  }

  lemma AppliedLength(nodes: Nodes, order: seq<string>, s: Selector, done: Status)
    requires done.appliedNodes == Filter(order, AppliesTo(nodes, s))
    ensures Count(order, AppliedIn(done)) == |done.appliedNodes|
  {
    FilterAgree(order, AppliesTo(nodes, s), AppliedIn(done));
  }

  /**
   * A failure-free reconcile of a live rule in dry run stores, in its four counters, what the same reconcile
   * with the dry run switched off does beyond it: how many nodes it applies to, how many get the taint, how
   * many lose it, and how many are recorded with a missing condition. The rest of the status stays, apart
   * from evaluations of nodes that are gone.
   */
  lemma DryRunStored(w: World, f: Faults, r: string)
    requires WellFormed(w) && "" !in w.nodes && r in w.rules && SchemaAccepts(w.rules[r].status) && !w.rules[r].deleting
    requires FaultFree(f) && w.rules[r].spec.dryRun && |w.order| < TWO_31
    requires ChangeNoticed(w, r) ==> S.ValidSelector(w.cache[r].spec.nodeSelector)
    ensures Covered(w.nodes, w.order)
    ensures var dry, full := ReconcileRule(w, f, r).world, ReconcileRule(Enforcing(w, r), f, r).world;
            && r in dry.rules && r in full.rules
            && var was, stored, done, p := w.rules[r].status, dry.rules[r].status, full.rules[r].status,
               w.rules[r].spec.taint;
               && stored == was.(dryRunResults := stored.dryRunResults,
                                 nodeEvaluations := Filter(was.nodeEvaluations, Exists(w.nodes.Keys)))
               && stored.dryRunResults
                  == Results(|done.appliedNodes|, Count(w.order, TaintAppears(dry.nodes, full.nodes, p)),
                             Count(w.order, TaintDisappears(dry.nodes, full.nodes, p)), Count(w.order, MissingIn(done)))
  {
    hide ReconcileRule, SchemaAccepts, WouldAdd, WouldRemove, TaintAppears, TaintDisappears, MissingIn, EnforcedStatus;
    hide S.SelectorChanged, S.ValidSelector, S.Matches, S.Applies, Count, PruningAccepted, Filter, HasTaint, Affected,
      Risky;
    var we := Enforcing(w, r);
    LiveOutcome(w, f, r);
    LiveOutcome(we, f, r);
    var dry, full := ReconcileRule(w, f, r).world, ReconcileRule(we, f, r).world;
    forall n | n in w.nodes
      ensures WouldAdd(w.rules[r].spec)(w.nodes[n]) == TaintAppears(dry.nodes, full.nodes, w.rules[r].spec.taint)(n)
      ensures WouldRemove(w.rules[r].spec)(w.nodes[n])
              == TaintDisappears(dry.nodes, full.nodes, w.rules[r].spec.taint)(n)
    {
      DryRunTaints(w, f, r, n);
    }
    DryRunCounts(w, f, r, dry, full, full.rules[r].status);
  }

  // ----- Rules that are gone or going

  /** A rule that is no longer stored is forgotten, and nothing else happens; a rejected read changes nothing. */
  lemma GoneForgotten(w: World, f: Faults, r: string)
    requires Covered(w.nodes, w.order) && r !in w.rules
    ensures var done := ReconcileRule(w, f, r);
            && (done.ok <==> !f(GetRule(r))) && r !in done.world.rules
            && (done.ok ==> r !in done.world.cache && done.world == w.(cache := done.world.cache))
            && (forall q :: q in w.cache && (q != r || !done.ok) ==>
                  q in done.world.cache && done.world.cache[q] == w.cache[q])
            && done.world.cache.Keys <= w.cache.Keys && (!done.ok ==> done.world == w)
  {
  }

  /**
   * A reconcile of a deleted rule succeeds exactly if every call it needs is accepted; without the finalizer
   * it does nothing.
   */
  lemma DeletingOutcome(w: World, f: Faults, r: string)
    requires WellFormed(w) && r in w.rules && w.rules[r].deleting
    ensures Covered(w.nodes, w.order)
    ensures var done := ReconcileRule(w, f, r);
            && (done.ok <==> !f(GetRule(r)) && (FINALIZER in w.rules[r].finalizers ==> DeletionAccepted(w, f, r)))
            && (FINALIZER !in w.rules[r].finalizers ==> done.world == w)
  {
    hide Cleaned, HasTaint, Released;
    assert forall n :: n in w.order ==> n in Elems(w.order);
    var rule := w.rules[r];
    CleanupExact(f, r, rule.spec.taint, DeletionTargets(rule.spec.nodeSelector), w.nodes, w.order);
    assert |Listed(w.nodes, w.order)| == |w.order|;
  }
}
