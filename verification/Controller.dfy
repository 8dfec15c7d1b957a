/**
 * The API server and the two reconcilers as objects updated in place. Every method is tied to the
 * corresponding function of Cluster on the state before the call.
 */
module Controller {
  import opened Seqs
  import opened Api
  import Evaluation
  import opened StatusLists
  import opened Cluster
  import S = Selectors

  datatype Response<+T> = Found(value: T) | NotFound | Rejected

  /** A local copy of a node that helpers change in place. */
  class NodeObject {
    var value: Node

    constructor (v: Node)
      ensures value == v
    {
      value := v;
    }
  }

  /** A rule object: the local copy of a rule reconcile, or an entry of the rule cache. */
  class RuleObject {
    var value: Rule

    constructor (v: Rule)
      ensures value == v
    {
      value := v;
    }
  }

  class ApiServer {
    var nodes: Nodes
    var order: seq<string>
    var rules: Rules
    var faults: Faults

    constructor ()
      ensures nodes == map[] && order == [] && rules == map[]
    {
      nodes, order, rules, faults := map[], [], map[], c => false;
    }

    method GetNode(call: Call, name: string) returns (r: Response<Node>)
      ensures r == if faults(call) then Rejected else if name in nodes then Found(nodes[name]) else NotFound
    {
      if faults(call) {
        return Rejected;
      }
      return if name in nodes then Found(nodes[name]) else NotFound;
    }

    method ListNodes(call: Call) returns (r: Option<seq<Node>>)
      requires Covered(nodes, order)
      ensures r == if faults(call) then None else Some(Listed(nodes, order))
    {
      if faults(call) {
        return None;
      }
      return Some(Listed(nodes, order));
    }

    /** Replaces the taint list whatever the version; the response is the stored node. */
    method PatchTaints(call: Call, name: string, taints: seq<Taint>) returns (r: Response<Node>)
      modifies `nodes
      ensures faults(call) ==> r == Rejected && nodes == old(nodes)
      ensures !faults(call) && name !in old(nodes) ==> r == NotFound && nodes == old(nodes)
      ensures !faults(call) && name in old(nodes) ==>
                r == Found(old(nodes)[name].(taints := taints)) && nodes == old(nodes)[name := r.value]
    {
      if faults(call) {
        return Rejected;
      }
      if name !in nodes {
        return NotFound;
      }
      nodes := nodes[name := nodes[name].(taints := taints)];
      return Found(nodes[name]);
    }

    method StoreNode(node: Node)
      modifies `nodes
      ensures nodes == old(nodes)[node.name := node]
    {
      nodes := nodes[node.name := node];
    }

    method GetRule(call: Call, name: string) returns (r: Response<Rule>)
      ensures r == if faults(call) then Rejected else if name in rules then Found(rules[name]) else NotFound
    {
      if faults(call) {
        return Rejected;
      }
      return if name in rules then Found(rules[name]) else NotFound;
    }

    /** An update of the main resource; a deleted rule goes away with its last finalizer. */
    method UpdateRule(call: Call, rule: Rule) returns (ok: bool)
      modifies `rules
      ensures ok == !faults(call)
      ensures rules == if !ok then old(rules)
                       else if rule.deleting && rule.finalizers == [] then old(rules) - {rule.name}
                       else old(rules)[rule.name := rule]
    {
      if faults(call) {
        return false;
      }
      rules := if rule.deleting && rule.finalizers == [] then rules - {rule.name} else rules[rule.name := rule];
      return true;
    }

    /** The schema is checked on every status write. */
    method StoreStatus(name: string, status: Status) returns (ok: bool)
      requires name in rules
      modifies `rules
      ensures ok == SchemaAccepts(status) && rules == StatusStored(old(rules), name, status)
    {
      ok := SchemaAccepts(status);
      if ok {
        rules := rules[name := rules[name].(status := status)];
      }
    }
  }

  class ReadinessGateController {
    const api: ApiServer
    var ruleCache: map<string, RuleObject>
    var globalDryRun: bool

    constructor (server: ApiServer)
      requires NodesListed(server.nodes, server.order) && Named(server.rules)
      ensures Valid() && api == server && ruleCache == map[] && !globalDryRun
    {
      api, ruleCache, globalDryRun := server, map[], false;
    }

    /** Cache entries are stored under their own names, so no two names share an object. */
    ghost predicate Valid()
      reads this, api, ruleCache.Values
    {
      && NodesListed(api.nodes, api.order) && Named(api.rules)
      && (forall r :: r in ruleCache ==> ruleCache[r].value.name == r)
    }

    ghost function Cache(): Rules
      reads this, ruleCache.Values
    {
      map r | r in ruleCache :: ruleCache[r].value
    }

    ghost function View(): World
      reads this, api, ruleCache.Values
    {
      World(api.nodes, api.order, api.rules, Cache(), globalDryRun)
    }

    // ----- Taints and annotations of a node

    method AddTaintBySpec(rule: string, node: NodeObject, p: Taint) returns (ok: bool)
      modifies api`nodes, node
      ensures ok == PatchAccepted(api.faults, old(api.nodes), old(node.value.name), rule)
      ensures var taints := old(node.value.taints) + [p];
              if ok then
                && node.value == old(api.nodes)[old(node.value.name)].(taints := taints)
                && api.nodes == old(api.nodes)[old(node.value.name) := node.value]
              else node.value == old(node.value).(taints := taints) && api.nodes == old(api.nodes)
    {
      node.value := node.value.(taints := node.value.taints + [Taint(p.key, p.value, p.effect)]);
      var r := api.PatchTaints(PatchTaints(node.value.name, rule), node.value.name, node.value.taints);
      ok := r.Found?;
      if r.Found? {
        node.value := r.value;
      }
    }

    method RemoveTaintBySpec(rule: string, node: NodeObject, p: Taint) returns (ok: bool)
      modifies api`nodes, node
      ensures ok == PatchAccepted(api.faults, old(api.nodes), old(node.value.name), rule)
      ensures var taints := Evaluation.Others(old(node.value.taints), p);
              if ok then
                && node.value == old(api.nodes)[old(node.value.name)].(taints := taints)
                && api.nodes == old(api.nodes)[old(node.value.name) := node.value]
              else node.value == old(node.value).(taints := taints) && api.nodes == old(api.nodes)
    {
      var rest := Evaluation.WithoutTaint(node.value.taints, p);
      node.value := node.value.(taints := rest);
      var r := api.PatchTaints(PatchTaints(node.value.name, rule), node.value.name, node.value.taints);
      ok := r.Found?;
      if r.Found? {
        node.value := r.value;
      }
    }

    method IsBootstrapCompleted(node: string, rule: string) returns (done: bool)
      ensures done == LatchSeen(api.faults, api.nodes, node, rule)
    {
      var r := api.GetNode(GetLatch(node, rule), node);
      return r.Found? && LatchKey(rule) in r.value.annotations;
    }

    /** The whole retry loop as one call; Retry shows what the loop does among other writers. */
    method MarkBootstrapCompleted(node: string, rule: string)
      requires node in api.nodes ==> api.nodes[node].name == node
      modifies api`nodes
      ensures api.nodes == Marked(api.faults, old(api.nodes), node, rule)
    {
      var r := api.GetNode(MarkLatch(node, rule), node);
      if r.Found? && LatchKey(rule) !in r.value.annotations {
        api.StoreNode(r.value.(annotations := r.value.annotations[LatchKey(rule) := "true"]));
      }
    }

    // ----- Status kept in a rule object

    method UpdateNodeEvaluationStatus(rule: RuleObject, node: string, results: seq<ConditionResult>, has: bool)
      modifies rule
      ensures rule.value == Recorded(old(rule.value), node, results, has)
    {
      var evals := rule.value.status.nodeEvaluations;
      var e := NodeEvaluation(node, results, if has then PRESENT else ABSENT);
      var i := FindEvaluation(evals, node);
      if i == |evals| {
        evals := evals + [e];
      } else {
        evals := evals[i := e];
      }
      rule.value := rule.value.(status := rule.value.status.(nodeEvaluations := evals));
    }

    method RecordNodeFailure(rule: RuleObject, node: string)
      modifies rule
      ensures rule.value == FailureRecorded(old(rule.value), node)
    {
      var kept := FilterFailures(rule.value.status.failedNodes, node, false);
      rule.value := rule.value.(status :=
                                rule.value.status.(failedNodes := kept + [NodeFailure(node, "EvaluationError")]));
    }

    method EvaluateRuleForNode(rule: RuleObject, node: NodeObject) returns (ok: bool)
      requires NodesListed(api.nodes, api.order)
      modifies api`nodes, rule, node
      ensures Evaluated(api.nodes, node.value, rule.value, ok)
              == EvaluateRule(api.faults, old(rule.value), old(api.nodes), old(node.value))
      ensures NodesListed(api.nodes, api.order)
    {
      var spec, name := rule.value.spec, node.value.name;
      var satisfied, results := Evaluation.EvaluateConditions(spec.conditions, node.value.conditions);
      var has := Evaluation.HasTaintBySpec(node.value.taints, spec.taint);
      if satisfied && has {
        ok := RemoveTaintBySpec(rule.value.name, node, spec.taint);
        if !ok {
          return;
        }
        if spec.enforcementMode == BOOTSTRAP_ONLY {
          MarkBootstrapCompleted(name, rule.value.name);
        }
      } else if !satisfied && !has {
        ok := AddTaintBySpec(rule.value.name, node, spec.taint);
        if !ok {
          return;
        }
      }
      has := Evaluation.HasTaintBySpec(node.value.taints, spec.taint);
      UpdateNodeEvaluationStatus(rule, name, results, has);
      return true;
    }

    /** The body both loops share: a failed evaluation is recorded, and the loop goes on. */
    method EvaluateOrRecordFailure(rule: RuleObject, node: NodeObject)
      requires NodesListed(api.nodes, api.order)
      modifies api`nodes, rule, node
      ensures NodesListed(api.nodes, api.order)
      ensures var e := EvaluateAndRecord(api.faults, old(rule.value), old(api.nodes), old(node.value));
              api.nodes == e.nodes && node.value == e.local && rule.value == e.rule
    {
      var name := node.value.name;
      var ok := EvaluateRuleForNode(rule, node);
      if !ok {
        RecordNodeFailure(rule, name);
      }
    }

    // ----- The node reconciler

    method GetApplicableRulesForNode(labels: map<string, string>) returns (sequence: seq<string>)
      ensures Enumerates(sequence, Cache(), labels)
    {
      sequence := [];
      var left := ruleCache.Keys;
      while left != {}
        invariant left <= ruleCache.Keys
        invariant Distinct(sequence) && Elems(sequence) == ApplicableRules(Cache(), labels) - left
      {
        var r :| r in left;
        if S.Applies(ruleCache[r].value.spec.nodeSelector, labels) {
          assert r !in Elems(sequence);
          assert Elems(sequence + [r]) == Elems(sequence) + {r};
          sequence := sequence + [r];
        }
        left := left - {r};
      }
    }

    /** The retry body of the status write, with its Get and Update, as one call. */
    method PersistNodeStatus(rule: RuleObject, node: string)
      modifies api`rules
      ensures api.rules == StatusMerged(api.faults, old(api.rules), rule.value, node)
    {
      var r := api.GetRule(MergeStatus(node, rule.value.name), rule.value.name);
      if r.Found? {
        var merged := MergeNode(rule.value.status, r.value.status, node);
        if merged.Some? {
          var _ := api.StoreStatus(rule.value.name, merged.value);
        }
      }
    }

    method IsSkipped(rule: RuleObject, node: string) returns (skip: bool)
      ensures skip == Skipped(api.faults, globalDryRun, api.nodes, node, rule.value)
    {
      var done := IsBootstrapCompleted(node, rule.value.name);
      return (done && rule.value.spec.enforcementMode == BOOTSTRAP_ONLY) || rule.value.spec.dryRun || globalDryRun;
    }

    /** One iteration of the rule loop, on the cache entry of r. */
    method ProcessNodeAgainstRule(node: NodeObject, r: string)
      requires Valid() && r in ruleCache
      modifies api`nodes, api`rules, node, ruleCache[r]
      ensures Valid()
      ensures var t := PassStep(api.faults, globalDryRun,
                                Pass(old(api.nodes), old(api.rules), old(Cache()), old(node.value)), r);
              api.nodes == t.nodes && api.rules == t.rules && Cache() == t.cache && node.value == t.local
    {
      var rule := ruleCache[r];
      var skip := IsSkipped(rule, node.value.name);
      if skip {
        return;
      }
      var name := node.value.name;
      EvaluateOrRecordFailure(rule, node);
      PersistNodeStatus(rule, name);
      assert Cache() == old(Cache())[r := rule.value];
    }

    method ProcessInOrder(node: NodeObject, sequence: seq<string>)
      requires Valid() && Elems(sequence) <= ruleCache.Keys
      modifies api`nodes, api`rules, node, ruleCache.Values
      ensures Valid()
      ensures Elems(sequence) <= old(Cache()).Keys
      ensures Pass(api.nodes, api.rules, Cache(), node.value)
              == PassTo(api.faults, globalDryRun, Pass(old(api.nodes), old(api.rules), old(Cache()), old(node.value)),
                        sequence, |sequence|)
    {
      hide PassStep;
      ghost var start := Pass(api.nodes, api.rules, Cache(), node.value);
      for i := 0 to |sequence|
        invariant Valid()
        invariant Pass(api.nodes, api.rules, Cache(), node.value)
                  == PassTo(api.faults, globalDryRun, start, sequence, i)
      {
        assert sequence[i] in Elems(sequence);
        ProcessNodeAgainstRule(node, sequence[i]);
      }
    }

    method ProcessNodeAgainstAllRules(node: NodeObject) returns (sequence: seq<string>)
      requires Valid()
      modifies api`nodes, api`rules, node, ruleCache.Values
      ensures Valid()
      ensures Enumerates(sequence, old(Cache()), old(node.value.labels))
      ensures Elems(sequence) <= old(Cache()).Keys
      ensures Pass(api.nodes, api.rules, Cache(), node.value)
              == PassTo(api.faults, globalDryRun, Pass(old(api.nodes), old(api.rules), old(Cache()), old(node.value)),
                        sequence, |sequence|)
    {
      sequence := GetApplicableRulesForNode(node.value.labels);
      ProcessInOrder(node, sequence);
    }

    method ReconcileNode(name: string) returns (sequence: seq<string>)
      requires Valid()
      modifies api`nodes, api`rules, ruleCache.Values
      ensures Valid()
      ensures NodeRead(old(View()), api.faults, name)
              ==> Enumerates(sequence, old(Cache()), old(api.nodes)[name].labels)
      ensures View() == Cluster.ReconcileNode(old(View()), api.faults, name, sequence)
    {
      hide PassTo, ApplicableRules, Elems, Distinct;
      sequence := [];
      var r := api.GetNode(GetNode(name), name);
      if r.Found? {
        var node := new NodeObject(r.value);
        sequence := ProcessNodeAgainstAllRules(node);
      }
    }

    // ----- The rule reconciler

    method CleanupNodes(rule: RuleObject, targets: Node -> bool, items: seq<Node>) returns (failed: seq<string>)
      requires NodesListed(api.nodes, api.order)
      modifies api`nodes
      ensures NodesListed(api.nodes, api.order)
      ensures Cleanup(api.nodes, failed)
              == Cleaned(api.faults, rule.value.name, rule.value.spec.taint, targets, old(api.nodes), items, |items|)
    {
      failed := [];
      for i := 0 to |items|
        invariant NodesListed(api.nodes, api.order)
        invariant Cleanup(api.nodes, failed)
                  == Cleaned(api.faults, rule.value.name, rule.value.spec.taint, targets, old(api.nodes), items, i)
      {
        if targets(items[i]) {
          var has := Evaluation.HasTaintBySpec(items[i].taints, rule.value.spec.taint);
          if has {
            var node := new NodeObject(items[i]);
            var ok := RemoveTaintBySpec(rule.value.name, node, rule.value.spec.taint);
            if !ok {
              failed := failed + [items[i].name];
            }
          }
        }
      }
    }

    method CleanupNodesAfterSelectorChange(cached: Rule, rule: RuleObject) returns (ok: bool)
      requires Valid() && rule.value.name in ruleCache && cached == ruleCache[rule.value.name].value
      requires S.SelectorChanged(rule.value.spec.nodeSelector, cached.spec.nodeSelector)
      modifies api`nodes
      ensures Valid()
      ensures Reconciled(View(), ok) == LeaveOld(old(View()), api.faults, rule.value)
    {
      hide Cleaned, S.SelectorChanged, S.ValidSelector;
      var items := api.ListNodes(ListForSelector(rule.value.name));
      if items.None? {
        return false;
      }
      if !S.ValidSelector(cached.spec.nodeSelector) {
        return false;
      }
      var failed := CleanupNodes(rule, LeavingTargets(cached.spec.nodeSelector, rule.value.spec.nodeSelector),
                                 items.value);
      return failed == [];
    }

    method CleanupTaintsForRule(rule: RuleObject) returns (ok: bool)
      requires NodesListed(api.nodes, api.order)
      modifies api`nodes
      ensures NodesListed(api.nodes, api.order)
      ensures var items := Listed(old(api.nodes), api.order);
              var c := Cleaned(api.faults, rule.value.name, rule.value.spec.taint,
                               DeletionTargets(rule.value.spec.nodeSelector), old(api.nodes), items, |items|);
              if api.faults(ListForCleanup(rule.value.name)) then !ok && api.nodes == old(api.nodes)
              else ok == (c.failed == []) && api.nodes == c.nodes
    {
      var items := api.ListNodes(ListForCleanup(rule.value.name));
      if items.None? {
        return false;
      }
      var failed := CleanupNodes(rule, DeletionTargets(rule.value.spec.nodeSelector), items.value);
      return failed == [];
    }

    method UpdateRuleCache(rule: RuleObject)
      requires Valid()
      modifies `ruleCache
      ensures rule !in ruleCache.Values || rule in old(ruleCache.Values)
      ensures Valid() && Cache() == old(Cache())[rule.value.name := rule.value]
    {
      var copy := new RuleObject(rule.value);
      ruleCache := ruleCache[rule.value.name := copy];
    }

    method RemoveRuleFromCache(name: string)
      requires Valid()
      modifies `ruleCache
      ensures Valid() && Cache() == old(Cache()) - {name}
    {
      ruleCache := ruleCache - {name};
    }

    method ProcessAllNodesForRule(rule: RuleObject) returns (ok: bool)
      requires NodesListed(api.nodes, api.order)
      modifies api`nodes, rule
      ensures NodesListed(api.nodes, api.order)
      ensures ok == !api.faults(ListForProcessing(rule.value.name))
      ensures var items := Listed(old(api.nodes), api.order);
              var s := Swept(api.faults, old(rule.value), old(api.nodes), items, |items|);
              if ok then api.nodes == s.nodes && rule.value == SweepDone(s)
              else api.nodes == old(api.nodes) && rule.value == old(rule.value)
    {
      var list := api.ListNodes(ListForProcessing(rule.value.name));
      if list.None? {
        return false;
      }
      var items, applied: seq<string> := list.value, [];
      for i := 0 to |items|
        invariant NodesListed(api.nodes, api.order)
        invariant Sweep(api.nodes, rule.value, applied)
                  == Swept(api.faults, old(rule.value), old(api.nodes), items, i)
      {
        if S.Applies(rule.value.spec.nodeSelector, items[i].labels) {
          applied := applied + [items[i].name];
          var node := new NodeObject(items[i]);
          EvaluateOrRecordFailure(rule, node);
        }
      }
      rule.value := rule.value.(status := rule.value.status.(
        observedGeneration := rule.value.generation, appliedNodes := applied, dryRunResults := NoResults));
      return true;
    }

    method CleanupDeletedNodes(rule: RuleObject) returns (ok: bool)
      requires Valid() && rule.value.name in api.rules && api.rules[rule.value.name].status == rule.value.status
      modifies api`rules
      ensures Valid()
      ensures var pruned := Pruned(api.nodes.Keys, rule.value.status);
              && ok == (&& !api.faults(ListForPruning(rule.value.name))
                        && (pruned.Some? ==> !api.faults(PruneStatus(rule.value.name)) && SchemaAccepts(pruned.value)))
              && api.rules == if ok && pruned.Some? then StatusStored(old(api.rules), rule.value.name, pruned.value)
                              else old(api.rules)
    {
      var list := api.ListNodes(ListForPruning(rule.value.name));
      if list.None? {
        return false;
      }
      var existing: set<string> := {};
      for i := 0 to |list.value|
        invariant existing == Elems(api.order[..i])
      {
        assert api.order[..i + 1] == api.order[..i] + [api.order[i]];
        assert list.value[i].name == api.order[i];
        existing := existing + {list.value[i].name};
      }
      assert api.order[..|list.value|] == api.order;
      var pruned := Prune(existing, rule.value.status);
      if pruned.None? {
        return true;
      }
      var latest := api.GetRule(PruneStatus(rule.value.name), rule.value.name);
      if !latest.Found? {
        return false;
      }
      var again := Prune(existing, latest.value.status);
      if again.Some? {
        ok := api.StoreStatus(rule.value.name, again.value);
        return;
      }
      return true;
    }

    method PublishStatus(rule: RuleObject) returns (ok: bool)
      requires Valid()
      modifies api`rules
      ensures Valid()
      ensures Reconciled(View(), ok) == Publish(old(View()), api.faults, rule.value)
    {
      var latest := api.GetRule(UpdateStatus(rule.value.name), rule.value.name);
      if !latest.Found? {
        return false;
      }
      ok := api.StoreStatus(rule.value.name, rule.value.status);
      if ok {
        ok := CleanupDeletedNodes(rule);
      }
    }

    /** Nothing to do unless a cached rule had a different selector. */
    method LeaveOldNodes(rule: RuleObject) returns (ok: bool)
      requires Valid()
      modifies api`nodes
      ensures Valid()
      ensures Reconciled(View(), ok) == LeaveOld(old(View()), api.faults, rule.value)
    {
      if rule.value.name !in ruleCache {
        return true;
      }
      var cached := ruleCache[rule.value.name].value;
      var changed := S.NodeSelectorChanged(rule.value.spec.nodeSelector, cached.spec.nodeSelector);
      if !changed {
        return true;
      }
      ok := CleanupNodesAfterSelectorChange(cached, rule);
    }

    method EnforceCachedRule(rule: RuleObject) returns (ok: bool)
      requires Valid() && rule !in ruleCache.Values
      modifies api`nodes, api`rules, rule
      ensures Valid()
      ensures Reconciled(View(), ok) == EnforceCached(old(View()), api.faults, old(rule.value))
    {
      hide Swept, Publish, DryRunOf;
      if rule.value.spec.dryRun {
        var list := api.ListNodes(ListForDryRun(rule.value.name));
        if list.None? {
          return false;
        }
        var results := ProcessDryRun(rule.value.spec, list.value);
        rule.value := WithDryRun(rule.value, results);
      } else {
        rule.value := WithDryRun(rule.value, NoResults);
        ok := ProcessAllNodesForRule(rule);
        if !ok {
          return;
        }
      }
      ok := PublishStatus(rule);
    }

    method EnforceRule(rule: RuleObject) returns (ok: bool)
      requires Valid() && rule !in ruleCache.Values
      modifies `ruleCache, api`nodes, api`rules, rule
      ensures Valid()
      ensures Reconciled(View(), ok) == Enforce(old(View()), api.faults, old(rule.value))
    {
      ok := LeaveOldNodes(rule);
      if !ok {
        return;
      }
      UpdateRuleCache(rule);
      ok := EnforceCachedRule(rule);
    }

    /** Dropping the finalizer and, once that is accepted, the cache entry. */
    method ReleaseRule(rule: RuleObject) returns (ok: bool)
      requires Valid() && rule.value.deleting && rule !in ruleCache.Values
      modifies `ruleCache, api`rules, rule
      ensures Valid()
      ensures ok == !api.faults(DropFinalizer(old(rule.value.name)))
      ensures View() == if !ok then old(View())
                        else Released(old(View()), old(rule.value)).(cache := old(Cache()) - {old(rule.value.name)})
    {
      hide WithoutFinalizer;
      var rest := RemoveFinalizer(rule.value.finalizers);
      rule.value := rule.value.(finalizers := rest);
      ok := api.UpdateRule(DropFinalizer(rule.value.name), rule.value);
      if ok {
        RemoveRuleFromCache(rule.value.name);
      }
    }

    method FinalizeRule(rule: RuleObject) returns (ok: bool)
      requires Valid() && rule.value.deleting && rule !in ruleCache.Values
      modifies `ruleCache, api`nodes, api`rules, rule
      ensures Valid()
      ensures Reconciled(View(), ok) == Finalize(old(View()), api.faults, old(rule.value))
    {
      hide Cleaned, Released, DeletionTargets;
      var found := ContainsFinalizer(rule.value.finalizers);
      if !found {
        return true;
      }
      ok := CleanupTaintsForRule(rule);
      if !ok {
        return;
      }
      ok := ReleaseRule(rule);
    }

    /** Storing the finalizer before anything else, and reading the rule back. */
    method EnsureFinalizer(rule: RuleObject) returns (ok: bool)
      requires Valid() && !rule.value.deleting && rule !in ruleCache.Values
      modifies api`rules, rule
      ensures Valid() && rule.value.name == old(rule.value.name)
      ensures var name := old(rule.value.name);
              if FINALIZER in old(rule.value.finalizers) then ok && rule.value == old(rule.value)
                && api.rules == old(api.rules)
              else if api.faults(AddFinalizer(name)) then !ok && api.rules == old(api.rules)
              else
                && rule.value == old(rule.value).(finalizers := old(rule.value.finalizers) + [FINALIZER])
                && api.rules == old(api.rules)[name := rule.value] && ok == !api.faults(RefreshRule(name))
    {
      var found := ContainsFinalizer(rule.value.finalizers);
      if found {
        return true;
      }
      rule.value := rule.value.(finalizers := rule.value.finalizers + [FINALIZER]);
      ok := api.UpdateRule(AddFinalizer(rule.value.name), rule.value);
      if !ok {
        return;
      }
      var again := api.GetRule(RefreshRule(rule.value.name), rule.value.name);
      if !again.Found? {
        return false;
      }
      rule.value := again.value;
    }

    method ReconcileRule(name: string) returns (ok: bool)
      requires Valid()
      modifies `ruleCache, api`nodes, api`rules
      ensures Valid()
      ensures Reconciled(View(), ok) == Cluster.ReconcileRule(old(View()), api.faults, name)
    {
      hide Enforce, Finalize, NodesListed;
      var r := api.GetRule(GetRule(name), name);
      if r.NotFound? {
        RemoveRuleFromCache(name);
        return true;
      }
      if r.Rejected? {
        return false;
      }
      var rule := new RuleObject(r.value);
      if rule.value.deleting {
        ok := FinalizeRule(rule);
        return;
      }
      ok := EnsureFinalizer(rule);
      if ok {
        ok := EnforceRule(rule);
      }
    }
  }
}
