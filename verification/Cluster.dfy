/**
 * The two reconcilers as functions on the state of the cluster and the controller. A reconcile is
 * one step; each API call it makes may be rejected, as given by a predicate over the calls.
 */
module Cluster {
  import Seqs
  import opened Api
  import opened Evaluation
  import opened StatusLists
  import S = Selectors

  /** The API calls of one reconcile. Each is made at most once (a retry loop counts as one call). */
  datatype Call =
    | GetNode(node: string)
    | GetLatch(node: string, rule: string)
    | PatchTaints(node: string, rule: string)
    | MarkLatch(node: string, rule: string)
    | MergeStatus(node: string, rule: string)
    | GetRule(rule: string)
    | AddFinalizer(rule: string)
    | RefreshRule(rule: string)
    | DropFinalizer(rule: string)
    | ListForCleanup(rule: string)
    | ListForSelector(rule: string)
    | ListForDryRun(rule: string)
    | ListForProcessing(rule: string)
    | ListForPruning(rule: string)
    | UpdateStatus(rule: string)
    | PruneStatus(rule: string)

  /** Which calls are rejected, for whatever reason: any pattern of failures. */
  type Faults = Call -> bool

  ghost predicate FaultFree(f: Faults) {
    forall c :: !f(c)
  }

  /** Stored nodes and their listing order, stored rules, the controller's rule cache and its off-switch. */
  datatype World = World(nodes: Nodes, order: seq<string>, rules: Rules, cache: Rules, globalDryRun: bool)

  predicate Covered(nodes: Nodes, order: seq<string>) {
    forall n :: n in order ==> n in nodes
  }

  predicate NodesListed(nodes: Nodes, order: seq<string>) {
    && Seqs.Distinct(order) && Seqs.Elems(order) == nodes.Keys
    && forall n :: n in nodes ==> nodes[n].name == n
  }

  predicate Named(rules: Rules) {
    forall r :: r in rules ==> rules[r].name == r
  }

  predicate WellFormed(w: World) {
    NodesListed(w.nodes, w.order) && Named(w.rules) && Named(w.cache)
  }

  function Listed(nodes: Nodes, order: seq<string>): seq<Node>
    requires Covered(nodes, order)
  {
    seq(|order|, i requires 0 <= i < |order| => nodes[order[i]])
  }

  // ----- One rule on one node

  predicate PatchAccepted(f: Faults, nodes: Nodes, node: string, rule: string) {
    node in nodes && !f(PatchTaints(node, rule))
  }

  function Latched(node: Node, rule: string): Node {
    node.(annotations := node.annotations[LatchKey(rule) := "true"])
  }

  /** The node to write back when marking completion, or None when it is already marked. */
  function LatchBody(node: Node, rule: string): Option<Node> {
    if LatchKey(rule) in node.annotations then None else Some(Latched(node, rule))
  }

  function Marked(f: Faults, nodes: Nodes, node: string, rule: string): Nodes {
    if node !in nodes || f(MarkLatch(node, rule)) then nodes
    else match LatchBody(nodes[node], rule)
      case None => nodes
      case Some(n) => nodes[node := n]
  }

  function Recorded(rule: Rule, node: string, results: seq<ConditionResult>, has: bool): Rule {
    rule.(status := rule.status.(nodeEvaluations :=
      Upsert(rule.status.nodeEvaluations, NodeEvaluation(node, results, if has then PRESENT else ABSENT))))
  }

  function FailureRecorded(rule: Rule, node: string): Rule {
    rule.(status := rule.status.(failedNodes :=
      WithFailure(rule.status.failedNodes, NodeFailure(node, "EvaluationError"))))
  }

  /** Stored nodes, the local node copy and the rule after an evaluation; a rejected patch leaves the copy changed. */
  datatype Evaluated = Evaluated(nodes: Nodes, local: Node, rule: Rule, ok: bool)

  function EvaluateRule(f: Faults, rule: Rule, nodes: Nodes, local: Node): (e: Evaluated)
    ensures e.nodes.Keys == nodes.Keys
    ensures e.rule == rule.(status := e.rule.status)
  {
    var results := ResultsFor(rule.spec.conditions, local.conditions);
    var action := Decide(rule.spec, local);
    var changed := local.(taints := Enforced(rule.spec, local));
    if action == Keep then
      Evaluated(nodes, local, Recorded(rule, local.name, results, HasTaint(local.taints, rule.spec.taint)), true)
    else if !PatchAccepted(f, nodes, local.name, rule.name) then
      Evaluated(nodes, changed, rule, false)
    else
      var patched := nodes[local.name].(taints := changed.taints);
      var nodes1 := nodes[local.name := patched];
      var nodes2 := if action == Remove && rule.spec.enforcementMode == BOOTSTRAP_ONLY
                    then Marked(f, nodes1, local.name, rule.name) else nodes1;
      Evaluated(nodes2, patched, Recorded(rule, local.name, results, HasTaint(patched.taints, rule.spec.taint)), true)
  }

  function EvaluateAndRecord(f: Faults, rule: Rule, nodes: Nodes, local: Node): (e: Evaluated)
    ensures e.nodes.Keys == nodes.Keys
    ensures e.rule == rule.(status := e.rule.status)
  {
    var e := EvaluateRule(f, rule, nodes, local);
    if e.ok then e else e.(rule := FailureRecorded(e.rule, local.name))
  }

  // ----- The node reconciler

  predicate LatchSeen(f: Faults, nodes: Nodes, node: string, rule: string) {
    !f(GetLatch(node, rule)) && node in nodes && LatchKey(rule) in nodes[node].annotations
  }

  predicate Skipped(f: Faults, globalDryRun: bool, nodes: Nodes, node: string, rule: Rule) {
    || (LatchSeen(f, nodes, node, rule.name) && rule.spec.enforcementMode == BOOTSTRAP_ONLY)
    || rule.spec.dryRun || globalDryRun
  }

  /** The rules after a status write, which the schema may refuse. */
  function StatusStored(rules: Rules, name: string, status: Status): Rules
    requires name in rules
  {
    if SchemaAccepts(status) then rules[name := rules[name].(status := status)] else rules
  }

  function StatusMerged(f: Faults, rules: Rules, cached: Rule, node: string): Rules {
    if f(MergeStatus(node, cached.name)) || cached.name !in rules then rules
    else match Merged(cached.status, rules[cached.name].status, node)
      case None => rules
      case Some(s) => StatusStored(rules, cached.name, s)
  }

  /** What a node pass threads from rule to rule. */
  datatype Pass = Pass(nodes: Nodes, rules: Rules, cache: Rules, local: Node)

  function PassStep(f: Faults, globalDryRun: bool, s: Pass, r: string): (t: Pass)
    requires r in s.cache
    ensures t.cache.Keys == s.cache.Keys && t.nodes.Keys == s.nodes.Keys
  {
    if Skipped(f, globalDryRun, s.nodes, s.local.name, s.cache[r]) then s
    else
      var e := EvaluateAndRecord(f, s.cache[r], s.nodes, s.local);
      Pass(e.nodes, StatusMerged(f, s.rules, e.rule, s.local.name), s.cache[r := e.rule], e.local)
  }

  function PassTo(f: Faults, globalDryRun: bool, s: Pass, sequence: seq<string>, i: nat): (t: Pass)
    requires i <= |sequence| && Seqs.Elems(sequence) <= s.cache.Keys
    ensures t.cache.Keys == s.cache.Keys && t.nodes.Keys == s.nodes.Keys
  {
    if i == 0 then s
    else
      assert sequence[i - 1] in Seqs.Elems(sequence);
      PassStep(f, globalDryRun, PassTo(f, globalDryRun, s, sequence, i - 1), sequence[i - 1])
  }

  function ApplicableRules(cache: Rules, labels: map<string, string>): set<string> {
    set r | r in cache && S.Applies(cache[r].spec.nodeSelector, labels)
  }

  /** Any order in which iterating the cache may yield the rules applicable to a node. */
  predicate Enumerates(sequence: seq<string>, cache: Rules, labels: map<string, string>) {
    Seqs.Distinct(sequence) && Seqs.Elems(sequence) == ApplicableRules(cache, labels)
  }

  predicate NodeRead(w: World, f: Faults, n: string) {
    n in w.nodes && !f(GetNode(n))
  }

  function NodePass(w: World, f: Faults, n: string, sequence: seq<string>): Pass
    requires n in w.nodes && Enumerates(sequence, w.cache, w.nodes[n].labels)
  {
    PassTo(f, w.globalDryRun, Pass(w.nodes, w.rules, w.cache, w.nodes[n]), sequence, |sequence|)
  }

  function ReconcileNode(w: World, f: Faults, n: string, sequence: seq<string>): World
    requires NodeRead(w, f, n) ==> Enumerates(sequence, w.cache, w.nodes[n].labels)
  {
    if !NodeRead(w, f, n) then w
    else var s := NodePass(w, f, n, sequence); w.(nodes := s.nodes, rules := s.rules, cache := s.cache)
  }

  // ----- The rule reconciler: cleaning up

  datatype Cleanup = Cleanup(nodes: Nodes, failed: seq<string>)

  /** Remove the taint from the target nodes among the first i of the listing. */
  function Cleaned(
    f: Faults, r: string, p: Taint, targets: Node -> bool, nodes: Nodes, items: seq<Node>, i: nat): (c: Cleanup)
    requires i <= |items|
    ensures c.nodes.Keys == nodes.Keys
  {
    if i == 0 then Cleanup(nodes, [])
    else
      var c, node := Cleaned(f, r, p, targets, nodes, items, i - 1), items[i - 1];
      if !targets(node) || !HasTaint(node.taints, p) then c
      else if !PatchAccepted(f, c.nodes, node.name, r) then c.(failed := c.failed + [node.name])
      else c.(nodes := c.nodes[node.name := c.nodes[node.name].(taints := Others(node.taints, p))])
  }

  function DeletionTargets(s: Selector): Node -> bool {
    (n: Node) => S.Applies(s, n.labels)
  }

  /** Nodes the old selector matched and the new one does not apply to. */
  function LeavingTargets(previous: Selector, current: Selector): Node -> bool {
    (n: Node) => S.Matches(previous, n.labels) && !S.Applies(current, n.labels)
  }

  // ----- The rule reconciler: enforcing

  datatype Sweep = Sweep(nodes: Nodes, rule: Rule, applied: seq<string>)

  /** Evaluate the rule on the matching nodes among the first i of the listing. */
  function Swept(f: Faults, rule: Rule, nodes: Nodes, items: seq<Node>, i: nat): (s: Sweep)
    requires i <= |items|
    ensures s.nodes.Keys == nodes.Keys
    ensures s.rule == rule.(status := s.rule.status)
  {
    if i == 0 then Sweep(nodes, rule, [])
    else
      var s, node := Swept(f, rule, nodes, items, i - 1), items[i - 1];
      if !S.Applies(rule.spec.nodeSelector, node.labels) then s
      else
        var e := EvaluateAndRecord(f, s.rule, s.nodes, node);
        Sweep(e.nodes, e.rule, s.applied + [node.name])
  }

  datatype Reconciled = Reconciled(world: World, ok: bool)

  /** Write the status back and prune entries of nodes that are gone. */
  function Publish(w: World, f: Faults, rule: Rule): (r: Reconciled)
    ensures r.world == w.(rules := r.world.rules)
  {
    if f(UpdateStatus(rule.name)) || rule.name !in w.rules || !SchemaAccepts(rule.status) then Reconciled(w, false)
    else
      var w1 := w.(rules := StatusStored(w.rules, rule.name, rule.status));
      if f(ListForPruning(rule.name)) then Reconciled(w1, false)
      else match Pruned(w.nodes.Keys, rule.status)
        case None => Reconciled(w1, true)
        case Some(s) =>
          if f(PruneStatus(rule.name)) then Reconciled(w1, false)
          else Reconciled(w1.(rules := StatusStored(w1.rules, rule.name, s)), SchemaAccepts(s))
  }

  function WithDryRun(rule: Rule, r: DryRunResults): Rule {
    rule.(status := rule.status.(dryRunResults := r))
  }

  function SweepDone(s: Sweep): Rule {
    s.rule.(status := s.rule.status.(
      observedGeneration := s.rule.generation, appliedNodes := s.applied, dryRunResults := NoResults))
  }

  function EnforceCached(w: World, f: Faults, rule: Rule): Reconciled
    requires Covered(w.nodes, w.order)
  {
    var items := Listed(w.nodes, w.order);
    if rule.spec.dryRun then
      if f(ListForDryRun(rule.name)) then Reconciled(w, false)
      else Publish(w, f, WithDryRun(rule, DryRunOf(rule.spec, items)))
    else if f(ListForProcessing(rule.name)) then Reconciled(w, false)
    else
      var s := Swept(f, WithDryRun(rule, NoResults), w.nodes, items, |items|);
      Publish(w.(nodes := s.nodes), f, SweepDone(s))
  }

  /** Cleanup of the nodes that leave the selector, when a change is noticed. */
  function LeaveOld(w: World, f: Faults, rule: Rule): (r: Reconciled)
    requires Covered(w.nodes, w.order)
    ensures r.world == w.(nodes := r.world.nodes) && r.world.nodes.Keys == w.nodes.Keys
  {
    if rule.name !in w.cache || !S.SelectorChanged(rule.spec.nodeSelector, w.cache[rule.name].spec.nodeSelector) then
      Reconciled(w, true)
    else
      var previous, items := w.cache[rule.name].spec.nodeSelector, Listed(w.nodes, w.order);
      if f(ListForSelector(rule.name)) || !S.ValidSelector(previous) then Reconciled(w, false)
      else
        var c := Cleaned(f, rule.name, rule.spec.taint, LeavingTargets(previous, rule.spec.nodeSelector), w.nodes,
                         items, |items|);
        Reconciled(w.(nodes := c.nodes), c.failed == [])
  }

  function Enforce(w: World, f: Faults, rule: Rule): Reconciled
    requires Covered(w.nodes, w.order)
  {
    var left := LeaveOld(w, f, rule);
    if !left.ok then left
    else EnforceCached(left.world.(cache := w.cache[rule.name := rule]), f, rule)
  }

  // ----- The rule reconciler: deleting

  function Released(w: World, rule: Rule): World {
    var rest := WithoutFinalizer(rule.finalizers);
    w.(rules := if rest == [] then w.rules - {rule.name} else w.rules[rule.name := rule.(finalizers := rest)])
  }

  function Finalize(w: World, f: Faults, rule: Rule): Reconciled
    requires Covered(w.nodes, w.order)
  {
    var items := Listed(w.nodes, w.order);
    if FINALIZER !in rule.finalizers then Reconciled(w, true)
    else if f(ListForCleanup(rule.name)) then Reconciled(w, false)
    else
      var c := Cleaned(f, rule.name, rule.spec.taint, DeletionTargets(rule.spec.nodeSelector), w.nodes, items, |items|);
      var w1 := w.(nodes := c.nodes);
      if c.failed != [] || f(DropFinalizer(rule.name)) then Reconciled(w1, false)
      else Reconciled(Released(w1, rule).(cache := w.cache - {rule.name}), true)
  }

  function ReconcileRule(w: World, f: Faults, r: string): Reconciled
    requires Covered(w.nodes, w.order)
  {
    if f(GetRule(r)) then Reconciled(w, false)
    else if r !in w.rules then Reconciled(w.(cache := w.cache - {r}), true)
    else
      var rule := w.rules[r];
      if rule.deleting then Finalize(w, f, rule)
      else if FINALIZER in rule.finalizers then Enforce(w, f, rule)
      else if f(AddFinalizer(r)) then Reconciled(w, false)
      else
        var rule1 := rule.(finalizers := rule.finalizers + [FINALIZER]);
        var w1 := w.(rules := w.rules[r := rule1]);
        if f(RefreshRule(r)) then Reconciled(w1, false) else Enforce(w1, f, rule1)
  }
}
