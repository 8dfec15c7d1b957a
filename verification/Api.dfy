/**
 * The values the controller works on: the node fields it reads and writes, and the
 * NodeReadinessRule resource. Timestamps and message texts are left out.
 */
module Api {
  datatype Option<+T> = None | Some(value: T)

  const UNKNOWN := "Unknown"
  const BOOTSTRAP_ONLY := "bootstrap-only"
  const CONTINUOUS := "continuous"
  const FINALIZER := "readiness.node.x-k8s.io/cleanup-taints"
  const LATCH_PREFIX := "readiness.k8s.io/bootstrap-completed-"
  const PRESENT := "Present"
  const ABSENT := "Absent"

  datatype Taint = Taint(key: string, value: string, effect: string)
  datatype Condition = Condition(ctype: string, status: string)
  datatype Node = Node(
    name: string,
    labels: map<string, string>,
    conditions: seq<Condition>,
    taints: seq<Taint>,
    annotations: map<string, string>)

  datatype Requirement = Requirement(key: string, operator: string, values: seq<string>)
  datatype Selector = Selector(matchLabels: map<string, string>, matchExpressions: seq<Requirement>)

  datatype ConditionRequirement = ConditionRequirement(ctype: string, requiredStatus: string)
  datatype Spec = Spec(
    conditions: seq<ConditionRequirement>,
    enforcementMode: string,
    taint: Taint,
    nodeSelector: Selector,
    dryRun: bool)

  datatype ConditionResult = ConditionResult(
    ctype: string, currentStatus: string, requiredStatus: string, satisfied: bool, missing: bool)
  datatype NodeEvaluation = NodeEvaluation(
    nodeName: string, conditionResults: seq<ConditionResult>, taintStatus: string)
  datatype NodeFailure = NodeFailure(nodeName: string, reason: string)

  /** The four counters are 32-bit in the source; `DryRun` fills them with wrapped values. */
  datatype DryRunResults =
    | NoResults
    | Results(affectedNodes: int, taintsToAdd: int, taintsToRemove: int, riskyOperations: int)
  datatype Status = Status(
    observedGeneration: int,
    appliedNodes: seq<string>,
    failedNodes: seq<NodeFailure>,
    nodeEvaluations: seq<NodeEvaluation>,
    dryRunResults: DryRunResults)
  datatype Rule = Rule(
    name: string,
    generation: int,
    deleting: bool,
    finalizers: seq<string>,
    spec: Spec,
    status: Status)

  type Nodes = map<string, Node>
  type Rules = map<string, Rule>

  /** A taint is identified by key and effect; its value plays no part. */
  predicate SamePair(t: Taint, u: Taint) {
    t.key == u.key && t.effect == u.effect
  }

  /** The node annotation that records bootstrap completion of a rule. */
  function LatchKey(ruleName: string): string {
    LATCH_PREFIX + ruleName
  }

  lemma LatchKeyInjective(r: string, q: string)
    ensures LatchKey(r) == LatchKey(q) ==> r == q
  {
    assert r == LatchKey(r)[|LATCH_PREFIX|..];
    assert q == LatchKey(q)[|LATCH_PREFIX|..];
  }
}
