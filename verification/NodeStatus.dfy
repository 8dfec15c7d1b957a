/** The statuses a node reconcile leaves in the stored rules. */
module NodeStatus {
  import opened Seqs
  import opened Api
  import Evaluation
  import opened StatusLists
  import opened Cluster
  import opened NodePass
  import opened RulePass
  import opened Runs

  predicate AllAccepted(rules: Rules) {
    forall r :: r in rules ==> SchemaAccepts(rules[r].status)
  }

  /** Every node has a name, and every stored and cached status is one the schema accepts. */
  predicate Accepted(w: World) {
    WellFormed(w) && "" !in w.nodes && AllAccepted(w.rules) && AllAccepted(w.cache)
  }

  lemma AcceptedFormed(w: World)
    requires Accepted(w)
    ensures WellFormed(w)
  {
  }

  lemma OtherIteration(f: Faults, globalDryRun: bool, s: Pass, q: string, r: string)
    requires q in s.cache && s.cache[q].name == q && q != r && r in s.rules
    ensures var t := PassStep(f, globalDryRun, s, q);
            r in t.rules && t.rules[r] == s.rules[r] && (r in s.cache ==> t.cache[r] == s.cache[r])
  {
    hide EvaluateAndRecord, Skipped, Merged;
  }

  /** A pass changes the stored and the cached status of a rule only in that rule's own iteration. */
  lemma {:induction false} OthersIterations(
    f: Faults, globalDryRun: bool, s: Pass, sequence: seq<string>, i: nat, k: nat, r: string)
    requires i <= k <= |sequence| && Elems(sequence) <= s.cache.Keys && Named(s.cache)
    requires r in s.rules && r !in sequence[i..k]
    ensures SameRulesButStatus(PassTo(f, globalDryRun, s, sequence, k).cache, s.cache)
    ensures var t, u := PassTo(f, globalDryRun, s, sequence, i), PassTo(f, globalDryRun, s, sequence, k);
            && r in u.rules && r in t.rules && u.rules[r] == t.rules[r]
            && (r in s.cache ==> u.cache[r] == t.cache[r])
    decreases k
  {
    hide PassStep;
    CacheNames(f, globalDryRun, s, sequence, k, r);
    if k > i {
      assert sequence[i..k] == sequence[i..k - 1] + [sequence[k - 1]];
      OthersIterations(f, globalDryRun, s, sequence, i, k - 1, r);
      assert sequence[k - 1] in Elems(sequence) && sequence[k - 1] != r;
      OtherIteration(f, globalDryRun, PassTo(f, globalDryRun, s, sequence, k - 1), sequence[k - 1], r);
    }
  }

  lemma StepNames(f: Faults, globalDryRun: bool, s: Pass, q: string, r: string)
    requires q in s.cache && r in s.rules
    ensures var t := PassStep(f, globalDryRun, s, q);
            SameRulesButStatus(t.cache, s.cache) && r in t.rules
  {
    hide EvaluateAndRecord, Skipped, Merged;
  }

  lemma {:induction false} CacheNames(f: Faults, globalDryRun: bool, s: Pass, sequence: seq<string>, i: nat, r: string)
    requires i <= |sequence| && Elems(sequence) <= s.cache.Keys && r in s.rules
    ensures SameRulesButStatus(PassTo(f, globalDryRun, s, sequence, i).cache, s.cache)
    ensures r in PassTo(f, globalDryRun, s, sequence, i).rules
  {
    hide PassStep;
    if i > 0 {
      CacheNames(f, globalDryRun, s, sequence, i - 1, r);
      assert sequence[i - 1] in Elems(sequence);
      StepNames(f, globalDryRun, PassTo(f, globalDryRun, s, sequence, i - 1), sequence[i - 1], r);
    }
  }

  lemma UpsertIndex(evals: seq<NodeEvaluation>, e: NodeEvaluation)
    ensures EntryOrBlank(Upsert(evals, e), e.nodeName) == e && HasEntry(Upsert(evals, e), e.nodeName)
  {
    var i := IndexOf(evals, e.nodeName);
    var j := IndexOf(Upsert(evals, e), e.nodeName);
    assert Upsert(evals, e)[i] == e;
    assert forall k :: 0 <= k < i ==> Upsert(evals, e)[k] == evals[k];
    assert i == j;
  }

  /** The iteration of an active rule writes its fresh evaluation over the stored entry. */
  lemma OwnIteration(f: Faults, globalDryRun: bool, s: Pass, r: string)
    requires FaultFree(f) && r in s.cache && s.cache[r].name == r && r in s.rules
    requires s.local.name in s.nodes && Current(s.local, s.nodes[s.local.name])
    requires Active(s.cache[r], globalDryRun, s.nodes[s.local.name])
    requires HasEntry(s.rules[r].status.nodeEvaluations, s.local.name) && s.local.name != ""
    requires SchemaAccepts(s.rules[r].status) && SchemaAccepts(s.cache[r].status)
    ensures var t := PassStep(f, globalDryRun, s, r);
            && r in t.rules && t.rules[r] == s.rules[r].(status := t.rules[r].status)
            && Merged(t.cache[r].status, s.rules[r].status, s.local.name) == Some(t.rules[r].status)
            && EntryOrBlank(t.rules[r].status.nodeEvaluations, s.local.name) == EvaluationOf(s.cache[r], s.local)
            && t.cache[r] == s.cache[r].(status := s.cache[r].status.(nodeEvaluations :=
                 Upsert(s.cache[r].status.nodeEvaluations, EvaluationOf(s.cache[r], s.local))))
  {
    hide Upsert, EvaluationOf, Evaluation.Decide, EvaluateAndRecord, Filter, Merged, HasEntry, SchemaAccepts,
      EntryOrBlank;
    var e := EvaluateAndRecord(f, s.cache[r], s.nodes, s.local);
    RecordedEvaluation(f, s.cache[r], s.nodes, s.local);
    EvaluateActs(f, s.cache[r], s.nodes, s.local);
    EvaluateAccepted(f, s.cache[r], s.nodes, s.local);
    EvaluationNamed(s.cache[r], s.local);
    UpsertIndex(s.cache[r].status.nodeEvaluations, EvaluationOf(s.cache[r], s.local));
    MergeAcceptedExact(e.rule.status, s.rules[r].status, s.local.name);
  }

  lemma EvaluationNamed(rule: Rule, node: Node)
    ensures EvaluationOf(rule, node).nodeName == node.name
  {
  }

  /**
   * After a failure-free node pass, each active applicable rule with a stored entry for the node has
   * that entry say what holds now: one result per condition, and the taint present exactly while some
   * condition is unmet. Nothing else of the stored rule has changed but this node's failures.
   */
  lemma NodePassStatus(w: World, f: Faults, n: string, sequence: seq<string>, r: string)
    requires Accepted(w) && FaultFree(f) && n in w.nodes && Enumerates(sequence, w.cache, w.nodes[n].labels)
    requires OwnPairs(w, n) && r in sequence && r in w.rules
    requires r in w.cache && Active(w.cache[r], w.globalDryRun, w.nodes[n])
    requires HasEntry(w.rules[r].status.nodeEvaluations, n)
    ensures var after := ReconcileNode(w, f, n, sequence);
            && r in after.rules && after.rules[r] == w.rules[r].(status := after.rules[r].status)
            && EntryOrBlank(after.rules[r].status.nodeEvaluations, n) == EvaluationOf(w.cache[r], w.nodes[n])
            && r in after.cache
            && after.cache[r] == w.cache[r].(status := w.cache[r].status.(nodeEvaluations :=
                 Upsert(w.cache[r].status.nodeEvaluations, EvaluationOf(w.cache[r], w.nodes[n]))))
            && Merged(after.cache[r].status, w.rules[r].status, n) == Some(after.rules[r].status)
  {
    hide PassStep, PassTo, Active, EvaluationOf, Merged, HasEntry, Visited, DistinctPairs, EntryOrBlank, SchemaAccepts,
      Upsert;
    var s := Pass(w.nodes, w.rules, w.cache, w.nodes[n]);
    var j :| 0 <= j < |sequence| && sequence[j] == r;
    ProperEnumeration(w, f, n, sequence);
    assert r !in sequence[0..j] && r !in sequence[j + 1..|sequence|];
    OthersIterations(f, w.globalDryRun, s, sequence, 0, j, r);
    OthersIterations(f, w.globalDryRun, s, sequence, j + 1, |sequence|, r);
    PassVisits(f, w.globalDryRun, s, sequence, j);
    FreshAt(f, w.cache, w.globalDryRun, w.nodes[n], sequence, j);
    var t := PassTo(f, w.globalDryRun, s, sequence, j);
    PassUnfold(f, w.globalDryRun, s, sequence, j);
    VisitedKeeps(f, w.cache, w.globalDryRun, w.nodes[n], sequence, j);
    SameActive(t.cache[r], w.cache[r], w.globalDryRun, t.nodes[n]);
    OwnIteration(f, w.globalDryRun, t, r);
    SameEvaluationNow(t.cache[r], w.cache[r], t.local, w.nodes[n]);
  }

  /**
   * With a cached entry for the node, the failure becomes the node's only stored one, beside that
   * entry; without one, the write is refused and the stored rules stay as they were.
   */
  predicate FailureStored(after: Rules, before: Rules, cache: Rules, r: string, n: string)
    requires r in before && r in cache
  {
    if HasEntry(cache[r].status.nodeEvaluations, n) then
      && r in after && after[r] == before[r].(status := after[r].status)
      && Filter(after[r].status.failedNodes, FailureOf(n)) == [NodeFailure(n, "EvaluationError")]
      && EntryOrBlank(after[r].status.nodeEvaluations, n) == EntryOrBlank(cache[r].status.nodeEvaluations, n)
    else r in after && after[r] == before[r]
  }

  lemma FailedIteration(f: Faults, globalDryRun: bool, s: Pass, r: string)
    requires r in s.cache && s.cache[r].name == r && r in s.rules && s.local.name != ""
    requires SchemaAccepts(s.rules[r].status) && SchemaAccepts(s.cache[r].status)
    requires !Skipped(f, globalDryRun, s.nodes, s.local.name, s.cache[r])
             && Evaluation.Decide(s.cache[r].spec, s.local) != Evaluation.Keep
    requires f(PatchTaints(s.local.name, r)) && !f(MergeStatus(s.local.name, r))
    requires HasEntry(s.rules[r].status.nodeEvaluations, s.local.name)
    ensures FailureStored(PassStep(f, globalDryRun, s, r).rules, s.rules, s.cache, r, s.local.name)
    ensures PassStep(f, globalDryRun, s, r).cache[r] == FailureRecorded(s.cache[r], s.local.name)
  {
    hide Evaluation.Decide, Merged, WithFailure, Filter, SchemaAccepts, HasEntry, EntryOrBlank;
    var failure := NodeFailure(s.local.name, "EvaluationError");
    var now := FailureRecorded(s.cache[r], s.local.name);
    WithFailureAccepted(s.cache[r].status, failure);
    MergeAcceptedExact(now.status, s.rules[r].status, s.local.name);
    WithFailureOf(s.cache[r].status.failedNodes, failure, s.local.name);
  }

  lemma PassName(t: Pass, s: Pass)
    requires PassKept(t, s)
    ensures t.local.name == s.local.name
  {
  }

  lemma EnumeratedOnce(sequence: seq<string>, cache: Rules, labels: map<string, string>, j: nat)
    requires Enumerates(sequence, cache, labels) && j < |sequence|
    ensures Elems(sequence) <= cache.Keys && sequence[j] in cache
    ensures sequence[j] !in sequence[0..j] && sequence[j] !in sequence[j + 1..|sequence|]
  {
    assert sequence[j] in Elems(sequence);
  }

  /**
   * When the j-th rule of a node pass decides on a patch and it is rejected, then, whatever else fails,
   * the failure is stored exactly when the cached rule has an entry for the node.
   */
  lemma FailedEvaluationStored(w: World, f: Faults, n: string, sequence: seq<string>, j: nat)
    requires Accepted(w) && NodeRead(w, f, n) && Enumerates(sequence, w.cache, w.nodes[n].labels)
    requires j < |sequence| && sequence[j] in w.rules && HasEntry(w.rules[sequence[j]].status.nodeEvaluations, n)
    requires var t, r := PassTo(f, w.globalDryRun, StartOf(w, n), sequence, j), sequence[j];
             && r in t.cache && !Skipped(f, w.globalDryRun, t.nodes, n, t.cache[r])
             && Evaluation.Decide(t.cache[r].spec, t.local) != Evaluation.Keep
    requires f(PatchTaints(n, sequence[j])) && !f(MergeStatus(n, sequence[j]))
    ensures sequence[j] in w.cache
            && FailureStored(ReconcileNode(w, f, n, sequence).rules, w.rules, w.cache, sequence[j], n)
    ensures var r, after := sequence[j], ReconcileNode(w, f, n, sequence).cache;
            && r in after
            && after[r] == w.cache[r].(status := w.cache[r].status.(failedNodes := after[r].status.failedNodes))
            && Filter(after[r].status.failedNodes, FailureOf(n)) == [NodeFailure(n, "EvaluationError")]
            && Filter(after[r].status.failedNodes, FailureElsewhere(n))
               == Filter(w.cache[r].status.failedNodes, FailureElsewhere(n))
  {
    hide PassStep, PassTo, Skipped, Evaluation.Decide, HasEntry, EntryOrBlank, SchemaAccepts, Filter, WithFailure,
      PassKept,
      ApplicableRules, Distinct;
    var s, r := StartOf(w, n), sequence[j];
    EnumeratedOnce(sequence, w.cache, w.nodes[n].labels, j);
    OthersIterations(f, w.globalDryRun, s, sequence, 0, j, r);
    OthersIterations(f, w.globalDryRun, s, sequence, j + 1, |sequence|, r);
    PassFrame(f, w.globalDryRun, s, sequence, j);
    PassName(PassTo(f, w.globalDryRun, s, sequence, j), s);
    PassUnfold(f, w.globalDryRun, s, sequence, j);
    FailedIteration(f, w.globalDryRun, PassTo(f, w.globalDryRun, s, sequence, j), r);
    WithFailureOf(w.cache[r].status.failedNodes, NodeFailure(n, "EvaluationError"), n);
    WithFailureMeaning(w.cache[r].status.failedNodes, NodeFailure(n, "EvaluationError"));
  }

  lemma PassUnfold(f: Faults, globalDryRun: bool, s: Pass, sequence: seq<string>, j: nat)
    requires j < |sequence| && Elems(sequence) <= s.cache.Keys
    ensures PassTo(f, globalDryRun, s, sequence, 0) == s
    ensures sequence[j] in PassTo(f, globalDryRun, s, sequence, j).cache
    ensures PassTo(f, globalDryRun, s, sequence, j + 1)
            == PassStep(f, globalDryRun, PassTo(f, globalDryRun, s, sequence, j), sequence[j])
  {
    hide PassStep;
    assert sequence[j] in Elems(sequence);
  }

  lemma SameActive(a: Rule, b: Rule, globalDryRun: bool, node: Node)
    requires a == b.(status := a.status)
    ensures Active(a, globalDryRun, node) == Active(b, globalDryRun, node)
  {
  }

  lemma SameEvaluationNow(a: Rule, b: Rule, x: Node, y: Node)
    requires a.spec == b.spec && x.name == y.name && x.conditions == y.conditions
    ensures EvaluationOf(a, x) == EvaluationOf(b, y)
  {
  }

  // ----- Accepted statuses over runs

  lemma StepAccepted(f: Faults, globalDryRun: bool, s: Pass, r: string)
    requires r in s.cache && AllAccepted(s.rules) && AllAccepted(s.cache) && s.local.name != ""
    ensures var t := PassStep(f, globalDryRun, s, r); AllAccepted(t.rules) && AllAccepted(t.cache)
  {
    hide Skipped, EvaluateAndRecord, Merged, SchemaAccepts;
    EvaluateAccepted(f, s.cache[r], s.nodes, s.local);
  }

  lemma {:induction false} PassAccepted(f: Faults, globalDryRun: bool, s: Pass, sequence: seq<string>, i: nat)
    requires i <= |sequence| && Elems(sequence) <= s.cache.Keys && AllAccepted(s.rules) && AllAccepted(s.cache)
    requires s.local.name != "" && s.local.name in s.nodes && Read(s.local, s.nodes[s.local.name])
    ensures var t := PassTo(f, globalDryRun, s, sequence, i); AllAccepted(t.rules) && AllAccepted(t.cache)
  {
    hide PassStep, AllAccepted, PassKept;
    if i > 0 {
      PassAccepted(f, globalDryRun, s, sequence, i - 1);
      assert sequence[i - 1] in Elems(sequence);
      PassFrame(f, globalDryRun, s, sequence, i - 1);
      PassName(PassTo(f, globalDryRun, s, sequence, i - 1), s);
      StepAccepted(f, globalDryRun, PassTo(f, globalDryRun, s, sequence, i - 1), sequence[i - 1]);
    }
  }

  lemma PublishAccepted(w: World, f: Faults, rule: Rule)
    requires AllAccepted(w.rules)
    ensures AllAccepted(Publish(w, f, rule).world.rules)
  {
    hide SchemaAccepts, Pruned;
  }

  lemma EnforceAccepted(w: World, f: Faults, rule: Rule)
    requires WellFormed(w) && Covered(w.nodes, w.order) && AllAccepted(w.rules) && AllAccepted(w.cache)
             && SchemaAccepts(rule.status)
    ensures var after := Enforce(w, f, rule).world; AllAccepted(after.rules) && AllAccepted(after.cache)
  {
    hide SchemaAccepts, Publish, LeaveOld, Swept, DryRunOf;
    var left := LeaveOld(w, f, rule).world.(cache := w.cache[rule.name := rule]);
    var items := Listed(left.nodes, left.order);
    var s := Swept(f, WithDryRun(rule, NoResults), left.nodes, items, |items|);
    CachedCache(left, f, rule);
    PublishAccepted(left, f, WithDryRun(rule, DryRunOf(rule.spec, items)));
    PublishAccepted(left.(nodes := s.nodes), f, SweepDone(s));
  }

  lemma ReconcileAccepted(w: World, f: Faults, r: string)
    requires Accepted(w) && Covered(w.nodes, w.order)
    ensures Accepted(ReconcileRule(w, f, r).world)
  {
    hide SchemaAccepts, Enforce, Cleaned, WithoutFinalizer;
    ReconcileWellFormed(w, f, r);
    if r in w.rules && !w.rules[r].deleting {
      var rule := w.rules[r];
      var rule1 := rule.(finalizers := rule.finalizers + [FINALIZER]);
      EnforceAccepted(w, f, rule);
      EnforceAccepted(w.(rules := w.rules[r := rule1]), f, rule1);
      LiveCarriers(w, f, r, NO_PAIR);
    }
  }

  lemma FreshAccepted()
    ensures SchemaAccepts(FRESH)
  {
  }

  lemma NextAccepted(w: World, step: Step)
    requires Accepted(w) && (step.WriteNodes? ==> "" !in step.nodes)
    ensures Accepted(Next(w, step))
  {
    hide SchemaAccepts, ReconcileRule, PassTo;
    NextWellFormed(w, step);
    FreshAccepted();
    assert forall n :: n in w.order ==> n in Elems(w.order);
    if Enabled(w, step) {
      match step {
        case NodeReconcile(n, sequence, f) =>
          if NodeRead(w, f, n) {
            PassAccepted(f, w.globalDryRun, StartOf(w, n), sequence, |sequence|);
            NodeReconcileFrame(w, f, n, sequence);
          }
        case RuleReconcile(r, f) => ReconcileAccepted(w, f, r);
        case _ =>
      }
    }
  }

  /** Along every run over named nodes, the stored and cached statuses are accepted by the schema. */
  lemma {:induction false} StatusesAccepted(ws: seq<World>, steps: seq<Step>, k: nat)
    requires Run(ws, steps) && k < |ws| && Accepted(ws[0])
    requires forall i :: 0 <= i < k && steps[i].WriteNodes? ==> "" !in steps[i].nodes
    ensures Accepted(ws[k])
  {
    hide Accepted, Next, WellFormed;
    if k > 0 {
      StatusesAccepted(ws, steps, k - 1);
      NextAccepted(ws[k - 1], steps[k - 1]);
    }
  }
}
