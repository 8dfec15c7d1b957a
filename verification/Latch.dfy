/** Bootstrap completion over runs: where completion annotations come from, and what they stop. */
module Latch {
  import opened Seqs
  import opened Api
  import opened Evaluation
  import opened Cluster
  import NodePass
  import opened RulePass
  import opened PairChanges
  import opened Runs
  import S = Selectors

  // ----- What one evaluation does to annotations

  predicate Annotated(nodes: Nodes, n: string, r: string) {
    n in nodes && LatchKey(r) in nodes[n].annotations
  }

  /** No annotation is lost or overwritten. */
  predicate AnnotationsKept(after: Nodes, before: Nodes) {
    forall n, k :: n in before && k in before[n].annotations ==>
      n in after && k in after[n].annotations && after[n].annotations[k] == before[n].annotations[k]
  }

  lemma KeptTransitive(a: Nodes, b: Nodes, c: Nodes)
    ensures AnnotationsKept(c, c)
    ensures AnnotationsKept(a, b) && AnnotationsKept(b, c) ==> AnnotationsKept(a, c)
  {
  }

  /** The evaluation removes the taint of a bootstrap-only rule and the patch is accepted. */
  predicate RemovalAccepted(f: Faults, rule: Rule, nodes: Nodes, local: Node) {
    && rule.spec.enforcementMode == BOOTSTRAP_ONLY
    && Decide(rule.spec, local) == Remove && PatchAccepted(f, nodes, local.name, rule.name)
  }

  /** Completion: the removal was accepted and so was the mark. */
  predicate Completes(f: Faults, rule: Rule, nodes: Nodes, local: Node) {
    RemovalAccepted(f, rule, nodes, local) && !f(MarkLatch(local.name, rule.name))
  }

  lemma EvaluateAnnotates(f: Faults, rule: Rule, nodes: Nodes, local: Node, n: string, r: string)
    requires local.name in nodes && Read(local, nodes[local.name])
    ensures var e := EvaluateAndRecord(f, rule, nodes, local);
            && AnnotationsKept(e.nodes, nodes)
            && (Annotated(e.nodes, n, r) <==>
                  Annotated(nodes, n, r) || (n == local.name && r == rule.name && Completes(f, rule, nodes, local)))
  {
    hide Enforced, Decide, Recorded, FailureRecorded, LatchKey;
    LatchKeyInjective(r, rule.name);
  }

  /** Iteration j of a pass evaluates its rule and completes it. */
  predicate CompletesAt(f: Faults, globalDryRun: bool, s: Pass, sequence: seq<string>, j: nat)
    requires j < |sequence| && Elems(sequence) <= s.cache.Keys
  {
    assert sequence[j] in Elems(sequence);
    var t := PassTo(f, globalDryRun, s, sequence, j);
    var rule := t.cache[sequence[j]];
    !Skipped(f, globalDryRun, t.nodes, t.local.name, rule) && Completes(f, rule, t.nodes, t.local)
  }

  lemma PassStepAnnotates(f: Faults, globalDryRun: bool, s: Pass, q: string, n: string, r: string)
    requires q in s.cache && s.cache[q].name == q && s.local.name in s.nodes && Read(s.local, s.nodes[s.local.name])
    ensures var after := PassStep(f, globalDryRun, s, q).nodes;
            && AnnotationsKept(after, s.nodes)
            && (Annotated(after, n, r) <==>
                  || Annotated(s.nodes, n, r)
                  || (&& n == s.local.name && r == q && !Skipped(f, globalDryRun, s.nodes, s.local.name, s.cache[q])
                      && Completes(f, s.cache[q], s.nodes, s.local)))
  {
    hide EvaluateAndRecord, Skipped, Completes, StatusMerged, Annotated, AnnotationsKept;
    KeptTransitive(s.nodes, s.nodes, s.nodes);
    EvaluateAnnotates(f, s.cache[q], s.nodes, s.local, n, r);
  }

  /** Some iteration before i completes r. */
  ghost predicate CompletesBefore(f: Faults, globalDryRun: bool, s: Pass, sequence: seq<string>, i: nat, r: string)
    requires i <= |sequence| && Elems(sequence) <= s.cache.Keys
  {
    exists j :: 0 <= j < i && sequence[j] == r && CompletesAt(f, globalDryRun, s, sequence, j)
  }

  lemma CompletesBeforeStep(f: Faults, globalDryRun: bool, s: Pass, sequence: seq<string>, i: nat, r: string)
    requires i < |sequence| && Elems(sequence) <= s.cache.Keys
    ensures CompletesBefore(f, globalDryRun, s, sequence, i + 1, r)
            <==> CompletesBefore(f, globalDryRun, s, sequence, i, r)
                 || (sequence[i] == r && CompletesAt(f, globalDryRun, s, sequence, i))
  {
    hide CompletesAt;
  }

  lemma NothingCompletes(f: Faults, globalDryRun: bool, s: Pass, sequence: seq<string>, r: string)
    requires Elems(sequence) <= s.cache.Keys
    ensures !CompletesBefore(f, globalDryRun, s, sequence, 0, r)
  {
  }

  lemma PassAnnotatesNext(f: Faults, globalDryRun: bool, s: Pass, sequence: seq<string>, i: nat, n: string, r: string)
    requires i < |sequence| && Elems(sequence) <= s.cache.Keys && Named(s.cache)
    requires s.local.name in s.nodes && Read(s.local, s.nodes[s.local.name])
    ensures var t, u := PassTo(f, globalDryRun, s, sequence, i), PassTo(f, globalDryRun, s, sequence, i + 1);
            && AnnotationsKept(u.nodes, t.nodes)
            && (Annotated(u.nodes, n, r) <==>
                  || Annotated(t.nodes, n, r)
                  || (n == s.local.name && sequence[i] == r && CompletesAt(f, globalDryRun, s, sequence, i)))
  {
    hide PassStep, Skipped, Completes, Annotated, AnnotationsKept;
    PassFrame(f, globalDryRun, s, sequence, i);
    assert sequence[i] in Elems(sequence);
    PassStepAnnotates(f, globalDryRun, PassTo(f, globalDryRun, s, sequence, i), sequence[i], n, r);
  }

  lemma {:induction false} PassAnnotates(
    f: Faults, globalDryRun: bool, s: Pass, sequence: seq<string>, i: nat, n: string, r: string)
    requires i <= |sequence| && Elems(sequence) <= s.cache.Keys && Named(s.cache)
    requires s.local.name in s.nodes && Read(s.local, s.nodes[s.local.name])
    ensures var t := PassTo(f, globalDryRun, s, sequence, i);
            && AnnotationsKept(t.nodes, s.nodes)
            && (Annotated(t.nodes, n, r) <==>
                  Annotated(s.nodes, n, r)
                    || (n == s.local.name && CompletesBefore(f, globalDryRun, s, sequence, i, r)))
  {
    hide PassStep, CompletesAt, CompletesBefore, Annotated, AnnotationsKept;
    if i == 0 {
      KeptTransitive(s.nodes, s.nodes, s.nodes);
      NothingCompletes(f, globalDryRun, s, sequence, r);
    } else {
      PassAnnotates(f, globalDryRun, s, sequence, i - 1, n, r);
      PassAnnotatesNext(f, globalDryRun, s, sequence, i - 1, n, r);
      KeptTransitive(PassTo(f, globalDryRun, s, sequence, i).nodes, PassTo(f, globalDryRun, s, sequence, i - 1).nodes,
                     s.nodes);
      CompletesBeforeStep(f, globalDryRun, s, sequence, i - 1, r);
    }
  }

  // ----- Where a completion annotation comes from

  /** The sweep of this rule is reached, applies to the node, and completes the rule there. */
  predicate EnforceCompletes(w: World, f: Faults, rule: Rule, n: string)
    requires Covered(w.nodes, w.order)
  {
    && n in w.nodes && !rule.spec.dryRun && LeaveOld(w, f, rule).ok && !f(ListForProcessing(rule.name))
    && S.Applies(rule.spec.nodeSelector, w.nodes[n].labels)
    && Completes(f, rule, w.nodes, w.nodes[n])
  }

  /** No call before enforcement is rejected. */
  predicate EnforcementReached(f: Faults, rule: Rule) {
    && !f(GetRule(rule.name)) && !rule.deleting
    && (FINALIZER in rule.finalizers || (!f(AddFinalizer(rule.name)) && !f(RefreshRule(rule.name))))
  }

  /**
   * The step evaluated the bootstrap-only rule r on node n, found its conditions met, and had both the
   * removal of its taint and the mark accepted.
   */
  ghost predicate Completed(w: World, step: Step, n: string, r: string) {
    match step
    case NodeReconcile(m, sequence, f) =>
      && m == n && WellFormed(w) && NodeRead(w, f, n) && Enumerates(sequence, w.cache, w.nodes[n].labels)
      && CompletesBefore(f, w.globalDryRun, StartOf(w, n), sequence, |sequence|, r)
    case RuleReconcile(q, f) =>
      && q == r && WellFormed(w) && Covered(w.nodes, w.order) && r in w.rules
      && EnforcementReached(f, w.rules[r]) && EnforceCompletes(w, f, w.rules[r], n)
    case _ => false
  }

  /** Completion means the rule was ready on that node at that moment. */
  lemma CompletedMeaning(w: World, step: Step, n: string, r: string)
    requires Completed(w, step, n, r)
    ensures n in w.nodes
    ensures var rules := if step.NodeReconcile? then w.cache else w.rules;
            && r in rules && rules[r].spec.enforcementMode == BOOTSTRAP_ONLY && !rules[r].spec.dryRun
            && AllSatisfied(rules[r].spec.conditions, w.nodes[n].conditions)
  {
    hide PassTo, HasTaint, AllSatisfied, LatchKey;
    if step.NodeReconcile? {
      var f, sequence := step.f, step.sequence;
      var j :| 0 <= j < |sequence| && sequence[j] == r && CompletesAt(f, w.globalDryRun, StartOf(w, n), sequence, j);
      PassFrame(f, w.globalDryRun, StartOf(w, n), sequence, j);
      assert r in Elems(sequence);
    }
  }

  lemma FinalizeAnnotates(w: World, f: Faults, rule: Rule, n: string, r: string)
    requires WellFormed(w) && Covered(w.nodes, w.order)
    ensures var after := Finalize(w, f, rule).world.nodes;
            AnnotationsKept(after, w.nodes) && Annotated(after, n, r) == Annotated(w.nodes, n, r)
  {
    hide Cleaned, LatchKey, S.Applies;
    CleanedAnnotations(f, rule.name, rule.spec.taint, DeletionTargets(rule.spec.nodeSelector), w.nodes, w.order);
    assert |Listed(w.nodes, w.order)| == |w.order|;
  }

  lemma CompletesIgnoresFinalizers(w: World, w1: World, f: Faults, rule: Rule, rule1: Rule, n: string)
    requires w1 == w.(rules := w1.rules) && Covered(w.nodes, w.order) && rule1 == rule.(finalizers := rule1.finalizers)
    ensures EnforceCompletes(w1, f, rule1, n) == EnforceCompletes(w, f, rule, n)
  {
    hide Cleaned, S.Applies, S.SelectorChanged, S.ValidSelector, Decide, LatchKey;
  }

  /** One rule reconcile loses no annotation and adds exactly the completed ones. */
  lemma RuleReconcileAnnotates(w: World, f: Faults, q: string, n: string, r: string)
    requires WellFormed(w) && Covered(w.nodes, w.order)
    ensures var after := ReconcileRule(w, f, q).world.nodes;
            && AnnotationsKept(after, w.nodes)
            && (Annotated(after, n, r)
                <==> Annotated(w.nodes, n, r) || (r == q && Completed(w, RuleReconcile(q, f), n, r)))
  {
    hide Enforce, Finalize, Annotated, AnnotationsKept, EnforceCompletes;
    KeptTransitive(w.nodes, w.nodes, w.nodes);
    if q in w.rules {
      var rule := w.rules[q];
      var rule1 := rule.(finalizers := rule.finalizers + [FINALIZER]);
      var w1 := w.(rules := w.rules[q := rule1]);
      FinalizeAnnotates(w, f, rule, n, r);
      EnforceAnnotates(w, f, rule, n, r);
      EnforceAnnotates(w1, f, rule1, n, r);
      CompletesIgnoresFinalizers(w, w1, f, rule, rule1, n);
    }
  }

  lemma CleanedAnnotations(f: Faults, r: string, p: Taint, targets: Node -> bool, nodes: Nodes, order: seq<string>)
    requires NodesListed(nodes, order)
    ensures var c := Cleaned(f, r, p, targets, nodes, Listed(nodes, order), |order|);
            && c.nodes.Keys == nodes.Keys
            && forall n :: n in nodes ==> c.nodes[n] == nodes[n].(taints := c.nodes[n].taints)
  {
    CleanupExact(f, r, p, targets, nodes, order);
  }

  lemma LeftAnnotations(w: World, f: Faults, rule: Rule, n: string)
    requires WellFormed(w) && n in w.nodes
    ensures var left := LeaveOld(w, f, rule).world.nodes;
            && left[n] == w.nodes[n].(taints := left[n].taints)
            && (S.Applies(rule.spec.nodeSelector, w.nodes[n].labels) ==> left[n] == w.nodes[n])
            && NodesListed(left, w.order)
  {
    hide Cleaned, HasTaint, Others, S.SelectorChanged, S.ValidSelector, S.Applies, S.Matches;
    if rule.name in w.cache {
      var targets := LeavingTargets(w.cache[rule.name].spec.nodeSelector, rule.spec.nodeSelector);
      CleanupExact(f, rule.name, rule.spec.taint, targets, w.nodes, w.order);
      assert |Listed(w.nodes, w.order)| == |w.order|;
    }
  }

  lemma ActAnnotates(f: Faults, rule: Rule, node: Node, k: string)
    ensures var after := NodePass.Act(f, rule, node);
            && (k in node.annotations ==> k in after.annotations && after.annotations[k] == node.annotations[k])
            && (k in after.annotations <==>
                  || k in node.annotations
                  || (&& k == LatchKey(rule.name) && rule.spec.enforcementMode == BOOTSTRAP_ONLY
                      && Decide(rule.spec, node) == Remove
                      && !f(PatchTaints(node.name, rule.name)) && !f(MarkLatch(node.name, rule.name))))
  {
    hide Enforced, Decide, LatchKey;
  }

  /** The swept node, annotation by annotation. */
  lemma SweptNodeAnnotates(w: World, f: Faults, rule: Rule, m: string, k: string)
    requires WellFormed(w) && m in w.nodes
    ensures var before, after := w.nodes[m],
            SweptNode(f, WithDryRun(rule, NoResults), LeaveOld(w, f, rule).world.nodes[m]);
            && (k in before.annotations ==> k in after.annotations && after.annotations[k] == before.annotations[k])
            && (k in after.annotations <==>
                  || k in before.annotations
                  || (&& k == LatchKey(rule.name) && S.Applies(rule.spec.nodeSelector, before.labels)
                      && Completes(f, rule, w.nodes, before)))
  {
    hide LeaveOld, Decide, NodePass.Act, LatchKey, S.Applies;
    LeftAnnotations(w, f, rule, m);
    ActAnnotates(f, WithDryRun(rule, NoResults), LeaveOld(w, f, rule).world.nodes[m], k);
  }

  lemma LeftKeepsAnnotations(w: World, f: Faults, rule: Rule, n: string, r: string)
    requires WellFormed(w)
    ensures var left := LeaveOld(w, f, rule).world.nodes;
            AnnotationsKept(left, w.nodes) && Annotated(left, n, r) == Annotated(w.nodes, n, r)
  {
    hide LeaveOld, LatchKey, S.Applies;
    forall m | m in w.nodes
      ensures LeaveOld(w, f, rule).world.nodes[m].annotations == w.nodes[m].annotations
    {
      LeftAnnotations(w, f, rule, m);
    }
  }

  lemma SweepAnnotates(w: World, f: Faults, rule: Rule, after: Nodes, n: string, r: string)
    requires WellFormed(w)
    requires var left := LeaveOld(w, f, rule).world.nodes;
             after == map m | m in left :: SweptNode(f, WithDryRun(rule, NoResults), left[m])
    ensures AnnotationsKept(after, w.nodes)
    ensures Annotated(after, n, r) <==>
              || Annotated(w.nodes, n, r)
              || (&& r == rule.name && n in w.nodes && S.Applies(rule.spec.nodeSelector, w.nodes[n].labels)
                  && Completes(f, rule, w.nodes, w.nodes[n]))
  {
    hide LeaveOld, SweptNode, Completes, S.Applies, LatchKey;
    LatchKeyInjective(r, rule.name);
    forall m, k | m in w.nodes
      ensures k in w.nodes[m].annotations
              ==> k in after[m].annotations && after[m].annotations[k] == w.nodes[m].annotations[k]
      ensures k in after[m].annotations <==>
                || k in w.nodes[m].annotations
                || (&& k == LatchKey(rule.name) && S.Applies(rule.spec.nodeSelector, w.nodes[m].labels)
                    && Completes(f, rule, w.nodes, w.nodes[m]))
    {
      SweptNodeAnnotates(w, f, rule, m, k);
    }
  }

  lemma EnforceAnnotates(w: World, f: Faults, rule: Rule, n: string, r: string)
    requires WellFormed(w) && Covered(w.nodes, w.order)
    ensures var after := Enforce(w, f, rule).world.nodes;
            && AnnotationsKept(after, w.nodes)
            && (Annotated(after, n, r)
                <==> Annotated(w.nodes, n, r) || (r == rule.name && EnforceCompletes(w, f, rule, n)))
  {
    hide LeaveOld, EnforceCached, Completes, Annotated, AnnotationsKept, S.Applies, SweptNode;
    var left := LeaveOld(w, f, rule).world;
    LeftListedAny(w, f, rule);
    LeftKeepsAnnotations(w, f, rule, n, r);
    if LeaveOld(w, f, rule).ok {
      CachedNodesAny(left.(cache := w.cache[rule.name := rule]), f, rule);
      if !rule.spec.dryRun && !f(ListForProcessing(rule.name)) {
        SweepAnnotates(w, f, rule, Enforce(w, f, rule).world.nodes, n, r);
      }
    }
  }

  lemma LeftListedAny(w: World, f: Faults, rule: Rule)
    requires WellFormed(w)
    ensures NodesListed(LeaveOld(w, f, rule).world.nodes, w.order)
  {
    hide LeaveOld;
    forall n | n in w.nodes
      ensures NodesListed(LeaveOld(w, f, rule).world.nodes, w.order)
    {
      LeftAnnotations(w, f, rule, n);
    }
  }

  // ----- Annotation soundness over runs

  /** Only the controller writes completion annotations of r on n. */
  predicate Untampered(w: World, step: Step, n: string, r: string) {
    step.WriteNodes? && Annotated(step.nodes, n, r) ==> Annotated(w.nodes, n, r)
  }

  /** A step of the controller or of a rule's users marks exactly the completed, and loses no annotation. */
  lemma NextAnnotates(w: World, step: Step, n: string, r: string)
    requires !step.WriteNodes?
    ensures Annotated(Next(w, step).nodes, n, r) <==> Annotated(w.nodes, n, r) || Completed(w, step, n, r)
    ensures AnnotationsKept(Next(w, step).nodes, w.nodes)
  {
    hide Annotated, AnnotationsKept, PassTo, ReconcileRule, CompletesBefore, EnforceCompletes, EnforcementReached;
    KeptTransitive(w.nodes, w.nodes, w.nodes);
    assert forall m :: m in w.order ==> m in Elems(w.order);
    if WellFormed(w) && Enabled(w, step) {
      match step {
        case NodeReconcile(m, sequence, f) =>
          if NodeRead(w, f, m) {
            PassAnnotates(f, w.globalDryRun, StartOf(w, m), sequence, |sequence|, n, r);
          }
        case RuleReconcile(q, f) => RuleReconcileAnnotates(w, f, q, n, r);
        case _ =>
      }
    }
  }

  lemma WriteAnnotates(w: World, step: Step, n: string, r: string)
    requires step.WriteNodes? && Untampered(w, step, n, r)
    ensures Annotated(Next(w, step).nodes, n, r) ==> Annotated(w.nodes, n, r)
  {
  }

  /**
   * Along every run, with any failures, a completion annotation has a cause: an earlier step that
   * evaluated the rule on that node as bootstrap-only, found all its conditions met, and had the
   * removal of its taint accepted.
   */
  lemma {:induction false} AnnotationSound(
    ws: seq<World>, steps: seq<Step>, n: string, r: string, k: nat) returns (i: nat)
    requires Run(ws, steps) && k < |ws|
    requires !Annotated(ws[0].nodes, n, r) && Annotated(ws[k].nodes, n, r)
    requires forall j :: 0 <= j < k ==> Untampered(ws[j], steps[j], n, r)
    ensures i < k && Completed(ws[i], steps[i], n, r) && n in ws[i].nodes
    ensures var rules := if steps[i].NodeReconcile? then ws[i].cache else ws[i].rules;
            && r in rules && rules[r].spec.enforcementMode == BOOTSTRAP_ONLY
            && AllSatisfied(rules[r].spec.conditions, ws[i].nodes[n].conditions)
  {
    hide Annotated, Next, Completed, AllSatisfied;
    if Annotated(ws[k - 1].nodes, n, r) {
      i := AnnotationSound(ws, steps, n, r, k - 1);
    } else {
      i := k - 1;
      if steps[i].WriteNodes? {
        WriteAnnotates(ws[i], steps[i], n, r);
      } else {
        NextAnnotates(ws[i], steps[i], n, r);
      }
      CompletedMeaning(ws[i], steps[i], n, r);
    }
  }

  // ----- No node reconcile evaluates a latched rule

  /** Node n is marked for the rule, which is bootstrap-only wherever it is cached or stored. */
  predicate Marked(w: World, n: string, latched: string) {
    && WellFormed(w) && Annotated(w.nodes, n, latched)
    && (latched in w.cache ==> w.cache[latched].spec.enforcementMode == BOOTSTRAP_ONLY)
    && (latched in w.rules ==> w.rules[latched].spec.enforcementMode == BOOTSTRAP_ONLY)
  }

  /** Nobody takes the mark off node n or the mode from the rule. */
  predicate KeepsMark(step: Step, n: string, latched: string) {
    && (step.WriteNodes? ==> Annotated(step.nodes, n, latched))
    && (step.WriteRule? && step.rule == latched ==> step.spec.enforcementMode == BOOTSTRAP_ONLY)
  }

  /** The step does not have the latch read of the node rejected. */
  predicate ReadsLatch(step: Step, n: string, latched: string) {
    step.NodeReconcile? ==> !step.f(GetLatch(n, latched))
  }

  /** No iteration of a node pass evaluates the latched rule. */
  ghost predicate NeverEvaluates(w: World, step: Step, n: string, latched: string) {
    step.NodeReconcile? && step.node == n && Enabled(w, step) && NodeRead(w, step.f, n) ==>
      forall j :: 0 <= j < |step.sequence| && step.sequence[j] == latched ==>
        !EvaluatesAt(step.f, w.globalDryRun, StartOf(w, n), step.sequence, j)
  }

  /** A node pass over a marked node evaluates the enforced latched rule exactly when its latch read is rejected. */
  lemma LatchReadDecides(w: World, f: Faults, n: string, sequence: seq<string>, latched: string, j: nat)
    requires Marked(w, n, latched) && NodeRead(w, f, n) && Enumerates(sequence, w.cache, w.nodes[n].labels)
    requires j < |sequence| && sequence[j] == latched
    ensures latched in w.cache
    ensures EvaluatesAt(f, w.globalDryRun, StartOf(w, n), sequence, j)
            <==> f(GetLatch(n, latched)) && !w.cache[latched].spec.dryRun && !w.globalDryRun
  {
    hide PassTo, LatchKey, CompletesBefore;
    PassFrame(f, w.globalDryRun, StartOf(w, n), sequence, j);
    PassAnnotates(f, w.globalDryRun, StartOf(w, n), sequence, j, n, latched);
    assert latched in Elems(sequence);
  }

  lemma MarkedSpares(w: World, step: Step, n: string, latched: string)
    requires Marked(w, n, latched) && ReadsLatch(step, n, latched)
    ensures NeverEvaluates(w, step, n, latched)
  {
    hide EvaluatesAt, Marked;
    if step.NodeReconcile? && step.node == n && Enabled(w, step) && NodeRead(w, step.f, n) {
      forall j | 0 <= j < |step.sequence| && step.sequence[j] == latched
        ensures !EvaluatesAt(step.f, w.globalDryRun, StartOf(w, n), step.sequence, j)
      {
        LatchReadDecides(w, step.f, n, step.sequence, latched, j);
      }
    }
  }

  lemma NextMarked(w: World, step: Step, n: string, latched: string)
    requires Marked(w, n, latched) && KeepsMark(step, n, latched)
    ensures Marked(Next(w, step), n, latched)
  {
    hide ReconcileRule, ReconcileNode, Annotated, AnnotationsKept, Completed, NodesListed;
    NextWellFormed(w, step);
    if !step.WriteRule? {
      StepKeepsSpecs(w, step);
    }
    if !step.WriteNodes? {
      NextAnnotates(w, step, n, latched);
    }
  }

  /**
   * The bootstrap latch. Along every run in which nobody else takes the mark off node n or the mode from
   * the rule, a node reconcile whose latch read is accepted never evaluates the rule there: whatever
   * conditions, other rules, restarts and reconciles of the rule itself do, and whatever fails.
   */
  lemma {:induction false} LatchHolds(ws: seq<World>, steps: seq<Step>, n: string, latched: string, k: nat)
    requires Run(ws, steps) && k < |ws| && Marked(ws[0], n, latched)
    requires forall i :: 0 <= i < k ==> KeepsMark(steps[i], n, latched)
    ensures Marked(ws[k], n, latched)
    ensures forall i :: 0 <= i < k && ReadsLatch(steps[i], n, latched) ==> NeverEvaluates(ws[i], steps[i], n, latched)
  {
    hide Marked, KeepsMark, ReadsLatch, NeverEvaluates, Next, WellFormed;
    if k > 0 {
      LatchHolds(ws, steps, n, latched, k - 1);
      NextMarked(ws[k - 1], steps[k - 1], n, latched);
      if ReadsLatch(steps[k - 1], n, latched) {
        MarkedSpares(ws[k - 1], steps[k - 1], n, latched);
      }
    }
  }

  // ----- The taint of a latched rule

  /** None of these rules but the latched one manages the pair on nodes with these labels. */
  predicate OnlyLatched(rules: Rules, latched: string, p: Taint, labels: map<string, string>) {
    forall r :: r in rules && r != latched ==> !Claims(rules[r], p, labels)
  }

  /** The marked node has no other rule with pair p, cached or stored. */
  predicate Alone(w: World, n: string, latched: string, p: Taint) {
    && Marked(w, n, latched) && n in w.nodes
    && OnlyLatched(w.cache, latched, p, w.nodes[n].labels) && OnlyLatched(w.rules, latched, p, w.nodes[n].labels)
  }

  /** Nobody gives the pair on node n to another rule. */
  predicate StaysAlone(w: World, step: Step, n: string, latched: string, p: Taint) {
    && (step.WriteNodes? && n in step.nodes ==>
          && OnlyLatched(w.cache, latched, p, step.nodes[n].labels)
          && OnlyLatched(w.rules, latched, p, step.nodes[n].labels))
    && (step.WriteRule? && step.rule != latched && n in w.nodes ==>
          !(SamePair(p, step.spec.taint) && S.Applies(step.spec.nodeSelector, w.nodes[n].labels)))
  }

  /** The step is not a rule reconcile with a reason to turn the pair on node n. */
  predicate NoRuleTurns(w: World, step: Step, n: string, p: Taint) {
    step.RuleReconcile? && step.rule in w.rules && n in w.nodes ==> !Turns(w, step.rule, w.nodes[n], p)
  }

  lemma NextAlone(w: World, step: Step, n: string, latched: string, p: Taint)
    requires Alone(w, n, latched, p) && KeepsMark(step, n, latched) && StaysAlone(w, step, n, latched, p)
    ensures Alone(Next(w, step), n, latched, p)
  {
    hide ReconcileRule, ReconcileNode, Marked, HasTaint, S.Applies, NodesListed;
    MarkedParts(w, n, latched);
    NextMarked(w, step, n, latched);
    if !step.WriteRule? {
      StepKeepsSpecs(w, step);
    }
    if step.WriteNodes? {
      MarkedParts(Next(w, step), n, latched);
    } else {
      NextKeepsPair(w, step, n, p);
    }
  }

  lemma MarkedParts(w: World, n: string, latched: string)
    requires Marked(w, n, latched)
    ensures WellFormed(w) && n in w.nodes
  {
  }

  /**
   * On a node where it is alone, a latched rule is the only one a pass could turn its pair for, and it is
   * not evaluated.
   */
  lemma PassTurnsNothing(w: World, f: Faults, n: string, sequence: seq<string>, latched: string, p: Taint)
    requires Alone(w, n, latched, p) && NodeRead(w, f, n) && Enumerates(sequence, w.cache, w.nodes[n].labels)
    requires !f(GetLatch(n, latched))
    ensures !TurnsInPass(w, f, n, sequence, p)
  {
    hide EvaluatesAt, HasTaint, AllSatisfied, Marked;
    forall j | 0 <= j < |sequence| && EvaluatesAt(f, w.globalDryRun, StartOf(w, n), sequence, j)
      ensures sequence[j] in w.cache && !SamePair(p, w.cache[sequence[j]].spec.taint)
    {
      assert sequence[j] in Elems(sequence);
      if SamePair(p, w.cache[sequence[j]].spec.taint) {
        assert Claims(w.cache[sequence[j]], p, w.nodes[n].labels);
        LatchReadDecides(w, f, n, sequence, latched, j);
      }
    }
  }

  lemma NextFrozen(w: World, step: Step, n: string, latched: string, p: Taint)
    requires Alone(w, n, latched, p) && KeepsMark(step, n, latched) && ReadsLatch(step, n, latched)
    requires HandsOff(w, step, n, p) && NoRuleTurns(w, step, n, p)
    ensures n in Next(w, step).nodes && HasTaint(Next(w, step).nodes[n].taints, p) == HasTaint(w.nodes[n].taints, p)
  {
    hide Next, HasTaint, Turns, TurnsInPass, Marked;
    MarkedParts(w, n, latched);
    if step.WriteNodes? {
      WrittenPair(w, step, n, p);
    } else {
      NextKeepsPair(w, step, n, p);
      if step.NodeReconcile? && step.node == n && NodeRead(w, step.f, n)
         && Enumerates(step.sequence, w.cache, w.nodes[n].labels) {
        PassTurnsNothing(w, step.f, n, step.sequence, latched, p);
      }
    }
  }

  /**
   * The taint of a latched rule is frozen: on a marked node without another rule of the pair, node
   * reconciles neither put it back when conditions fail nor take it off when they hold again. Only a rule
   * reconcile with a reason to can change it.
   */
  lemma {:induction false} LatchFreezesPair(
    ws: seq<World>, steps: seq<Step>, n: string, latched: string, p: Taint, k: nat)
    requires Run(ws, steps) && k < |ws| && Alone(ws[0], n, latched, p)
    requires forall i :: 0 <= i < k ==>
               && KeepsMark(steps[i], n, latched) && ReadsLatch(steps[i], n, latched)
               && StaysAlone(ws[i], steps[i], n, latched, p)
               && HandsOff(ws[i], steps[i], n, p) && NoRuleTurns(ws[i], steps[i], n, p)
    ensures Alone(ws[k], n, latched, p) && n in ws[0].nodes && n in ws[k].nodes
    ensures HasTaint(ws[k].nodes[n].taints, p) == HasTaint(ws[0].nodes[n].taints, p)
  {
    hide Marked, OnlyLatched, KeepsMark, ReadsLatch, StaysAlone, HandsOff, NoRuleTurns, Next, HasTaint, WellFormed;
    if k > 0 {
      LatchFreezesPair(ws, steps, n, latched, p, k - 1);
      NextAlone(ws[k - 1], steps[k - 1], n, latched, p);
      NextFrozen(ws[k - 1], steps[k - 1], n, latched, p);
    }
  }

  /**
   * The latch does not bind a reconcile of the rule itself: it taints the marked node again exactly when it
   * is unready.
   */
  lemma RuleReconcileIgnoresLatch(w: World, f: Faults, latched: string, n: string)
    requires WellFormed(w) && FaultFree(f) && Annotated(w.nodes, n, latched)
    requires latched in w.rules && !w.rules[latched].deleting && !w.rules[latched].spec.dryRun
    requires w.rules[latched].spec.enforcementMode == BOOTSTRAP_ONLY
    requires S.Applies(w.rules[latched].spec.nodeSelector, w.nodes[n].labels)
    requires ChangeNoticed(w, latched) ==> S.ValidSelector(w.cache[latched].spec.nodeSelector)
    ensures var spec, after := w.rules[latched].spec, ReconcileRule(w, f, latched).world;
            && Annotated(after.nodes, n, latched)
            && (HasTaint(after.nodes[n].taints, spec.taint) <==> !AllSatisfied(spec.conditions, w.nodes[n].conditions))
  {
    hide ReconcileRule, HasTaint, AllSatisfied, S.Applies, LatchKey, Completed;
    FullEffect(w, f, latched, n);
    assert Covered(w.nodes, w.order) by {
      assert forall m :: m in w.order ==> m in Elems(w.order);
    }
    RuleReconcileAnnotates(w, f, latched, n, latched);
  }
}
