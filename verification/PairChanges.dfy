/** What turns a pair on or off on a node: the cause in one step, and over runs. */
module PairChanges {
  import opened Api
  import opened Evaluation
  import opened Cluster
  import opened RulePass
  import opened Runs
  import NodePass
  import Seqs
  import StatusLists
  import S = Selectors

  // ----- The causes

  /** A live rule that is not in dry run is enforced on the node. */
  predicate EnforcedOn(rule: Rule, node: Node) {
    !rule.deleting && !rule.spec.dryRun && S.Applies(rule.spec.nodeSelector, node.labels)
  }

  /**
   * Reconciling the rule as stored removes its taint from the node: it is ready there, has visibly left, or
   * is being deleted.
   */
  predicate TakesOff(w: World, r: string, node: Node)
    requires r in w.rules
  {
    var rule := w.rules[r];
    if rule.deleting then FINALIZER in rule.finalizers && S.Applies(rule.spec.nodeSelector, node.labels)
    else Leaves(w, r, node) || (EnforcedOn(rule, node) && AllSatisfied(rule.spec.conditions, node.conditions))
  }

  predicate PutsOn(w: World, r: string, node: Node)
    requires r in w.rules
  {
    EnforcedOn(w.rules[r], node) && !AllSatisfied(w.rules[r].spec.conditions, node.conditions)
  }

  /**
   * The stored rule manages the pair, and reconciling it turns the pair on the node off if it is on, and on
   * if it is off.
   */
  predicate Turns(w: World, r: string, node: Node, p: Taint)
    requires r in w.rules
  {
    SamePair(p, w.rules[r].spec.taint) && if HasTaint(node.taints, p) then TakesOff(w, r, node) else PutsOn(w, r, node)
  }

  /** A pass over the node evaluates a rule of the pair that is ready if the pair is on, and unready if it is off. */
  ghost predicate TurnsInPass(w: World, f: Faults, n: string, sequence: seq<string>, p: Taint)
    requires n in w.nodes && Enumerates(sequence, w.cache, w.nodes[n].labels)
  {
    exists j :: 0 <= j < |sequence| && EvaluatesAt(f, w.globalDryRun, StartOf(w, n), sequence, j)
      && sequence[j] in w.cache
                && Disagrees(w.cache[sequence[j]].spec, w.nodes[n].conditions, p, HasTaint(w.nodes[n].taints, p))
  }

  /** The step has a reason to turn the pair on node n. */
  ghost predicate Reason(w: World, step: Step, n: string, p: Taint)
    requires n in w.nodes
  {
    match step
    case NodeReconcile(m, sequence, f) =>
      && m == n && NodeRead(w, f, n) && Enumerates(sequence, w.cache, w.nodes[n].labels)
      && TurnsInPass(w, f, n, sequence, p)
    case RuleReconcile(r, _) => r in w.rules && Turns(w, r, w.nodes[n], p)
    case _ => false
  }

  // ----- One rule reconcile, whatever fails

  lemma CleanedKeepsPair(f: Faults, r: string, q: Taint, targets: Node -> bool, node: Node, p: Taint)
    ensures var after := CleanedNode(f, r, q, targets, node);
            && after == node.(taints := after.taints)
            && (HasTaint(after.taints, p) != HasTaint(node.taints, p) ==>
                  SamePair(p, q) && targets(node) && HasTaint(node.taints, p))
  {
    hide HasTaint, Others;
    OthersSubset(node.taints, q, p);
    if SamePair(p, q) {
      NodePass.SamePairSame(node.taints, p, q);
    } else {
      OthersDecide(node.taints, q, p);
    }
  }

  /** Cleanup leaves each node as it was or cleaned. */
  lemma CleanedOne(f: Faults, r: string, q: Taint, targets: Node -> bool, nodes: Nodes, order: seq<string>, n: string)
    requires NodesListed(nodes, order) && n in nodes
    ensures Cleaned(f, r, q, targets, nodes, Listed(nodes, order), |order|).nodes[n]
            == CleanedNode(f, r, q, targets, nodes[n])
  {
    hide Cleaned, CleanedNode;
    CleanedPointwise(f, r, q, targets, nodes, order, |order|);
    assert order[..|order|] == order;
    assert n in Seqs.Elems(order);
  }

  lemma LeftKeepsPair(w: World, f: Faults, rule: Rule, n: string, p: Taint)
    requires WellFormed(w) && rule.name in w.rules && rule.spec == w.rules[rule.name].spec && n in w.nodes
    ensures var left := LeaveOld(w, f, rule).world.nodes;
            && n in left && left[n] == w.nodes[n].(taints := left[n].taints)
            && (left[n] != w.nodes[n] ==> !S.Applies(rule.spec.nodeSelector, w.nodes[n].labels))
            && (HasTaint(left[n].taints, p) != HasTaint(w.nodes[n].taints, p) ==>
                  SamePair(p, rule.spec.taint) && Leaves(w, rule.name, w.nodes[n]) && HasTaint(w.nodes[n].taints, p))
  {
    hide Cleaned, CleanedNode, HasTaint, S.SelectorChanged, S.Applies, S.Matches, S.ValidSelector;
    if ChangeNoticed(w, rule.name) {
      var targets := LeavingTargets(w.cache[rule.name].spec.nodeSelector, rule.spec.nodeSelector);
      CleanedOne(f, rule.name, rule.spec.taint, targets, w.nodes, w.order, n);
      CleanedKeepsPair(f, rule.name, rule.spec.taint, targets, w.nodes[n], p);
      UntargetedKept(f, rule.name, rule.spec.taint, targets, w.nodes[n]);
      assert |Listed(w.nodes, w.order)| == |w.order|;
    }
  }

  lemma UntargetedKept(f: Faults, r: string, q: Taint, targets: Node -> bool, node: Node)
    ensures !targets(node) ==> CleanedNode(f, r, q, targets, node) == node
  {
  }

  lemma SweptKeepsPair(f: Faults, rule: Rule, node: Node, p: Taint)
    ensures var after := SweptNode(f, rule, node);
            && Read(after, node)
            && (HasTaint(after.taints, p) != HasTaint(node.taints, p) ==>
                  && SamePair(p, rule.spec.taint) && S.Applies(rule.spec.nodeSelector, node.labels)
                  && AllSatisfied(rule.spec.conditions, node.conditions) == HasTaint(node.taints, p))
  {
    hide HasTaint, AllSatisfied, Others, Enforced, S.Applies;
    if SamePair(p, rule.spec.taint) {
      EnforcedMeaning(rule.spec, node);
      NodePass.SamePairSame(node.taints, p, rule.spec.taint);
      NodePass.SamePairSame(Enforced(rule.spec, node), p, rule.spec.taint);
    } else {
      EnforcedFrame(rule.spec, node, p);
    }
  }

  /** Whatever fails later, enforcing sweeps the nodes once they are listed, and leaves them otherwise. */
  lemma CachedNodesAny(w: World, f: Faults, rule: Rule)
    requires NodesListed(w.nodes, w.order)
    ensures EnforceCached(w, f, rule).world.nodes
            == if rule.spec.dryRun || f(ListForProcessing(rule.name)) then w.nodes
               else map n | n in w.nodes :: SweptNode(f, WithDryRun(rule, NoResults), w.nodes[n])
  {
    hide Swept, SweptNode, Publish, StatusLists.DryRunOf;
    SweptNodes(f, WithDryRun(rule, NoResults), w.nodes, w.order);
    assert |Listed(w.nodes, w.order)| == |w.order|;
  }

  lemma EnforceKeepsPair(w: World, f: Faults, rule: Rule, n: string, p: Taint)
    requires WellFormed(w) && rule.name in w.rules && !rule.deleting && n in w.nodes
    requires rule == w.rules[rule.name].(finalizers := rule.finalizers)
    ensures var after := Enforce(w, f, rule).world.nodes;
            && n in after && Read(after[n], w.nodes[n])
            && (HasTaint(after[n].taints, p) != HasTaint(w.nodes[n].taints, p) ==> Turns(w, rule.name, w.nodes[n], p))
  {
    hide LeaveOld, EnforceCached, HasTaint, AllSatisfied, S.Applies, Leaves, SweptNode;
    var left := LeaveOld(w, f, rule).world;
    LeftKeepsPair(w, f, rule, n, p);
    LeftCarriers(w, f, rule, p);
    CachedNodesAny(left.(cache := w.cache[rule.name := rule]), f, rule);
    SweptKeepsPair(f, WithDryRun(rule, NoResults), left.nodes[n], p);
  }

  lemma FinalizeKeepsPair(w: World, f: Faults, rule: Rule, n: string, p: Taint)
    requires WellFormed(w) && rule.name in w.rules && rule.deleting && rule == w.rules[rule.name] && n in w.nodes
    ensures var after := Finalize(w, f, rule).world.nodes;
            && n in after && Read(after[n], w.nodes[n])
            && (HasTaint(after[n].taints, p) != HasTaint(w.nodes[n].taints, p) ==> Turns(w, rule.name, w.nodes[n], p))
  {
    hide Cleaned, CleanedNode, HasTaint, S.Applies, StatusLists.WithoutFinalizer;
    var targets := DeletionTargets(rule.spec.nodeSelector);
    CleanedOne(f, rule.name, rule.spec.taint, targets, w.nodes, w.order, n);
    CleanedKeepsPair(f, rule.name, rule.spec.taint, targets, w.nodes[n], p);
    assert |Listed(w.nodes, w.order)| == |w.order|;
  }

  lemma RuleReconcileKeepsPair(w: World, f: Faults, r: string, n: string, p: Taint)
    requires WellFormed(w) && Covered(w.nodes, w.order) && n in w.nodes
    ensures var after := ReconcileRule(w, f, r).world.nodes;
            && n in after && Read(after[n], w.nodes[n])
            && (HasTaint(after[n].taints, p) != HasTaint(w.nodes[n].taints, p)
                ==> r in w.rules && Turns(w, r, w.nodes[n], p))
  {
    hide Enforce, Finalize, HasTaint, AllSatisfied, S.Applies, S.SelectorChanged, S.Matches;
    if r in w.rules {
      var rule := w.rules[r];
      if rule.deleting {
        FinalizeKeepsPair(w, f, rule, n, p);
      } else {
        var rule1 := rule.(finalizers := rule.finalizers + [FINALIZER]);
        EnforceKeepsPair(w, f, rule, n, p);
        EnforceKeepsPair(w.(rules := w.rules[r := rule1]), f, rule1, n, p);
      }
    }
  }

  /** Without failures, reconciling a stored rule turns the pair on a node exactly when it has a reason to. */
  lemma TurnsExact(w: World, f: Faults, r: string, n: string, p: Taint)
    requires WellFormed(w) && FaultFree(f) && r in w.rules && n in w.nodes
    requires !w.rules[r].deleting && ChangeNoticed(w, r) ==> S.ValidSelector(w.cache[r].spec.nodeSelector)
    ensures Covered(w.nodes, w.order)
    ensures var after := ReconcileRule(w, f, r).world.nodes;
            n in after && (HasTaint(after[n].taints, p) != HasTaint(w.nodes[n].taints, p)
                           <==> Turns(w, r, w.nodes[n], p))
  {
    hide ReconcileRule, HasTaint, Others, AllSatisfied, S.Applies, Leaves, S.ValidSelector, ChangeNoticed, CleanedNode;
    assert Covered(w.nodes, w.order) by {
      assert forall m :: m in w.order ==> m in Seqs.Elems(w.order);
    }
    RuleReconcileKeepsPair(w, f, r, n, p);
    var rule := w.rules[r];
    if SamePair(p, rule.spec.taint) && (rule.deleting ==> Finalizing(w, r)) {
      NodePass.SamePairSame(w.nodes[n].taints, p, rule.spec.taint);
      NodePass.SamePairSame(ReconcileRule(w, f, r).world.nodes[n].taints, p, rule.spec.taint);
      if rule.deleting {
        FinalizerProtocol(w, f, r);
      } else {
        FullEffect(w, f, r, n);
      }
    }
  }

  /** The node carries the taint of a cached rule that applies to it and is unready there. */
  predicate Held(w: World, q: string, n: string)
    requires q in w.cache
  {
    var spec := w.cache[q].spec;
    && n in w.nodes && S.Applies(spec.nodeSelector, w.nodes[n].labels)
    && !AllSatisfied(spec.conditions, w.nodes[n].conditions) && HasTaint(w.nodes[n].taints, spec.taint)
  }

  /**
   * Without failures, reconciling rule r leaves what cached rule q holds alone exactly when r, as stored,
   * has another pair, or takes its taint off none of those nodes.
   */
  lemma OtherTaintsKeptExact(w: World, f: Faults, r: string, q: string)
    requires WellFormed(w) && FaultFree(f) && r in w.rules && q in w.cache
    requires !w.rules[r].deleting && ChangeNoticed(w, r) ==> S.ValidSelector(w.cache[r].spec.nodeSelector)
    ensures Covered(w.nodes, w.order)
    ensures var after, p := ReconcileRule(w, f, r).world.nodes, w.cache[q].spec.taint;
            (forall n :: Held(w, q, n) ==> n in after && HasTaint(after[n].taints, p))
            <==> !SamePair(p, w.rules[r].spec.taint) || forall n :: Held(w, q, n) ==> !TakesOff(w, r, w.nodes[n])
  {
    hide ReconcileRule, HasTaint, AllSatisfied, S.Applies, TakesOff, PutsOn, S.ValidSelector, ChangeNoticed;
    assert Covered(w.nodes, w.order) by {
      assert forall m :: m in w.order ==> m in Seqs.Elems(w.order);
    }
    var after, p := ReconcileRule(w, f, r).world.nodes, w.cache[q].spec.taint;
    forall n | Held(w, q, n)
      ensures n in after && (HasTaint(after[n].taints, p)
                             <==> !SamePair(p, w.rules[r].spec.taint) || !TakesOff(w, r, w.nodes[n]))
    {
      TurnsExact(w, f, r, n, p);
    }
  }

  // ----- Any step, and runs

  /** A controller step changes the pair on a node only for a reason. */
  lemma NextKeepsPair(w: World, step: Step, n: string, p: Taint)
    requires WellFormed(w) && n in w.nodes && !step.WriteNodes?
    ensures var after := Next(w, step).nodes;
            && n in after && after[n].labels == w.nodes[n].labels
            && (HasTaint(after[n].taints, p) != HasTaint(w.nodes[n].taints, p) ==> Reason(w, step, n, p))
  {
    hide HasTaint, AllSatisfied, ReconcileRule, PassTo, Turns, EvaluatesAt;
    assert forall m :: m in w.order ==> m in Seqs.Elems(w.order);
    if Enabled(w, step) {
      match step {
        case NodeReconcile(m, sequence, f) =>
          if NodeRead(w, f, m) {
            NodeReconcileFrame(w, f, m, sequence);
            if m == n && !TurnsInPass(w, f, n, sequence, p) {
              assert forall j :: 0 <= j < |sequence| ==> sequence[j] in Seqs.Elems(sequence);
              PassKeepsPair(f, w.globalDryRun, StartOf(w, n), sequence, |sequence|, p, HasTaint(w.nodes[n].taints, p));
            }
          }
        case RuleReconcile(r, f) => RuleReconcileKeepsPair(w, f, r, n, p);
        case _ =>
      }
    }
  }

  /** Others leave the pair on node n as it is. */
  predicate HandsOff(w: World, step: Step, n: string, p: Taint) {
    step.WriteNodes? && n in w.nodes ==>
      n in step.nodes && HasTaint(step.nodes[n].taints, p) == HasTaint(w.nodes[n].taints, p)
  }

  /**
   * Along every run in which only the controller touches the pair on node n, with any failures, the node
   * gains the pair only by a step that found an applicable rule of that pair unready there, and loses it
   * only by one that found such a rule ready, visibly gone from the node, or being deleted.
   */
  lemma {:induction false} PairChangeSound(
    ws: seq<World>, steps: seq<Step>, n: string, p: Taint, k: nat) returns (i: nat)
    requires Run(ws, steps) && k < |ws| && n in ws[0].nodes
    requires forall j :: 0 <= j < k ==> HandsOff(ws[j], steps[j], n, p)
    requires n in ws[k].nodes ==> HasTaint(ws[k].nodes[n].taints, p) != HasTaint(ws[0].nodes[n].taints, p)
    ensures i < k && n in ws[i].nodes && HasTaint(ws[i].nodes[n].taints, p) == HasTaint(ws[0].nodes[n].taints, p)
    ensures Reason(ws[i], steps[i], n, p)
  {
    hide Next, HasTaint, Reason, WellFormed;
    if n !in ws[k - 1].nodes || HasTaint(ws[k - 1].nodes[n].taints, p) != HasTaint(ws[0].nodes[n].taints, p) {
      i := PairChangeSound(ws, steps, n, p, k - 1);
    } else {
      i := k - 1;
      FormedAlong(ws, steps, i);
      if steps[i].WriteNodes? {
        WrittenPair(ws[i], steps[i], n, p);
      } else {
        NextKeepsPair(ws[i], steps[i], n, p);
      }
    }
  }

  lemma WrittenPair(w: World, step: Step, n: string, p: Taint)
    requires step.WriteNodes? && n in w.nodes && HandsOff(w, step, n, p)
    ensures n in Next(w, step).nodes && HasTaint(Next(w, step).nodes[n].taints, p) == HasTaint(w.nodes[n].taints, p)
  {
  }

  lemma {:induction false} FormedAlong(ws: seq<World>, steps: seq<Step>, k: nat)
    requires Run(ws, steps) && k < |ws|
    ensures WellFormed(ws[k])
  {
    hide Next, WellFormed;
    if k > 0 {
      FormedAlong(ws, steps, k - 1);
      NextWellFormed(ws[k - 1], steps[k - 1]);
    }
  }
}
