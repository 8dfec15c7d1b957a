/** No orphaned taints: over every run, a managed taint sits only on nodes that a cached rule claims. */
module Orphans {
  import opened Seqs
  import opened Api
  import opened Evaluation
  import opened Cluster
  import NodePass
  import opened RulePass
  import opened Runs
  import S = Selectors

  predicate Claimed(cache: Rules, p: Taint, labels: map<string, string>) {
    exists r :: r in cache && Claims(cache[r], p, labels)
  }

  /** Every node carrying the pair is claimed by a cached rule. */
  predicate NoOrphans(w: World, p: Taint) {
    forall n :: n in w.nodes && HasTaint(w.nodes[n].taints, p) ==> Claimed(w.cache, p, w.nodes[n].labels)
  }

  /**
   * A cached rule is stored with its finalizer. If it manages the pair it does so as stored, too, and
   * once deleted it selects as stored.
   */
  predicate Backed(w: World, p: Taint) {
    forall r :: r in w.cache ==>
      && r in w.rules && FINALIZER in w.rules[r].finalizers
      && (SamePair(p, w.cache[r].spec.taint) ==>
            && SamePair(p, w.rules[r].spec.taint)
            && (w.rules[r].deleting ==> w.rules[r].spec.nodeSelector == w.cache[r].spec.nodeSelector))
  }

  predicate Guarded(w: World, p: Taint) {
    WellFormed(w) && Backed(w, p) && NoOrphans(w, p)
  }

  /** The rule was last reconciled with this pair. */
  predicate LastHad(w: World, r: string, p: Taint) {
    r in w.rules && r in w.cache && SamePair(p, w.cache[r].spec.taint)
  }

  /** What each step must respect for the pair to stay accounted for. */
  predicate Careful(w: World, step: Step, p: Taint) {
    match step
    case NodeReconcile(_, _, _) => true
    case RuleReconcile(r, _) =>
      // a selector change is noticed, or the comparison has nothing to miss
      LastHad(w, r, p) && !w.rules[r].deleting ==>
        ChangeNoticed(w, r) || S.NoBlindSpot(w.rules[r].spec.nodeSelector, w.cache[r].spec.nodeSelector)
    case WriteNodes(nodes, _) =>
      // others add the pair, or relabel a node that carries it, only where a cached rule claims the node
      forall n :: n in nodes && HasTaint(nodes[n].taints, p) ==>
        || (n in w.nodes && HasTaint(w.nodes[n].taints, p) && nodes[n].labels == w.nodes[n].labels)
        || Claimed(w.cache, p, nodes[n].labels)
    case WriteRule(r, spec) =>
      // no edit moves a rule away from the pair, or changes the selector of a deleted rule that has it
      LastHad(w, r, p) ==>
        SamePair(p, spec.taint) && (w.rules[r].deleting ==> spec.nodeSelector == w.rules[r].spec.nodeSelector)
    case DeleteRule(r) =>
      // deletion only of a spec whose selector was last reconciled
      LastHad(w, r, p) ==> w.rules[r].spec.nodeSelector == w.cache[r].spec.nodeSelector
    case Restart =>
      // the cache may be lost while nothing carries the pair
      forall n :: n in w.nodes ==> !HasTaint(w.nodes[n].taints, p)
  }

  // ----- Each step keeps it

  lemma ClaimsKept(after: Rules, before: Rules, p: Taint, labels: map<string, string>)
    requires NodePass.SameRulesButStatus(after, before)
    ensures Claimed(after, p, labels) == Claimed(before, p, labels)
  {
  }

  /** A node pass adds the pair only where a cached rule claims it. */
  lemma PassAddsClaimed(w: World, f: Faults, n: string, sequence: seq<string>, p: Taint)
    requires WellFormed(w) && NodeRead(w, f, n) && Enumerates(sequence, w.cache, w.nodes[n].labels)
    ensures var after := ReconcileNode(w, f, n, sequence);
            n in after.nodes && (HasTaint(after.nodes[n].taints, p) ==>
                                   HasTaint(w.nodes[n].taints, p) || Claimed(w.cache, p, w.nodes[n].labels))
  {
    hide HasTaint, S.Applies, PassTo, Skipped;
    NodeReconcileFrame(w, f, n, sequence);
    if !HasTaint(w.nodes[n].taints, p) && !Claimed(w.cache, p, w.nodes[n].labels) {
      forall j | 0 <= j < |sequence|
        ensures sequence[j] in w.cache && !SamePair(p, w.cache[sequence[j]].spec.taint)
      {
        assert sequence[j] in Elems(sequence);
        assert !Claims(w.cache[sequence[j]], p, w.nodes[n].labels);
      }
      PassKeepsPair(f, w.globalDryRun, StartOf(w, n), sequence, |sequence|, p, false);
    }
  }

  lemma NodeReconcileGuarded(w: World, f: Faults, n: string, sequence: seq<string>, p: Taint)
    requires Guarded(w, p) && NodeRead(w, f, n) && Enumerates(sequence, w.cache, w.nodes[n].labels)
    ensures Guarded(ReconcileNode(w, f, n, sequence), p)
  {
    hide HasTaint, S.Applies, ReconcileNode, Claimed;
    NodeReconcileFrame(w, f, n, sequence);
    PassAddsClaimed(w, f, n, sequence, p);
    var after := ReconcileNode(w, f, n, sequence);
    forall m | m in after.nodes
      ensures Claimed(after.cache, p, w.nodes[m].labels) == Claimed(w.cache, p, w.nodes[m].labels)
    {
      ClaimsKept(after.cache, w.cache, p, w.nodes[m].labels);
    }
  }

  /** Where the comparison misses nothing, a claimed node visibly leaves or stays claimed. */
  lemma LeavingSound(w: World, r: string, labels: map<string, string>)
    requires r in w.rules && r in w.cache && S.Applies(w.cache[r].spec.nodeSelector, labels)
    requires ChangeNoticed(w, r) || S.NoBlindSpot(w.rules[r].spec.nodeSelector, w.cache[r].spec.nodeSelector)
    ensures ChangeNoticed(w, r) || S.Applies(w.rules[r].spec.nodeSelector, labels)
  {
    if !ChangeNoticed(w, r) {
      S.UnchangedSound(w.rules[r].spec.nodeSelector, w.cache[r].spec.nodeSelector, labels);
    }
  }

  /** After the cache takes the stored rule, the carriers that remain are claimed. */
  lemma CachedAnewClaims(w: World, after: World, r: string, p: Taint, n: string)
    requires Guarded(w, p) && r in w.rules && CachedAnew(w, after, r, p)
    requires LastHad(w, r, p) ==>
               ChangeNoticed(w, r) || S.NoBlindSpot(w.rules[r].spec.nodeSelector, w.cache[r].spec.nodeSelector)
    requires n in after.nodes && HasTaint(after.nodes[n].taints, p)
    ensures Claimed(after.cache, p, after.nodes[n].labels)
  {
    hide HasTaint, S.Applies, S.NoBlindSpot, S.SelectorChanged, S.Matches;
    var labels := w.nodes[n].labels;
    assert after.nodes[n].labels == labels;
    if Claims(after.cache[r], p, labels) {
    } else {
      var q :| q in w.cache && Claims(w.cache[q], p, labels);
      if q == r {
        LeavingSound(w, r, labels);
        AppliesMatches(w.cache[r].spec.nodeSelector, labels);
      }
      assert q in after.cache && Claims(after.cache[q], p, labels);
    }
  }

  lemma AppliesMatches(s: Selector, labels: map<string, string>)
    ensures S.Applies(s, labels) ==> S.Matches(s, labels)
  {
  }

  lemma LiveGuarded(w: World, f: Faults, r: string, p: Taint)
    requires Guarded(w, p) && Careful(w, RuleReconcile(r, f), p) && Covered(w.nodes, w.order)
    requires r in w.rules && !w.rules[r].deleting
    ensures Guarded(ReconcileRule(w, f, r).world, p)
  {
    hide HasTaint, S.Applies, ReconcileRule, S.NoBlindSpot, Claimed, CarriersFit;
    LiveCarriers(w, f, r, p);
    var after := ReconcileRule(w, f, r).world;
    if CachedAnew(w, after, r, p) {
      FitSameNodes(w, after.nodes, r, p);
      forall n | n in after.nodes && HasTaint(after.nodes[n].taints, p)
        ensures Claimed(after.cache, p, after.nodes[n].labels)
      {
        CachedAnewClaims(w, after, r, p, n);
      }
    }
  }

  lemma DeletingGuarded(w: World, f: Faults, r: string, p: Taint)
    requires Guarded(w, p) && Covered(w.nodes, w.order) && r in w.rules && w.rules[r].deleting
    ensures Guarded(ReconcileRule(w, f, r).world, p)
  {
    hide HasTaint, S.Applies, ReconcileRule;
    DeletingCarriers(w, f, r, p);
    var after := ReconcileRule(w, f, r).world;
    if ReleasedRule(w, after, r, p) {
      assert forall q :: q in w.rules && q != r ==> q in w.rules.Keys - {r};
      assert WellFormed(after) && Backed(after, p);
      forall n | n in after.nodes && HasTaint(after.nodes[n].taints, p)
        ensures Claimed(after.cache, p, after.nodes[n].labels)
      {
        var q :| q in w.cache && Claims(w.cache[q], p, w.nodes[n].labels);
        assert q != r;
        assert q in after.cache && Claims(after.cache[q], p, after.nodes[n].labels);
      }
    }
  }

  lemma RuleReconcileGuarded(w: World, f: Faults, r: string, p: Taint)
    requires Guarded(w, p) && Careful(w, RuleReconcile(r, f), p) && Covered(w.nodes, w.order)
    ensures Guarded(ReconcileRule(w, f, r).world, p)
  {
    hide HasTaint, Claimed, S.NoBlindSpot, Enforce, Finalize;
    if r in w.rules && !f(GetRule(r)) {
      if w.rules[r].deleting {
        DeletingGuarded(w, f, r, p);
      } else {
        LiveGuarded(w, f, r, p);
      }
    } else if r !in w.rules {
      assert w.cache - {r} == w.cache;
    }
  }

  lemma NextGuarded(w: World, step: Step, p: Taint)
    requires Guarded(w, p) && Careful(w, step, p)
    ensures Guarded(Next(w, step), p)
  {
    hide HasTaint, Claimed, ReconcileRule, ReconcileNode, S.NoBlindSpot;
    assert forall n :: n in w.order ==> n in Elems(w.order);
    if Enabled(w, step) {
      match step {
        case NodeReconcile(n, sequence, f) =>
          if NodeRead(w, f, n) {
            NodeReconcileGuarded(w, f, n, sequence, p);
          } else {
            NothingRead(w, f, n, sequence);
          }
        case RuleReconcile(r, f) => RuleReconcileGuarded(w, f, r, p);
        case _ =>
      }
    }
  }

  /**
   * Along every run, with any failures in every reconcile, each node carrying the pair is claimed by a
   * cached rule; in particular no node carries it once no cached rule manages it.
   */
  lemma {:induction false} NoOrphanedTaints(ws: seq<World>, steps: seq<Step>, p: Taint, k: nat)
    requires Run(ws, steps) && k < |ws| && Guarded(ws[0], p)
    requires forall i :: 0 <= i < k ==> Careful(ws[i], steps[i], p)
    ensures Guarded(ws[k], p) && NoOrphans(ws[k], p)
  {
    hide Careful, Next, WellFormed, Backed, NoOrphans;
    if k > 0 {
      NoOrphanedTaints(ws, steps, p, k - 1);
      NextGuarded(ws[k - 1], steps[k - 1], p);
    }
  }

  // ----- Where a hypothesis is dropped, exactly when the result survives

  /**
   * A live failure-free reconcile takes the pair off its own nodes that visibly left, and off nothing else
   * outside the selector.
   */
  lemma StrayCarriers(w: World, f: Faults, r: string, n: string, p: Taint)
    requires WellFormed(w) && FaultFree(f) && r in w.rules && !w.rules[r].deleting && n in w.nodes
    requires ChangeNoticed(w, r) ==> S.ValidSelector(w.cache[r].spec.nodeSelector)
    requires SamePair(p, w.rules[r].spec.taint) && !S.Applies(w.rules[r].spec.nodeSelector, w.nodes[n].labels)
    ensures var after := ReconcileRule(w, f, r).world;
            && n in after.nodes && after.nodes[n].labels == w.nodes[n].labels
            && (HasTaint(after.nodes[n].taints, p) <==> HasTaint(w.nodes[n].taints, p) && !Leaves(w, r, w.nodes[n]))
  {
    hide ReconcileRule, HasTaint, Others, AllSatisfied, S.Applies, Leaves, S.ValidSelector, ChangeNoticed;
    FullEffect(w, f, r, n);
    NodePass.SamePairSame(w.nodes[n].taints, p, w.rules[r].spec.taint);
    NodePass.SamePairSame(ReconcileRule(w, f, r).world.nodes[n].taints, p, w.rules[r].spec.taint);
  }

  /** Every carrier is claimed by these rules. */
  predicate CarriersClaimed(w: World, rules: Rules, p: Taint) {
    forall n :: n in w.nodes && HasTaint(w.nodes[n].taints, p) ==> Claimed(rules, p, w.nodes[n].labels)
  }

  lemma ClaimedUpdate(cache: Rules, r: string, rule: Rule, p: Taint, labels: map<string, string>)
    ensures Claims(rule, p, labels) ==> Claimed(cache[r := rule], p, labels)
    ensures !Claims(rule, p, labels) ==> (Claimed(cache[r := rule], p, labels) <==> Claimed(cache - {r}, p, labels))
    ensures Claimed(cache, p, labels) ==> Claimed(cache - {r}, p, labels) || (r in cache && Claims(cache[r], p, labels))
  {
    hide Claims;
    if Claims(rule, p, labels) {
      assert r in cache[r := rule] && Claims(cache[r := rule][r], p, labels);
    }
    forall q | q in cache && q != r
      ensures Claims(cache[q], p, labels) ==> Claimed(cache[r := rule], p, labels) && Claimed(cache - {r}, p, labels)
    {
      if Claims(cache[q], p, labels) {
        assert Claims(cache[r := rule][q], p, labels) && Claims((cache - {r})[q], p, labels);
      }
    }
  }

  /**
   * A node outside the new selector after a failure-free reconcile: orphaned exactly if nothing noticed it
   * and nobody else claims it.
   */
  lemma MissedNode(w: World, f: Faults, r: string, p: Taint, n: string)
    requires Guarded(w, p) && FaultFree(f) && r in w.rules && !w.rules[r].deleting && n in w.nodes
    requires SamePair(p, w.rules[r].spec.taint) && !S.Applies(w.rules[r].spec.nodeSelector, w.nodes[n].labels)
    requires ChangeNoticed(w, r) ==> S.ValidSelector(w.cache[r].spec.nodeSelector)
    requires !Claimed(w.cache - {r}, p, w.nodes[n].labels)
    ensures var after := ReconcileRule(w, f, r).world;
            n in after.nodes && (HasTaint(after.nodes[n].taints, p)
                                 <==> HasTaint(w.nodes[n].taints, p) && !ChangeNoticed(w, r))
  {
    hide ReconcileRule, HasTaint, Claimed, S.ValidSelector, S.SelectorChanged;
    StrayCarriers(w, f, r, n, p);
    ClaimedUpdate(w.cache, r, w.rules[r], p, w.nodes[n].labels);
    if r in w.cache {
      AppliesMatches(w.cache[r].spec.nodeSelector, w.nodes[n].labels);
    }
  }

  /** The cache and the labels after a failure-free live reconcile. */
  lemma AfterLive(w: World, f: Faults, r: string, p: Taint)
    requires WellFormed(w) && FaultFree(f) && r in w.rules && !w.rules[r].deleting
    requires ChangeNoticed(w, r) ==> S.ValidSelector(w.cache[r].spec.nodeSelector)
    ensures var after := ReconcileRule(w, f, r).world;
            && r in after.cache && after.cache == w.cache[r := after.cache[r]] && after.cache[r].spec == w.rules[r].spec
            && SameNodes(after.nodes, w.nodes)
  {
    hide ReconcileRule, CarriersFit, HasTaint;
    assert Covered(w.nodes, w.order) by {
      assert forall n :: n in w.order ==> n in Elems(w.order);
    }
    LiveCarriers(w, f, r, p);
    FaultFreeCaches(w, f, r);
    var after := ReconcileRule(w, f, r).world;
    if CachedAnew(w, after, r, p) {
      FitSameNodes(w, after.nodes, r, p);
    }
  }

  /** A selector edit is survived exactly when it is noticed or the new cache still claims every carrier. */
  lemma MissedChangeExact(w: World, f: Faults, r: string, p: Taint)
    requires Guarded(w, p) && FaultFree(f) && r in w.rules && !w.rules[r].deleting && SamePair(p, w.rules[r].spec.taint)
    requires ChangeNoticed(w, r) ==> S.ValidSelector(w.cache[r].spec.nodeSelector)
    ensures NoOrphans(ReconcileRule(w, f, r).world, p)
            <==> ChangeNoticed(w, r) || CarriersClaimed(w, w.cache[r := w.rules[r]], p)
  {
    hide ReconcileRule, HasTaint, Claimed, S.Applies, S.ValidSelector, ChangeNoticed, Backed;
    var after := ReconcileRule(w, f, r).world;
    AfterLive(w, f, r, p);
    forall n | n in w.nodes
      ensures n in after.nodes
      ensures (HasTaint(after.nodes[n].taints, p) ==> Claimed(after.cache, p, after.nodes[n].labels))
              <==> ChangeNoticed(w, r)
                   || (HasTaint(w.nodes[n].taints, p) ==> Claimed(w.cache[r := w.rules[r]], p, w.nodes[n].labels))
    {
      ClaimedUpdate(w.cache, r, w.rules[r], p, w.nodes[n].labels);
      ClaimedUpdate(w.cache, r, after.cache[r], p, w.nodes[n].labels);
      if !S.Applies(w.rules[r].spec.nodeSelector, w.nodes[n].labels) && !Claimed(w.cache - {r}, p, w.nodes[n].labels) {
        MissedNode(w, f, r, p, n);
      }
    }
  }

  /** A live failure-free reconcile leaves a pair the rule does not manage as it is on every node. */
  lemma OtherPairKept(w: World, f: Faults, r: string, n: string, p: Taint)
    requires WellFormed(w) && FaultFree(f) && r in w.rules && !w.rules[r].deleting && n in w.nodes
    requires ChangeNoticed(w, r) ==> S.ValidSelector(w.cache[r].spec.nodeSelector)
    requires !SamePair(p, w.rules[r].spec.taint)
    ensures var after := ReconcileRule(w, f, r).world;
            && n in after.nodes && after.nodes[n].labels == w.nodes[n].labels
            && (HasTaint(after.nodes[n].taints, p) <==> HasTaint(w.nodes[n].taints, p))
  {
    hide ReconcileRule, HasTaint, Others, AllSatisfied, S.Applies, Leaves, S.ValidSelector, ChangeNoticed;
    FullEffect(w, f, r, n);
    OthersDecide(w.nodes[n].taints, w.rules[r].spec.taint, p);
    OthersDecide(ReconcileRule(w, f, r).world.nodes[n].taints, w.rules[r].spec.taint, p);
  }

  /** Editing a rule's pair is survived exactly when some other cached rule claims every carrier of the old pair. */
  lemma PairEditExact(w: World, f: Faults, r: string, p: Taint)
    requires WellFormed(w) && FaultFree(f) && LastHad(w, r, p) && !w.rules[r].deleting
             && !SamePair(p, w.rules[r].spec.taint)
    requires ChangeNoticed(w, r) ==> S.ValidSelector(w.cache[r].spec.nodeSelector)
    ensures NoOrphans(ReconcileRule(w, f, r).world, p) <==> CarriersClaimed(w, w.cache - {r}, p)
  {
    hide ReconcileRule, HasTaint, Claimed, S.Applies, S.ValidSelector, ChangeNoticed;
    var after := ReconcileRule(w, f, r).world;
    AfterLive(w, f, r, p);
    forall n | n in w.nodes
      ensures n in after.nodes && after.nodes[n].labels == w.nodes[n].labels
      ensures HasTaint(after.nodes[n].taints, p) <==> HasTaint(w.nodes[n].taints, p)
      ensures Claimed(after.cache, p, w.nodes[n].labels) <==> Claimed(w.cache - {r}, p, w.nodes[n].labels)
    {
      OtherPairKept(w, f, r, n, p);
      ClaimedUpdate(w.cache, r, after.cache[r], p, w.nodes[n].labels);
    }
  }

  // ----- Losing the cache

  /** Failure-free reconciles of the first i rules, one after the other. */
  function ReconciledEach(w: World, f: Faults, rs: seq<string>, i: nat): World
    requires i <= |rs|
  {
    if i == 0 then w else Next(ReconciledEach(w, f, rs, i - 1), RuleReconcile(rs[i - 1], f))
  }

  /** Whether a reconcile will do something about the rule's taint: enforce it, or clean it up. */
  predicate Attended(rule: Rule) {
    !rule.deleting || FINALIZER in rule.finalizers
  }

  function AttendedRules(rules: Rules): Rules {
    map r | r in rules && Attended(rules[r]) :: rules[r]
  }

  /** What a failure-free reconcile of an uncached rule does about the pair on one node. */
  predicate PairAfter(rule: Rule, before: Node, after: Node, p: Taint) {
    && after.labels == before.labels
    && (if !Attended(rule) || !Claims(rule, p, before.labels)
        then HasTaint(after.taints, p) == HasTaint(before.taints, p)
        else rule.deleting ==> !HasTaint(after.taints, p))
  }

  lemma UncachedLive(w: World, f: Faults, r: string, n: string, p: Taint)
    requires WellFormed(w) && FaultFree(f) && r in w.rules && r !in w.cache && !w.rules[r].deleting && n in w.nodes
    ensures var after := ReconcileRule(w, f, r).world;
            n in after.nodes && PairAfter(w.rules[r], w.nodes[n], after.nodes[n], p)
  {
    hide ReconcileRule, HasTaint, S.Applies;
    if !SamePair(p, w.rules[r].spec.taint) {
      OtherPairKept(w, f, r, n, p);
    } else if !S.Applies(w.rules[r].spec.nodeSelector, w.nodes[n].labels) {
      StrayCarriers(w, f, r, n, p);
    } else {
      AfterLive(w, f, r, p);
    }
  }

  lemma CleanedPair(f: Faults, r: string, q: Taint, targets: Node -> bool, node: Node, p: Taint)
    requires FaultFree(f)
    ensures var after := CleanedNode(f, r, q, targets, node);
            && after.labels == node.labels
            && (HasTaint(after.taints, p) <==> HasTaint(node.taints, p) && !(targets(node) && SamePair(p, q)))
  {
    hide HasTaint, Others;
    OthersSubset(node.taints, q, p);
    if SamePair(p, q) {
      NodePass.SamePairSame(node.taints, p, q);
    } else {
      OthersDecide(node.taints, q, p);
    }
  }

  lemma FinalizedNodes(w: World, f: Faults, r: string)
    requires WellFormed(w) && FaultFree(f) && Finalizing(w, r)
    ensures var targets := DeletionTargets(w.rules[r].spec.nodeSelector);
            ReconcileRule(w, f, r).world.nodes == map n | n in w.nodes ::
              CleanedNode(f, r, w.rules[r].spec.taint, targets, w.nodes[n])
  {
    hide Cleaned, CleanedNode, HasTaint, Others, S.Applies;
    var rule := w.rules[r];
    CleanedPointwise(f, r, rule.spec.taint, DeletionTargets(rule.spec.nodeSelector), w.nodes, w.order, |w.order|);
    assert |Listed(w.nodes, w.order)| == |w.order| && w.order[..|w.order|] == w.order;
    assert forall n :: n in w.nodes ==> n in Elems(w.order);
  }

  /** A failure-free reconcile of a deleted rule that still has the finalizer cleans up and lets the rule go. */
  lemma FinalizedRule(w: World, f: Faults, r: string, p: Taint)
    requires WellFormed(w) && FaultFree(f) && Finalizing(w, r)
    ensures var after, rule := ReconcileRule(w, f, r).world, w.rules[r];
            && after.cache == w.cache - {r} && after.order == w.order && after.nodes.Keys == w.nodes.Keys
            && (forall n :: n in w.nodes ==> PairAfter(rule, w.nodes[n], after.nodes[n], p))
            && after.rules - {r} == w.rules - {r}
  {
    hide ReconcileRule, HasTaint, S.Applies, CleanedNode;
    var rule, after := w.rules[r], ReconcileRule(w, f, r).world;
    assert Covered(w.nodes, w.order) by {
      assert forall m :: m in w.order ==> m in Elems(w.order);
    }
    FinalizerProtocol(w, f, r);
    DeletingCarriers(w, f, r, p);
    assert ReleasedRule(w, after, r, p);
    assert forall q :: q in w.rules && q != r ==> q in w.rules.Keys - {r};
    FinalizedNodes(w, f, r);
    forall n | n in w.nodes
      ensures PairAfter(rule, w.nodes[n], after.nodes[n], p)
    {
      CleanedPair(f, r, rule.spec.taint, DeletionTargets(rule.spec.nodeSelector), w.nodes[n], p);
    }
  }

  /** The rule is stored with the same spec, and there is the same to do about it. */
  predicate SameDuty(now: Rules, before: Rules, r: string) {
    && r in now && r in before
    && now[r].spec == before[r].spec && now[r].deleting == before[r].deleting && Attended(now[r]) == Attended(before[r])
  }

  /** One failure-free reconcile of a stored rule that is not cached. */
  lemma ReconcileUncached(w: World, f: Faults, r: string, p: Taint)
    requires WellFormed(w) && FaultFree(f) && r in w.rules && r !in w.cache
    ensures var after := Next(w, RuleReconcile(r, f));
            && WellFormed(after) && after.nodes.Keys == w.nodes.Keys
            && (forall n :: n in w.nodes ==> PairAfter(w.rules[r], w.nodes[n], after.nodes[n], p))
            && (forall q :: q in w.rules && q != r ==> SameDuty(after.rules, w.rules, q))
            && (if w.rules[r].deleting then after.cache == w.cache
                else
                  && r in after.cache && after.cache == w.cache[r := after.cache[r]]
                  && after.cache[r].spec == w.rules[r].spec)
  {
    hide Enforce, HasTaint, S.Applies, PairAfter, ReleasedRule;
    var step := RuleReconcile(r, f);
    NextWellFormed(w, step);
    assert Covered(w.nodes, w.order) by {
      assert forall n :: n in w.order ==> n in Elems(w.order);
    }
    if !w.rules[r].deleting {
      UncachedLiveRule(w, f, r, p);
    } else if FINALIZER in w.rules[r].finalizers {
      FinalizedRule(w, f, r, p);
      assert forall q :: q in w.rules && q != r ==> q in w.rules - {r};
    } else {
      PairUntouched(w, r, p);
    }
  }

  lemma PairUntouched(w: World, r: string, p: Taint)
    requires r in w.rules && !Attended(w.rules[r])
    ensures forall n :: n in w.nodes ==> PairAfter(w.rules[r], w.nodes[n], w.nodes[n], p)
  {
  }

  lemma UncachedLiveRule(w: World, f: Faults, r: string, p: Taint)
    requires WellFormed(w) && Covered(w.nodes, w.order) && FaultFree(f) && r in w.rules && r !in w.cache
             && !w.rules[r].deleting
    ensures var after := ReconcileRule(w, f, r).world;
            && after.nodes.Keys == w.nodes.Keys
            && (forall n :: n in w.nodes ==> PairAfter(w.rules[r], w.nodes[n], after.nodes[n], p))
            && (forall q :: q in w.rules ==> SameDuty(after.rules, w.rules, q))
            && r in after.cache && after.cache == w.cache[r := after.cache[r]] && after.cache[r].spec == w.rules[r].spec
  {
    hide ReconcileRule, HasTaint, S.Applies, PairAfter, CarriersShrink, CachedAnew;
    AfterLive(w, f, r, p);
    LiveCarriers(w, f, r, p);
    forall n | n in w.nodes
      ensures PairAfter(w.rules[r], w.nodes[n], ReconcileRule(w, f, r).world.nodes[n], p)
    {
      UncachedLive(w, f, r, n, p);
    }
  }

  function LiveRules(rules: Rules): Rules {
    map r | r in rules && !rules[r].deleting :: rules[r]
  }

  /** The cache holds the live ones among the first i rules, as stored, and the others are still to be attended to. */
  predicate Refilled(w: World, now: World, rs: seq<string>, i: nat)
    requires i <= |rs|
  {
    && WellFormed(now) && now.nodes.Keys == w.nodes.Keys
    && (forall k :: i <= k < |rs| ==> SameDuty(now.rules, w.rules, rs[k]))
    && now.cache.Keys == Elems(rs[..i]) * LiveRules(w.rules).Keys
    && forall r :: r in now.cache ==> now.cache[r].spec == w.rules[r].spec
  }

  /**
   * Nobody's carriers keep the pair; nodes claimed by deleted rules alone have lost it once one of those was
   * reconciled.
   */
  predicate PairRefilled(w: World, now: World, rs: seq<string>, i: nat, n: string, p: Taint)
    requires i <= |rs| && n in w.nodes && n in now.nodes
  {
    var labels := w.nodes[n].labels;
    && now.nodes[n].labels == labels
    && (!Claimed(AttendedRules(w.rules), p, labels)
        ==> HasTaint(now.nodes[n].taints, p) == HasTaint(w.nodes[n].taints, p))
    && (!Claimed(LiveRules(w.rules), p, labels) ==>
          forall k :: 0 <= k < i && rs[k] in AttendedRules(w.rules) && Claims(w.rules[rs[k]], p, labels)
                      ==> !HasTaint(now.nodes[n].taints, p))
  }

  lemma PairRefilledStep(w: World, now: World, after: World, rs: seq<string>, i: nat, n: string, p: Taint)
    requires i < |rs| && n in w.nodes && n in now.nodes && n in after.nodes && PairRefilled(w, now, rs, i, n, p)
    requires SameDuty(now.rules, w.rules, rs[i]) && PairAfter(now.rules[rs[i]], now.nodes[n], after.nodes[n], p)
    ensures PairRefilled(w, after, rs, i + 1, n, p)
  {
    hide HasTaint, S.Applies;
    var r, labels := rs[i], w.nodes[n].labels;
    if Attended(w.rules[r]) && Claims(w.rules[r], p, labels) {
      assert r in AttendedRules(w.rules) && Claims(AttendedRules(w.rules)[r], p, labels);
      if !w.rules[r].deleting {
        assert r in LiveRules(w.rules) && Claims(LiveRules(w.rules)[r], p, labels);
      }
    }
  }

  lemma RefilledStep(w: World, now: World, f: Faults, rs: seq<string>, i: nat, p: Taint)
    requires FaultFree(f) && Distinct(rs) && i < |rs| && Refilled(w, now, rs, i)
    requires forall n :: n in w.nodes ==> PairRefilled(w, now, rs, i, n, p)
    ensures var after := Next(now, RuleReconcile(rs[i], f));
            Refilled(w, after, rs, i + 1) && forall n :: n in w.nodes ==> PairRefilled(w, after, rs, i + 1, n, p)
  {
    hide Next, WellFormed, PairRefilled, PairAfter, Attended;
    var after := Next(now, RuleReconcile(rs[i], f));
    assert rs[..i + 1] == rs[..i] + [rs[i]];
    ReconcileUncached(now, f, rs[i], p);
    forall n | n in w.nodes
      ensures PairRefilled(w, after, rs, i + 1, n, p)
    {
      PairRefilledStep(w, now, after, rs, i, n, p);
    }
  }

  lemma RefilledStart(w: World, rs: seq<string>, p: Taint)
    requires WellFormed(w) && Elems(rs) == w.rules.Keys
    ensures var now := Next(w, Restart);
            Refilled(w, now, rs, 0) && forall n :: n in w.nodes ==> PairRefilled(w, now, rs, 0, n, p)
  {
    hide HasTaint, Claimed, S.Applies;
    assert forall k :: 0 <= k < |rs| ==> rs[k] in Elems(rs);
  }

  lemma {:induction false} RefilledAlong(w: World, f: Faults, rs: seq<string>, i: nat, p: Taint)
    requires WellFormed(w) && FaultFree(f) && Distinct(rs) && Elems(rs) == w.rules.Keys && i <= |rs|
    ensures var now := ReconciledEach(Next(w, Restart), f, rs, i);
            Refilled(w, now, rs, i) && forall n :: n in w.nodes ==> PairRefilled(w, now, rs, i, n, p)
  {
    hide Refilled, PairRefilled, Next;
    if i == 0 {
      RefilledStart(w, rs, p);
    } else {
      RefilledAlong(w, f, rs, i - 1, p);
      RefilledStep(w, ReconciledEach(Next(w, Restart), f, rs, i - 1), f, rs, i - 1, p);
    }
  }

  /** The three cases of a node after every rule was reconciled. */
  lemma RefilledNode(w: World, now: World, rs: seq<string>, n: string, p: Taint)
    requires Elems(rs) == w.rules.Keys && n in w.nodes
    requires Refilled(w, now, rs, |rs|) && n in now.nodes && PairRefilled(w, now, rs, |rs|, n, p)
    ensures (HasTaint(now.nodes[n].taints, p) ==> Claimed(now.cache, p, now.nodes[n].labels))
            <==> (HasTaint(w.nodes[n].taints, p) ==> Claimed(AttendedRules(w.rules), p, w.nodes[n].labels))
  {
    hide HasTaint, S.Applies, WellFormed;
    var labels := w.nodes[n].labels;
    assert rs[..|rs|] == rs;
    assert forall r :: r in w.rules ==> r in Elems(rs);
    assert now.cache.Keys == LiveRules(w.rules).Keys;
    forall r | r in LiveRules(w.rules) && Claims(w.rules[r], p, labels)
      ensures Claimed(now.cache, p, labels) && Claimed(AttendedRules(w.rules), p, labels)
    {
      assert Claims(now.cache[r], p, labels) && Claims(AttendedRules(w.rules)[r], p, labels);
    }
    forall r | r in now.cache && Claims(now.cache[r], p, labels)
      ensures Claimed(LiveRules(w.rules), p, labels)
    {
      assert Claims(LiveRules(w.rules)[r], p, labels);
    }
    if r :| r in AttendedRules(w.rules) && Claims(w.rules[r], p, labels) && !Claimed(LiveRules(w.rules), p, labels) {
      assert r in Elems(rs);
      var k :| 0 <= k < |rs| && rs[k] == r;
      assert rs[k] in AttendedRules(w.rules);
    }
  }

  /**
   * Losing the cache is survived, once every stored rule has been reconciled in whatever order, exactly
   * when every carrier is claimed by a stored rule that is live or still has the finalizer.
   */
  lemma RestartExact(w: World, f: Faults, rs: seq<string>, p: Taint)
    requires WellFormed(w) && FaultFree(f) && Distinct(rs) && Elems(rs) == w.rules.Keys
    ensures NoOrphans(ReconciledEach(Next(w, Restart), f, rs, |rs|), p)
            <==> CarriersClaimed(w, AttendedRules(w.rules), p)
  {
    hide ReconciledEach, Next, HasTaint, Claimed, PairRefilled;
    RefilledAlong(w, f, rs, |rs|, p);
    var now := ReconciledEach(Next(w, Restart), f, rs, |rs|);
    forall n | n in w.nodes
      ensures (HasTaint(now.nodes[n].taints, p) ==> Claimed(now.cache, p, now.nodes[n].labels))
              <==> (HasTaint(w.nodes[n].taints, p) ==> Claimed(AttendedRules(w.rules), p, w.nodes[n].labels))
    {
      RefilledNode(w, now, rs, n, p);
    }
  }

  /** Deleting a rule leaves no orphans exactly when its stored selector or another cached rule claims every carrier. */
  lemma EarlyDeleteExact(w: World, f: Faults, r: string, p: Taint)
    requires WellFormed(w) && Finalizing(w, r) && SamePair(p, w.rules[r].spec.taint) && DeletionAccepted(w, f, r)
    ensures NoOrphans(ReconcileRule(w, f, r).world, p) <==> CarriersClaimed(w, w.cache[r := w.rules[r]], p)
  {
    hide Cleaned, HasTaint, S.Applies, Others, Claimed;
    var spec := w.rules[r].spec;
    CleanupExact(f, r, spec.taint, DeletionTargets(spec.nodeSelector), w.nodes, w.order);
    assert |Listed(w.nodes, w.order)| == |w.order|;
    var after := ReconcileRule(w, f, r).world;
    forall n | n in w.nodes
      ensures n in after.nodes
      ensures (HasTaint(after.nodes[n].taints, p) ==> Claimed(after.cache, p, after.nodes[n].labels))
              <==> (HasTaint(w.nodes[n].taints, p) ==> Claimed(w.cache[r := w.rules[r]], p, w.nodes[n].labels))
    {
      NodePass.SamePairSame(w.nodes[n].taints, p, spec.taint);
      NodePass.SamePairSame(after.nodes[n].taints, p, spec.taint);
      ClaimedUpdate(w.cache, r, w.rules[r], p, w.nodes[n].labels);
    }
  }
}
