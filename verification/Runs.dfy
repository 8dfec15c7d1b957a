/** Runs of the cluster: reconciles under any failures, interleaved with outside changes. */
module Runs {
  import Seqs
  import opened Api
  import opened Evaluation
  import StatusLists
  import opened Cluster
  import NodePass
  import opened RulePass
  import S = Selectors

  datatype Step =
    | NodeReconcile(node: string, sequence: seq<string>, f: Faults)
    | RuleReconcile(rule: string, f: Faults)
    | WriteNodes(nodes: Nodes, order: seq<string>)   // kubelets, problem detectors and users, at will
    | WriteRule(rule: string, spec: Spec)            // a user creates a rule or edits its spec
    | DeleteRule(rule: string)
    | Restart                                        // the controller loses its cache

  predicate Enabled(w: World, step: Step) {
    match step
    case NodeReconcile(n, sequence, f) => NodeRead(w, f, n) ==> Enumerates(sequence, w.cache, w.nodes[n].labels)
    case WriteNodes(nodes, order) => NodesListed(nodes, order)
    case _ => true
  }

  const FRESH := Status(0, [], [], [], NoResults)

  function Written(rules: Rules, r: string, spec: Spec): Rules {
    if r in rules then rules[r := rules[r].(spec := spec, generation := rules[r].generation + 1)]
    else rules[r := Rule(r, 1, false, [], spec, FRESH)]
  }

  /** An object with finalizers is only marked; one without goes at once. */
  function Deleted(rules: Rules, r: string): Rules {
    if r !in rules then rules
    else if rules[r].finalizers == [] then rules - {r}
    else rules[r := rules[r].(deleting := true)]
  }

  function Next(w: World, step: Step): World {
    if !WellFormed(w) || !Enabled(w, step) then w
    else
      match step
      case NodeReconcile(n, sequence, f) => ReconcileNode(w, f, n, sequence)
      case RuleReconcile(r, f) =>
        assert forall n :: n in w.order ==> n in Seqs.Elems(w.order);
        ReconcileRule(w, f, r).world
      case WriteNodes(nodes, order) => w.(nodes := nodes, order := order)
      case WriteRule(r, spec) => w.(rules := Written(w.rules, r, spec))
      case DeleteRule(r) => w.(rules := Deleted(w.rules, r))
      case Restart => w.(cache := map[])
  }

  ghost predicate Run(ws: seq<World>, steps: seq<Step>) {
    && |ws| == |steps| + 1 && WellFormed(ws[0])
    && forall i :: 0 <= i < |steps| ==> ws[i + 1] == Next(ws[i], steps[i])
  }

  /** The rule manages the pair on nodes with these labels. */
  predicate Claims(rule: Rule, p: Taint, labels: map<string, string>) {
    SamePair(p, rule.spec.taint) && S.Applies(rule.spec.nodeSelector, labels)
  }

  // ----- What reconciles leave alone, whatever fails

  /** Where a pass over node n starts. */
  function StartOf(w: World, n: string): Pass
    requires n in w.nodes
  {
    Pass(w.nodes, w.rules, w.cache, w.nodes[n])
  }

  /** Reconciles change nothing of a node but taints and annotations. */
  predicate SameNodes(a: Nodes, b: Nodes) {
    a.Keys == b.Keys && forall n :: n in a ==> a[n] == b[n].(taints := a[n].taints, annotations := a[n].annotations)
  }

  /** The local copy agrees with the stored node on what reconciles do not change. */
  predicate Read(local: Node, stored: Node) {
    local == stored.(taints := local.taints, annotations := local.annotations)
  }

  lemma EvaluateFrame(f: Faults, rule: Rule, nodes: Nodes, local: Node)
    requires local.name in nodes && Read(local, nodes[local.name])
    ensures var e, n := EvaluateAndRecord(f, rule, nodes, local), local.name;
            && SameNodes(e.nodes, nodes) && Read(e.local, e.nodes[n]) && e.local.name == n
            && forall m :: m in nodes && m != n ==> e.nodes[m] == nodes[m]
  {
    hide Enforced, Decide, Recorded, FailureRecorded;
  }

  /** What a pass keeps: its own node's identity, all other nodes, all specs and names. */
  predicate PassKept(t: Pass, s: Pass) {
    && s.local.name in s.nodes && t.local.name == s.local.name
    && SameNodes(t.nodes, s.nodes) && Read(t.local, t.nodes[t.local.name])
    && (forall m :: m in s.nodes && m != s.local.name ==> t.nodes[m] == s.nodes[m])
    && NodePass.SameRulesButStatus(t.cache, s.cache) && NodePass.SameRulesButStatus(t.rules, s.rules)
  }

  lemma PassKeptTransitive(t: Pass, s: Pass, r: Pass)
    requires PassKept(t, s) && PassKept(s, r)
    ensures PassKept(t, r)
  {
  }

  lemma PassStepFrame(f: Faults, globalDryRun: bool, s: Pass, r: string)
    requires r in s.cache && s.local.name in s.nodes && Read(s.local, s.nodes[s.local.name])
    ensures PassKept(PassStep(f, globalDryRun, s, r), s)
  {
    hide EvaluateAndRecord, Skipped, StatusLists.Merged;
    EvaluateFrame(f, s.cache[r], s.nodes, s.local);
  }

  lemma {:induction false} PassFrame(f: Faults, globalDryRun: bool, s: Pass, sequence: seq<string>, i: nat)
    requires i <= |sequence| && Seqs.Elems(sequence) <= s.cache.Keys
    requires s.local.name in s.nodes && Read(s.local, s.nodes[s.local.name])
    ensures PassKept(PassTo(f, globalDryRun, s, sequence, i), s)
  {
    hide PassStep;
    if i > 0 {
      var t := PassTo(f, globalDryRun, s, sequence, i - 1);
      PassFrame(f, globalDryRun, s, sequence, i - 1);
      assert sequence[i - 1] in Seqs.Elems(sequence);
      PassStepFrame(f, globalDryRun, t, sequence[i - 1]);
      PassKeptTransitive(PassStep(f, globalDryRun, t, sequence[i - 1]), t, s);
    }
  }

  lemma NodeReconcileFrame(w: World, f: Faults, n: string, sequence: seq<string>)
    requires WellFormed(w) && NodeRead(w, f, n) && Enumerates(sequence, w.cache, w.nodes[n].labels)
    ensures var after := ReconcileNode(w, f, n, sequence);
            && SameNodes(after.nodes, w.nodes) && (forall m :: m in w.nodes && m != n ==> after.nodes[m] == w.nodes[m])
            && NodePass.SameRulesButStatus(after.cache, w.cache) && NodePass.SameRulesButStatus(after.rules, w.rules)
            && WellFormed(after)
  {
    hide PassTo;
    PassFrame(f, w.globalDryRun, Pass(w.nodes, w.rules, w.cache, w.nodes[n]), sequence, |sequence|);
  }

  /** A rule of the pair that is ready, where the pair is on, or unready, where it is off. */
  predicate Disagrees(spec: Spec, conds: seq<Condition>, p: Taint, on: bool) {
    SamePair(p, spec.taint) && AllSatisfied(spec.conditions, conds) == on
  }

  /** Evaluating a rule turns a pair on only if the rule manages it and is unready, and off only if it is ready. */
  lemma EvaluateKeepsPair(f: Faults, rule: Rule, nodes: Nodes, local: Node, p: Taint, on: bool)
    requires local.name in nodes && Read(local, nodes[local.name])
    requires HasTaint(local.taints, p) == on && HasTaint(nodes[local.name].taints, p) == on
    requires !Disagrees(rule.spec, local.conditions, p, on)
    ensures var e := EvaluateAndRecord(f, rule, nodes, local);
            HasTaint(e.local.taints, p) == on && HasTaint(e.nodes[local.name].taints, p) == on
  {
    hide HasTaint, AllSatisfied, Others, Enforced, ResultsFor, Recorded, FailureRecorded;
    if SamePair(p, rule.spec.taint) {
      EnforcedMeaning(rule.spec, local);
      NodePass.SamePairSame(local.taints, p, rule.spec.taint);
      NodePass.SamePairSame(Enforced(rule.spec, local), p, rule.spec.taint);
    } else {
      EnforcedFrame(rule.spec, local, p);
    }
  }

  /** Iteration j of a pass evaluates its rule. */
  predicate EvaluatesAt(f: Faults, globalDryRun: bool, s: Pass, sequence: seq<string>, j: nat)
    requires j < |sequence| && Seqs.Elems(sequence) <= s.cache.Keys
  {
    assert sequence[j] in Seqs.Elems(sequence);
    var t := PassTo(f, globalDryRun, s, sequence, j);
    !Skipped(f, globalDryRun, t.nodes, t.local.name, t.cache[sequence[j]])
  }

  lemma EvaluatesUnfold(f: Faults, globalDryRun: bool, s: Pass, sequence: seq<string>, j: nat)
    requires j < |sequence| && Seqs.Elems(sequence) <= s.cache.Keys
    ensures var t := PassTo(f, globalDryRun, s, sequence, j);
            && sequence[j] in t.cache
            && (EvaluatesAt(f, globalDryRun, s, sequence, j)
                <==> !Skipped(f, globalDryRun, t.nodes, t.local.name, t.cache[sequence[j]]))
  {
    hide PassTo, Skipped;
    assert sequence[j] in Seqs.Elems(sequence);
  }

  lemma StepKeepsPair(f: Faults, globalDryRun: bool, s: Pass, r: string, p: Taint, on: bool)
    requires r in s.cache && s.local.name in s.nodes && Read(s.local, s.nodes[s.local.name])
    requires HasTaint(s.local.taints, p) == on && HasTaint(s.nodes[s.local.name].taints, p) == on
    requires !Skipped(f, globalDryRun, s.nodes, s.local.name, s.cache[r]) ==>
               !Disagrees(s.cache[r].spec, s.local.conditions, p, on)
    ensures var t, n := PassStep(f, globalDryRun, s, r), s.local.name;
            HasTaint(t.local.taints, p) == on && HasTaint(t.nodes[n].taints, p) == on
  {
    hide HasTaint, Disagrees, Skipped, EvaluateAndRecord, StatusMerged;
    if !Skipped(f, globalDryRun, s.nodes, s.local.name, s.cache[r]) {
      EvaluateKeepsPair(f, s.cache[r], s.nodes, s.local, p, on);
    }
  }

  /** A pass turns a pair on its node on or off only by evaluating a rule that manages it and is unready, or ready. */
  lemma {:induction false} PassKeepsPair(
    f: Faults, globalDryRun: bool, s: Pass, sequence: seq<string>, i: nat, p: Taint, on: bool)
    requires i <= |sequence| && Seqs.Elems(sequence) <= s.cache.Keys
    requires s.local.name in s.nodes && Read(s.local, s.nodes[s.local.name])
    requires HasTaint(s.local.taints, p) == on && HasTaint(s.nodes[s.local.name].taints, p) == on
    requires forall j :: 0 <= j < i && EvaluatesAt(f, globalDryRun, s, sequence, j) ==>
               sequence[j] in s.cache && !Disagrees(s.cache[sequence[j]].spec, s.local.conditions, p, on)
    ensures var t, n := PassTo(f, globalDryRun, s, sequence, i), s.local.name;
            HasTaint(t.local.taints, p) == on && HasTaint(t.nodes[n].taints, p) == on
  {
    hide HasTaint, Disagrees, Skipped, PassStep, PassKept, EvaluatesAt;
    if i > 0 {
      PassKeepsPair(f, globalDryRun, s, sequence, i - 1, p, on);
      PassFrame(f, globalDryRun, s, sequence, i - 1);
      assert sequence[i - 1] in Seqs.Elems(sequence);
      var t := PassTo(f, globalDryRun, s, sequence, i - 1);
      PassView(t, s, sequence[i - 1]);
      EvaluatesUnfold(f, globalDryRun, s, sequence, i - 1);
      StepKeepsPair(f, globalDryRun, t, sequence[i - 1], p, on);
    }
  }

  /** What a rule is evaluated on in the middle of a pass. */
  lemma PassView(t: Pass, s: Pass, r: string)
    requires PassKept(t, s) && Read(s.local, s.nodes[s.local.name]) && r in s.cache
    ensures t.local.name == s.local.name && t.local.name in t.nodes && Read(t.local, t.nodes[t.local.name])
    ensures t.local.conditions == s.local.conditions && r in t.cache && t.cache[r].spec == s.cache[r].spec
  {
  }

  lemma ActFrame(f: Faults, rule: Rule, node: Node, p: Taint)
    ensures var after := SweptNode(f, rule, node);
            && Read(after, node)
            && (HasTaint(after.taints, p) ==>
                  HasTaint(node.taints, p)
                    || (SamePair(p, rule.spec.taint) && S.Applies(rule.spec.nodeSelector, node.labels)))
  {
  }

  lemma OthersSubset(taints: seq<Taint>, q: Taint, p: Taint)
    ensures HasTaint(Others(taints, q), p) ==> HasTaint(taints, p)
    ensures SamePair(p, q) ==> !HasTaint(Others(taints, q), p)
  {
  }

  lemma OthersDecide(taints: seq<Taint>, q: Taint, p: Taint)
    requires !SamePair(p, q)
    ensures HasTaint(taints, p) <==> HasTaint(Others(taints, q), p)
  {
  }

  /** Cleanup adds nothing, and where it succeeds its targets carry nothing. */
  lemma CleanedCarriers(
    f: Faults, r: string, q: Taint, targets: Node -> bool, nodes: Nodes, order: seq<string>, p: Taint)
    requires NodesListed(nodes, order)
    ensures var c := Cleaned(f, r, q, targets, nodes, Listed(nodes, order), |order|);
            && SameNodes(c.nodes, nodes)
            && forall n :: n in nodes && HasTaint(c.nodes[n].taints, p) ==>
                 && HasTaint(nodes[n].taints, p)
                 && (c.failed == [] && SamePair(p, q) ==> !targets(nodes[n]))
  {
    hide Cleaned, HasTaint, Others;
    var c := Cleaned(f, r, q, targets, nodes, Listed(nodes, order), |order|);
    CleanupExact(f, r, q, targets, nodes, order);
    CleanedPointwise(f, r, q, targets, nodes, order, |order|);
    forall n | n in nodes
      ensures HasTaint(c.nodes[n].taints, p) ==> HasTaint(nodes[n].taints, p)
      ensures SamePair(p, q) ==> HasTaint(c.nodes[n].taints, p) == HasTaint(c.nodes[n].taints, q)
    {
      OthersSubset(nodes[n].taints, q, p);
      NodePass.SamePairSame(c.nodes[n].taints, p, q);
    }
  }

  // ----- Who carries a pair after a reconcile, whatever fails

  predicate CarriersShrink(after: Nodes, before: Nodes, p: Taint) {
    && SameNodes(after, before)
    && forall n :: n in before && HasTaint(after[n].taints, p) ==> HasTaint(before[n].taints, p)
  }

  /** New carriers are matched by the new spec; carriers that leave by a noticed change are gone. */
  predicate CarriersFit(w: World, after: Nodes, r: string, p: Taint)
    requires r in w.rules
  {
    var spec := w.rules[r].spec;
    && SameNodes(after, w.nodes)
    && forall n :: n in w.nodes && HasTaint(after[n].taints, p) ==>
         || (SamePair(p, spec.taint) && S.Applies(spec.nodeSelector, w.nodes[n].labels))
         || (HasTaint(w.nodes[n].taints, p) && !(SamePair(p, spec.taint) && Leaves(w, r, w.nodes[n])))
  }

  lemma LeftCarriers(w: World, f: Faults, rule: Rule, p: Taint)
    requires WellFormed(w) && rule.name in w.rules && rule.spec == w.rules[rule.name].spec
    ensures var left := LeaveOld(w, f, rule);
            && CarriersShrink(left.world.nodes, w.nodes, p)
            && (left.ok ==> CarriersFit(w, left.world.nodes, rule.name, p))
  {
    hide Cleaned, HasTaint, S.SelectorChanged, S.Applies, S.Matches, S.ValidSelector;
    if ChangeNoticed(w, rule.name) {
      var targets := LeavingTargets(w.cache[rule.name].spec.nodeSelector, rule.spec.nodeSelector);
      CleanedCarriers(f, rule.name, rule.spec.taint, targets, w.nodes, w.order, p);
      assert |Listed(w.nodes, w.order)| == |w.order|;
    }
  }

  lemma SweptCarriers(w: World, left: World, f: Faults, rule: Rule, p: Taint)
    requires NodesListed(left.nodes, left.order) && rule.name in w.rules && rule.spec == w.rules[rule.name].spec
    requires CarriersFit(w, left.nodes, rule.name, p)
    ensures CarriersFit(w, EnforceCached(left, f, rule).world.nodes, rule.name, p)
  {
    hide HasTaint, S.Applies, Leaves, Publish, SweptNode, Swept, StatusLists.DryRunOf;
    var rule0 := WithDryRun(rule, NoResults);
    SweptNodes(f, rule0, left.nodes, left.order);
    assert |Listed(left.nodes, left.order)| == |left.order|;
    forall n | n in left.nodes
      ensures Read(SweptNode(f, rule0, left.nodes[n]), left.nodes[n])
      ensures HasTaint(SweptNode(f, rule0, left.nodes[n]).taints, p) ==>
                HasTaint(left.nodes[n].taints, p)
                  || (SamePair(p, rule.spec.taint) && S.Applies(rule.spec.nodeSelector, left.nodes[n].labels))
    {
      ActFrame(f, rule0, left.nodes[n], p);
    }
  }

  lemma CachedRules(w: World, f: Faults, rule: Rule)
    requires Covered(w.nodes, w.order)
    ensures var after := EnforceCached(w, f, rule).world;
            NodePass.SameRulesButStatus(after.rules, w.rules) && after.order == w.order && after.cache == w.cache
  {
    hide Swept, StatusLists.DryRunOf, Publish;
    var items := Listed(w.nodes, w.order);
    var s := Swept(f, WithDryRun(rule, NoResults), w.nodes, items, |items|);
    PublishRules(w, f, WithDryRun(rule, StatusLists.DryRunOf(rule.spec, items)));
    PublishRules(w.(nodes := s.nodes), f, SweepDone(s));
  }

  lemma PublishRules(w: World, f: Faults, rule: Rule)
    ensures NodePass.SameRulesButStatus(Publish(w, f, rule).world.rules, w.rules)
  {
  }

  /** Enforcing either stops at the old selector's cleanup, with the cache as it was, or updates the cache. */
  lemma EnforceCarriers(w: World, f: Faults, rule: Rule, p: Taint)
    requires WellFormed(w) && rule.name in w.rules && rule == w.rules[rule.name].(status := rule.status)
    ensures var after := Enforce(w, f, rule).world;
            && NodePass.SameRulesButStatus(after.rules, w.rules) && after.order == w.order
            && if LeaveOld(w, f, rule).ok
               then after.cache == w.cache[rule.name := rule] && CarriersFit(w, after.nodes, rule.name, p)
               else after.cache == w.cache && CarriersShrink(after.nodes, w.nodes, p)
  {
    hide EnforceCached, LeaveOld, CarriersFit, CarriersShrink;
    LeftCarriers(w, f, rule, p);
    var left := LeaveOld(w, f, rule);
    if left.ok {
      LeftListed(w, f, rule, p);
      CachedRules(left.world.(cache := w.cache[rule.name := rule]), f, rule);
      SweptCarriers(w, left.world.(cache := w.cache[rule.name := rule]), f, rule, p);
    }
  }

  lemma LeftListed(w: World, f: Faults, rule: Rule, p: Taint)
    requires WellFormed(w) && CarriersShrink(LeaveOld(w, f, rule).world.nodes, w.nodes, p)
    ensures NodesListed(LeaveOld(w, f, rule).world.nodes, w.order)
  {
  }

  /** A live reconcile may store the finalizer and a status, nothing else. */
  predicate RulesKept(after: Rules, before: Rules) {
    && after.Keys == before.Keys
    && forall q :: q in before ==>
         && after[q].name == before[q].name && after[q].spec == before[q].spec
         && after[q].deleting == before[q].deleting
         && (FINALIZER in before[q].finalizers ==> FINALIZER in after[q].finalizers)
         && (FINALIZER in after[q].finalizers ==> FINALIZER in before[q].finalizers || !before[q].deleting)
  }

  /** The rule was cached as stored, after the nodes it left had been cleaned. */
  predicate CachedAnew(w: World, after: World, r: string, p: Taint)
    requires r in w.rules
  {
    && r in after.cache && after.cache == w.cache[r := after.cache[r]]
    && after.cache[r].name == r && after.cache[r].spec == w.rules[r].spec
    && r in after.rules && FINALIZER in after.rules[r].finalizers
    && CarriersFit(w, after.nodes, r, p)
  }

  lemma EnforceAnew(w: World, f: Faults, rule: Rule, p: Taint)
    requires WellFormed(w) && rule.name in w.rules && rule == w.rules[rule.name] && FINALIZER in rule.finalizers
    ensures var after := Enforce(w, f, rule).world;
            && RulesKept(after.rules, w.rules) && after.order == w.order
            && (|| (after.cache == w.cache && CarriersShrink(after.nodes, w.nodes, p))
                || CachedAnew(w, after, rule.name, p))
  {
    hide Enforce, LeaveOld, CarriersFit, CarriersShrink;
    EnforceCarriers(w, f, rule, p);
  }

  lemma LiveCarriers(w: World, f: Faults, r: string, p: Taint)
    requires WellFormed(w) && r in w.rules && !w.rules[r].deleting && Covered(w.nodes, w.order)
    ensures var after := ReconcileRule(w, f, r).world;
            && RulesKept(after.rules, w.rules) && after.order == w.order
            && (|| (after.cache == w.cache && CarriersShrink(after.nodes, w.nodes, p))
                || CachedAnew(w, after, r, p))
  {
    hide Enforce, Finalize, CachedAnew, CarriersShrink, NodesListed, RulesKept;
    var rule := w.rules[r];
    ShrinkReflexive(w.nodes, p);
    KeptReflexive(w.rules);
    if FINALIZER in rule.finalizers {
      EnforceAnew(w, f, rule, p);
    } else {
      var rule1 := rule.(finalizers := rule.finalizers + [FINALIZER]);
      var w1 := w.(rules := w.rules[r := rule1]);
      EnforceAnew(w1, f, rule1, p);
      KeptFrom(Enforce(w1, f, rule1).world.rules, w.rules, r);
      KeptFrom(w1.rules, w.rules, r);
      SameAnew(w, w1, Enforce(w1, f, rule1).world, r, p);
    }
  }

  lemma KeptReflexive(rules: Rules)
    ensures RulesKept(rules, rules)
  {
  }

  lemma KeptFrom(after: Rules, before: Rules, r: string)
    requires r in before && !before[r].deleting
    requires var added := before[r := before[r].(finalizers := before[r].finalizers + [FINALIZER])];
             RulesKept(after, added) || after == added
    ensures RulesKept(after, before)
  {
    assert FINALIZER in before[r].finalizers + [FINALIZER];
  }

  lemma ShrinkReflexive(nodes: Nodes, p: Taint)
    ensures CarriersShrink(nodes, nodes, p)
  {
  }

  lemma SameAnew(w: World, w1: World, after: World, r: string, p: Taint)
    requires r in w.rules && r in w1.rules && w.rules[r].spec == w1.rules[r].spec
    requires w1 == w.(rules := w1.rules)
    ensures CachedAnew(w, after, r, p) == CachedAnew(w1, after, r, p)
  {
  }

  /** The finalizer and the cache entry are gone, and no node the rule applies to carries its taint. */
  predicate ReleasedRule(w: World, after: World, r: string, p: Taint)
    requires r in w.rules
  {
    var spec := w.rules[r].spec;
    && after.cache == w.cache - {r}
    && after.rules.Keys - {r} == w.rules.Keys - {r}
    && (forall q :: q in after.rules && q != r ==> q in w.rules && after.rules[q] == w.rules[q])
    && (r in after.rules
        ==> after.rules[r] == w.rules[r].(finalizers := StatusLists.WithoutFinalizer(w.rules[r].finalizers)))
    && (SamePair(p, spec.taint) ==>
          forall n :: n in w.nodes && n in after.nodes && HasTaint(after.nodes[n].taints, p)
            ==> !S.Applies(spec.nodeSelector, w.nodes[n].labels))
  }

  lemma DeletingCarriers(w: World, f: Faults, r: string, p: Taint)
    requires WellFormed(w) && r in w.rules && w.rules[r].deleting && Covered(w.nodes, w.order)
    ensures var after := ReconcileRule(w, f, r).world;
            && after.order == w.order && CarriersShrink(after.nodes, w.nodes, p)
            && (|| (after.rules == w.rules && after.cache == w.cache)
                || ReleasedRule(w, after, r, p))
  {
    hide Cleaned, StatusLists.WithoutFinalizer;
    hide Cleaned, HasTaint, S.Applies;
    var spec := w.rules[r].spec;
    CleanedCarriers(f, r, spec.taint, DeletionTargets(spec.nodeSelector), w.nodes, w.order, p);
    assert |Listed(w.nodes, w.order)| == |w.order|;
  }

  lemma NothingRead(w: World, f: Faults, n: string, sequence: seq<string>)
    requires !NodeRead(w, f, n)
    ensures ReconcileNode(w, f, n, sequence) == w
  {
  }

  lemma FaultFreeCaches(w: World, f: Faults, r: string)
    requires WellFormed(w) && FaultFree(f) && r in w.rules && !w.rules[r].deleting
    requires ChangeNoticed(w, r) ==> S.ValidSelector(w.cache[r].spec.nodeSelector)
    ensures var after := ReconcileRule(w, f, r).world;
            r in after.cache && after.cache[r].spec == w.rules[r].spec
  {
    hide LeaveOld, EnforceCached, Finalize, S.ValidSelector, S.SelectorChanged;
    var rule := w.rules[r];
    var rule1 := rule.(finalizers := rule.finalizers + [FINALIZER]);
    var w1 := w.(rules := w.rules[r := rule1]);
    LeftNodes(w, f, rule);
    LeftNodes(w1, f, rule1);
    CachedCache(LeaveOld(w, f, rule).world.(cache := w.cache[r := rule]), f, rule);
    CachedCache(LeaveOld(w1, f, rule1).world.(cache := w1.cache[r := rule1]), f, rule1);
  }

  lemma CachedCache(w: World, f: Faults, rule: Rule)
    requires Covered(w.nodes, w.order)
    ensures EnforceCached(w, f, rule).world.cache == w.cache
  {
    CachedRules(w, f, rule);
  }

  /** A rule reconciled for the first time is cached as it was stored before. */
  lemma FirstCached(w: World, f: Faults, r: string)
    requires WellFormed(w) && FaultFree(f) && r in w.rules && r !in w.cache
    requires !w.rules[r].deleting && FINALIZER in w.rules[r].finalizers
    ensures Covered(w.nodes, w.order) && ReconcileRule(w, f, r).world.cache == w.cache[r := w.rules[r]]
  {
    hide EnforceCached, Finalize;
    assert forall n :: n in w.order ==> n in Seqs.Elems(w.order);
    CachedCache(w.(cache := w.cache[r := w.rules[r]]), f, w.rules[r]);
  }

  // ----- Every step keeps the world well-formed

  const NO_PAIR := Taint("", "", "")

  lemma FitSameNodes(w: World, after: Nodes, r: string, p: Taint)
    requires r in w.rules && CarriersFit(w, after, r, p)
    ensures SameNodes(after, w.nodes)
  {
  }

  lemma ReconcileWellFormed(w: World, f: Faults, r: string)
    requires WellFormed(w) && Covered(w.nodes, w.order)
    ensures WellFormed(ReconcileRule(w, f, r).world)
  {
    hide Enforce, Finalize, HasTaint, S.Applies, CarriersFit;
    if r in w.rules && !f(GetRule(r)) {
      var after := ReconcileRule(w, f, r).world;
      if w.rules[r].deleting {
        DeletingCarriers(w, f, r, NO_PAIR);
        assert forall q :: q in after.rules && q != r ==> q in after.rules.Keys - {r};
      } else {
        LiveCarriers(w, f, r, NO_PAIR);
        if CachedAnew(w, after, r, NO_PAIR) {
          FitSameNodes(w, after.nodes, r, NO_PAIR);
        }
      }
    }
  }

  lemma NextWellFormed(w: World, step: Step)
    requires WellFormed(w)
    ensures WellFormed(Next(w, step))
  {
    hide ReconcileRule, ReconcileNode;
    assert forall n :: n in w.order ==> n in Seqs.Elems(w.order);
    if Enabled(w, step) {
      match step {
        case NodeReconcile(n, sequence, f) =>
          if NodeRead(w, f, n) {
            NodeReconcileFrame(w, f, n, sequence);
          } else {
            NothingRead(w, f, n, sequence);
          }
        case RuleReconcile(r, f) => ReconcileWellFormed(w, f, r);
        case _ =>
      }
    }
  }

  // ----- Where specs come from

  /** Specs that survive a step are unchanged. */
  predicate SpecsWithin(after: Rules, before: Rules) {
    forall r :: r in after ==> r in before && after[r].spec == before[r].spec
  }

  /** A cached spec was cached before, or is the stored spec of the rule just reconciled. */
  predicate CachedFrom(after: World, w: World, r: string) {
    forall q :: q in after.cache ==>
      || (q in w.cache && after.cache[q].spec == w.cache[q].spec)
      || (q == r && q in w.rules && after.cache[q].spec == w.rules[q].spec)
  }

  lemma ReconcileKeepsSpecs(w: World, f: Faults, r: string)
    requires WellFormed(w) && Covered(w.nodes, w.order)
    ensures var after := ReconcileRule(w, f, r).world; SpecsWithin(after.rules, w.rules) && CachedFrom(after, w, r)
  {
    hide Enforce, Finalize, HasTaint, S.Applies, CarriersFit;
    if r in w.rules && !f(GetRule(r)) {
      var after := ReconcileRule(w, f, r).world;
      if w.rules[r].deleting {
        DeletingCarriers(w, f, r, NO_PAIR);
        assert forall q :: q in after.rules && q != r ==> q in after.rules.Keys - {r};
      } else {
        LiveCarriers(w, f, r, NO_PAIR);
      }
    }
  }

  lemma StepKeepsSpecs(w: World, step: Step)
    requires WellFormed(w) && !step.WriteRule?
    ensures SpecsWithin(Next(w, step).rules, w.rules)
    ensures CachedFrom(Next(w, step), w, if step.RuleReconcile? then step.rule else "")
  {
    hide ReconcileRule, ReconcileNode;
    assert forall n :: n in w.order ==> n in Seqs.Elems(w.order);
    if Enabled(w, step) {
      match step {
        case NodeReconcile(n, sequence, f) =>
          if NodeRead(w, f, n) {
            NodeReconcileFrame(w, f, n, sequence);
          } else {
            NothingRead(w, f, n, sequence);
          }
        case RuleReconcile(r, f) => ReconcileKeepsSpecs(w, f, r);
        case _ =>
      }
    }
  }
}
