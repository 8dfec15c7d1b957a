/** What one pass of the node reconciler does to a node: order independence and settling. */
module NodePass {
  import opened Seqs
  import opened Api
  import opened Evaluation
  import StatusLists
  import opened Cluster
  import S = Selectors

  // ----- The effect of one evaluation on the stored node

  /** The stored node after an evaluation on a copy that shows its current conditions and taints. */
  function Act(f: Faults, rule: Rule, node: Node): Node {
    if Decide(rule.spec, node) == Keep || f(PatchTaints(node.name, rule.name)) then node
    else
      var patched := node.(taints := Enforced(rule.spec, node));
      if Decide(rule.spec, node) == Remove && rule.spec.enforcementMode == BOOTSTRAP_ONLY
         && !f(MarkLatch(node.name, rule.name)) && LatchBody(patched, rule.name).Some?
      then Latched(patched, rule.name) else patched
  }

  /** The local copy shows what is stored, apart from annotations, which no evaluation reads. */
  predicate Current(local: Node, stored: Node) {
    local.name == stored.name && local.conditions == stored.conditions && local.taints == stored.taints
  }

  lemma EvaluateActs(f: Faults, rule: Rule, nodes: Nodes, local: Node)
    requires local.name in nodes && Current(local, nodes[local.name])
    ensures EvaluateAndRecord(f, rule, nodes, local).nodes == nodes[local.name := Act(f, rule, nodes[local.name])]
    ensures FaultFree(f) ==>
              var e := EvaluateAndRecord(f, rule, nodes, local);
              e.ok && Current(e.local, e.nodes[local.name])
  {
  }

  /**
   * One evaluation in full, whichever calls fail, on a local copy that may differ from the stored node. The
   * copy takes the decided taints even if their patch is rejected; if it is accepted, the whole list of the
   * copy is stored. No other node is touched.
   */
  lemma EvaluationExact(f: Faults, rule: Rule, nodes: Nodes, local: Node)
    requires local.name in nodes
    ensures var e, n, p := EvaluateAndRecord(f, rule, nodes, local), local.name, rule.spec.taint;
            var ready, has := AllSatisfied(rule.spec.conditions, local.conditions), HasTaint(local.taints, p);
            var wanted := if ready then Others(local.taints, p) else if has then local.taints else local.taints + [p];
            var patched := has == ready && !f(PatchTaints(n, rule.name));
            var marked := && patched && ready && rule.spec.enforcementMode == BOOTSTRAP_ONLY
                          && !f(MarkLatch(n, rule.name)) && LatchKey(rule.name) !in nodes[n].annotations;
            && e.nodes == nodes[n := nodes[n].(
                 taints := if patched then wanted else nodes[n].taints,
                 annotations :=
                   if marked then nodes[n].annotations[LatchKey(rule.name) := "true"] else nodes[n].annotations)]
            && e.local == (if patched then nodes[n] else local).(taints := wanted)
            && (e.ok <==> patched || has != ready)
  {
    hide HasTaint, AllSatisfied, Others, LatchKey;
    if AllSatisfied(rule.spec.conditions, local.conditions) && !HasTaint(local.taints, rule.spec.taint) {
      NothingToRemove(local.taints, rule.spec.taint);
    }
  }

  lemma NothingToRemove(taints: seq<Taint>, p: Taint)
    requires !HasTaint(taints, p)
    ensures Others(taints, p) == taints
  {
    FilterAll(taints, NotPair(p));
  }

  // ----- A failure-free pass, seen from the stored node

  predicate LatchClosed(rule: Rule, node: Node) {
    LatchKey(rule.name) in node.annotations && rule.spec.enforcementMode == BOOTSTRAP_ONLY
  }

  predicate Active(rule: Rule, globalDryRun: bool, node: Node) {
    !LatchClosed(rule, node) && !rule.spec.dryRun && !globalDryRun
  }

  function Visit(f: Faults, rule: Rule, globalDryRun: bool, node: Node): Node {
    if Active(rule, globalDryRun, node) then Act(f, rule, node) else node
  }

  function Visited(f: Faults, rules: Rules, globalDryRun: bool, node: Node, sequence: seq<string>, i: nat): Node
    requires i <= |sequence| && Elems(sequence) <= rules.Keys
  {
    if i == 0 then node
    else
      assert sequence[i - 1] in Elems(sequence);
      Visit(f, rules[sequence[i - 1]], globalDryRun, Visited(f, rules, globalDryRun, node, sequence, i - 1))
  }

  /** Specs and names survive a pass; only statuses change. */
  predicate SameRulesButStatus(a: Rules, b: Rules) {
    a.Keys == b.Keys && forall r :: r in a ==> a[r] == b[r].(status := a[r].status)
  }

  lemma VisitIgnoresStatus(f: Faults, a: Rule, b: Rule, globalDryRun: bool, node: Node)
    requires a == b.(status := a.status)
    ensures Visit(f, a, globalDryRun, node) == Visit(f, b, globalDryRun, node)
  {
  }

  /** A failure-free pass changes the stored node as the visits say, and no other node. */
  lemma {:induction false} PassVisits(f: Faults, globalDryRun: bool, s: Pass, sequence: seq<string>, i: nat)
    requires FaultFree(f) && Named(s.cache)
    requires i <= |sequence| && Elems(sequence) <= s.cache.Keys
    requires s.local.name in s.nodes && Current(s.local, s.nodes[s.local.name])
    ensures var t, n := PassTo(f, globalDryRun, s, sequence, i), s.local.name;
            && t.nodes == s.nodes[n := Visited(f, s.cache, globalDryRun, s.nodes[n], sequence, i)]
            && Current(t.local, t.nodes[n]) && t.local.name == n
            && SameRulesButStatus(t.cache, s.cache)
  {
    hide PassStep, Visit, ResultsFor;
    var n := s.local.name;
    if i == 0 {
      assert s.nodes == s.nodes[n := s.nodes[n]];
    } else {
      var t, r := PassTo(f, globalDryRun, s, sequence, i - 1), sequence[i - 1];
      PassVisits(f, globalDryRun, s, sequence, i - 1);
      assert r in Elems(sequence);
      PassStepVisits(f, globalDryRun, t, r);
      VisitIgnoresStatus(f, t.cache[r], s.cache[r], globalDryRun, t.nodes[n]);
    }
  }

  lemma PassStepVisits(f: Faults, globalDryRun: bool, s: Pass, r: string)
    requires FaultFree(f) && r in s.cache && s.cache[r].name == r
    requires s.local.name in s.nodes && Current(s.local, s.nodes[s.local.name])
    ensures var t, n := PassStep(f, globalDryRun, s, r), s.local.name;
            && t.nodes == s.nodes[n := Visit(f, s.cache[r], globalDryRun, s.nodes[n])]
            && Current(t.local, t.nodes[n]) && t.local.name == n
            && SameRulesButStatus(t.cache, s.cache)
  {
    EvaluateActs(f, s.cache[r], s.nodes, s.local);
    assert s.nodes == s.nodes[s.local.name := s.nodes[s.local.name]];
    assert Skipped(f, globalDryRun, s.nodes, s.local.name, s.cache[r])
           <==> !Active(s.cache[r], globalDryRun, s.nodes[s.local.name]);
  }

  // ----- Rules that own their taints

  /** No two of these rules manage the same key and effect. */
  predicate DistinctPairs(rules: Rules, names: set<string>)
    requires names <= rules.Keys
  {
    forall r, q :: r in names && q in names && r != q ==> !SamePair(rules[r].spec.taint, rules[q].spec.taint)
  }

  /** Active rules whose taint does not fit their conditions. */
  function Pending(rules: Rules, globalDryRun: bool, node: Node, names: set<string>): set<string>
    requires names <= rules.Keys
  {
    set r | r in names && Active(rules[r], globalDryRun, node) && Decide(rules[r].spec, node) != Keep
  }

  /** A rule sees nothing of what a rule with another name and another pair did. */
  lemma VisitFrame(f: Faults, rule: Rule, globalDryRun: bool, node: Node, other: Rule)
    requires FaultFree(f)
    requires rule.name != other.name && !SamePair(rule.spec.taint, other.spec.taint)
    ensures var after := Visit(f, rule, globalDryRun, node);
            && Active(other, globalDryRun, after) == Active(other, globalDryRun, node)
            && Decide(other.spec, after) == Decide(other.spec, node)
            && (LatchKey(other.name) in after.annotations <==> LatchKey(other.name) in node.annotations)
            && (LatchKey(other.name) in node.annotations ==>
                  after.annotations[LatchKey(other.name)] == node.annotations[LatchKey(other.name)])
  {
    EnforcedFrame(rule.spec, node, other.spec.taint);
    LatchKeyInjective(rule.name, other.name);
  }

  /** Visiting a rule settles it and leaves every other rule as pending as it was. */
  lemma VisitSettles(f: Faults, rules: Rules, globalDryRun: bool, node: Node, names: set<string>, r: string)
    requires FaultFree(f) && Named(rules)
    requires names <= rules.Keys && DistinctPairs(rules, names) && r in names
    ensures Pending(rules, globalDryRun, Visit(f, rules[r], globalDryRun, node), names)
            == Pending(rules, globalDryRun, node, names) - {r}
  {
    hide HasTaint, AllSatisfied, Others, Enforced, LatchKey;
    var after := Visit(f, rules[r], globalDryRun, node);
    EnforcedMeaning(rules[r].spec, node);
    assert Decide(rules[r].spec, after) == Keep || after == node;
    forall q | q in names && q != r
      ensures q in Pending(rules, globalDryRun, after, names) <==> q in Pending(rules, globalDryRun, node, names)
    {
      VisitFrame(f, rules[r], globalDryRun, node, rules[q]);
    }
  }

  lemma {:induction false} PendingAfter(
    f: Faults, rules: Rules, globalDryRun: bool, node: Node, sequence: seq<string>, i: nat)
    requires FaultFree(f) && Named(rules)
    requires i <= |sequence| && Elems(sequence) <= rules.Keys && DistinctPairs(rules, Elems(sequence))
    ensures Pending(rules, globalDryRun, Visited(f, rules, globalDryRun, node, sequence, i), Elems(sequence))
            == Pending(rules, globalDryRun, node, Elems(sequence)) - Elems(sequence[..i])
  {
    if i > 0 {
      PendingAfter(f, rules, globalDryRun, node, sequence, i - 1);
      assert sequence[i - 1] in Elems(sequence);
      VisitSettles(f, rules, globalDryRun, Visited(f, rules, globalDryRun, node, sequence, i - 1), Elems(sequence),
                   sequence[i - 1]);
      assert sequence[..i] == sequence[..i - 1] + [sequence[i - 1]];
      assert Elems(sequence[..i]) == Elems(sequence[..i - 1]) + {sequence[i - 1]};
    }
  }

  // ----- Settling: how many patches a pass makes

  /** Iteration i evaluates its rule and issues a taint patch. */
  predicate PatchesAt(f: Faults, globalDryRun: bool, s: Pass, sequence: seq<string>, i: nat)
    requires i < |sequence| && Elems(sequence) <= s.cache.Keys
  {
    assert sequence[i] in Elems(sequence);
    var t := PassTo(f, globalDryRun, s, sequence, i);
    var rule := t.cache[sequence[i]];
    !Skipped(f, globalDryRun, t.nodes, t.local.name, rule) && Decide(rule.spec, t.local) != Keep
  }

  /** Taint patches issued in the first i iterations of a pass. */
  function PatchesIn(f: Faults, globalDryRun: bool, s: Pass, sequence: seq<string>, i: nat): nat
    requires i <= |sequence| && Elems(sequence) <= s.cache.Keys
  {
    if i == 0 then 0
    else
      PatchesIn(f, globalDryRun, s, sequence, i - 1) + if PatchesAt(f, globalDryRun, s, sequence, i - 1) then 1 else 0
  }

  /** The rules still pending on the pass's node after i iterations. */
  function PendingAt(f: Faults, globalDryRun: bool, s: Pass, sequence: seq<string>, i: nat): set<string>
    requires i <= |sequence| && Elems(sequence) <= s.cache.Keys && s.local.name in s.nodes
  {
    Pending(s.cache, globalDryRun, PassTo(f, globalDryRun, s, sequence, i).nodes[s.local.name], Elems(sequence))
  }

  lemma PendingStep(f: Faults, globalDryRun: bool, s: Pass, sequence: seq<string>, i: nat)
    requires FaultFree(f) && Named(s.cache)
    requires i < |sequence| && Elems(sequence) <= s.cache.Keys && DistinctPairs(s.cache, Elems(sequence))
    requires s.local.name in s.nodes && Current(s.local, s.nodes[s.local.name])
    ensures PendingAt(f, globalDryRun, s, sequence, i + 1) == PendingAt(f, globalDryRun, s, sequence, i) - {sequence[i]}
    ensures PatchesAt(f, globalDryRun, s, sequence, i) <==> sequence[i] in PendingAt(f, globalDryRun, s, sequence, i)
  {
    var n := s.local.name;
    PassVisits(f, globalDryRun, s, sequence, i);
    PassVisits(f, globalDryRun, s, sequence, i + 1);
    assert sequence[i] in Elems(sequence);
    VisitSettles(f, s.cache, globalDryRun, PassTo(f, globalDryRun, s, sequence, i).nodes[n], Elems(sequence),
                 sequence[i]);
  }

  lemma PendingAtStart(f: Faults, globalDryRun: bool, s: Pass, sequence: seq<string>)
    requires Elems(sequence) <= s.cache.Keys && s.local.name in s.nodes
    ensures PendingAt(f, globalDryRun, s, sequence, 0)
            == Pending(s.cache, globalDryRun, s.nodes[s.local.name], Elems(sequence))
  {
  }

  /** Every patch takes exactly one rule off the pending set. */
  lemma {:induction false} PatchesCount(f: Faults, globalDryRun: bool, s: Pass, sequence: seq<string>, i: nat)
    requires FaultFree(f) && Named(s.cache)
    requires i <= |sequence| && Elems(sequence) <= s.cache.Keys && DistinctPairs(s.cache, Elems(sequence))
    requires s.local.name in s.nodes && Current(s.local, s.nodes[s.local.name])
    ensures PatchesIn(f, globalDryRun, s, sequence, i) + |PendingAt(f, globalDryRun, s, sequence, i)|
            == |Pending(s.cache, globalDryRun, s.nodes[s.local.name], Elems(sequence))|
  {
    hide PendingAt, PatchesAt, Pending, PassTo;
    if i == 0 {
      PendingAtStart(f, globalDryRun, s, sequence);
    } else {
      PatchesCount(f, globalDryRun, s, sequence, i - 1);
      PendingStep(f, globalDryRun, s, sequence, i - 1);
      var before := PendingAt(f, globalDryRun, s, sequence, i - 1);
      if sequence[i - 1] !in before {
        assert before - {sequence[i - 1]} == before;
      }
    }
  }

  lemma NothingPending(f: Faults, globalDryRun: bool, s: Pass, sequence: seq<string>)
    requires FaultFree(f) && Named(s.cache)
    requires Elems(sequence) <= s.cache.Keys && DistinctPairs(s.cache, Elems(sequence))
    requires s.local.name in s.nodes && Current(s.local, s.nodes[s.local.name])
    ensures PendingAt(f, globalDryRun, s, sequence, |sequence|) == {}
  {
    hide PassTo, Visited, Active, Decide, DistinctPairs;
    PassVisits(f, globalDryRun, s, sequence, |sequence|);
    PendingAfter(f, s.cache, globalDryRun, s.nodes[s.local.name], sequence, |sequence|);
    assert sequence[..|sequence|] == sequence;
  }

  /** After a whole pass nothing is pending, so the pass made as many patches as there were pending rules. */
  lemma PassSettles(w: World, f: Faults, n: string, sequence: seq<string>)
    requires WellFormed(w) && FaultFree(f) && n in w.nodes && Enumerates(sequence, w.cache, w.nodes[n].labels)
    requires DistinctPairs(w.cache, Elems(sequence))
    ensures var after := ReconcileNode(w, f, n, sequence).nodes[n];
            && Pending(w.cache, w.globalDryRun, after, Elems(sequence)) == {}
            && PatchesIn(f, w.globalDryRun, Pass(w.nodes, w.rules, w.cache, w.nodes[n]), sequence, |sequence|)
               == |Pending(w.cache, w.globalDryRun, w.nodes[n], Elems(sequence))|
  {
    hide PassTo, PatchesIn, Pending;
    var s := Pass(w.nodes, w.rules, w.cache, w.nodes[n]);
    PatchesCount(f, w.globalDryRun, s, sequence, |sequence|);
    NothingPending(f, w.globalDryRun, s, sequence);
  }

  // ----- The loop of events a node update triggers

  /** What a failure-free pass leaves alone: every other node, the node's labels and conditions, all specs. */
  lemma PassKeeps(w: World, f: Faults, n: string, sequence: seq<string>)
    requires WellFormed(w) && FaultFree(f) && n in w.nodes && Enumerates(sequence, w.cache, w.nodes[n].labels)
    ensures var after := ReconcileNode(w, f, n, sequence);
            && after.nodes == w.nodes[n := Visited(f, w.cache, w.globalDryRun, w.nodes[n], sequence, |sequence|)]
            && SameRulesButStatus(after.cache, w.cache) && Named(after.cache)
            && after.globalDryRun == w.globalDryRun
            && after.nodes[n] == w.nodes[n].(taints := after.nodes[n].taints, annotations := after.nodes[n].annotations)
            && ApplicableRules(after.cache, after.nodes[n].labels) == ApplicableRules(w.cache, w.nodes[n].labels)
  {
    hide PassTo, Visited;
    PassVisits(f, w.globalDryRun, Pass(w.nodes, w.rules, w.cache, w.nodes[n]), sequence, |sequence|);
    VisitedKeeps(f, w.cache, w.globalDryRun, w.nodes[n], sequence, |sequence|);
  }

  lemma {:induction false} VisitedKeeps(
    f: Faults, rules: Rules, globalDryRun: bool, node: Node, sequence: seq<string>, i: nat)
    requires i <= |sequence| && Elems(sequence) <= rules.Keys
    ensures var after := Visited(f, rules, globalDryRun, node, sequence, i);
            after == node.(taints := after.taints, annotations := after.annotations)
  {
    if i > 0 {
      VisitedKeeps(f, rules, globalDryRun, node, sequence, i - 1);
    }
  }

  /** Node reconciles of n in a row, each with its own rule order, and nothing in between. */
  ghost predicate NodeLoop(ws: seq<World>, f: Faults, n: string, orders: seq<seq<string>>) {
    && |ws| == |orders| + 1
    && forall i :: 0 <= i < |orders| ==>
         && n in ws[i].nodes && Named(ws[i].cache) && ws[i].nodes[n].name == n
         && Enumerates(orders[i], ws[i].cache, ws[i].nodes[n].labels)
         && ws[i + 1] == ReconcileNode(ws[i], f, n, orders[i])
  }

  function PatchesOf(w: World, f: Faults, n: string, sequence: seq<string>): nat
    requires n in w.nodes && Enumerates(sequence, w.cache, w.nodes[n].labels)
  {
    PatchesIn(f, w.globalDryRun, Pass(w.nodes, w.rules, w.cache, w.nodes[n]), sequence, |sequence|)
  }

  ghost function PatchTotal(ws: seq<World>, f: Faults, n: string, orders: seq<seq<string>>, i: nat): nat
    requires NodeLoop(ws, f, n, orders) && i <= |orders|
  {
    if i == 0 then 0 else PatchTotal(ws, f, n, orders, i - 1) + PatchesOf(ws[i - 1], f, n, orders[i - 1])
  }

  function PendingOn(w: World, n: string): set<string>
    requires n in w.nodes
  {
    Pending(w.cache, w.globalDryRun, w.nodes[n], ApplicableRules(w.cache, w.nodes[n].labels))
  }

  predicate OwnPairs(w: World, n: string)
    requires n in w.nodes
  {
    DistinctPairs(w.cache, ApplicableRules(w.cache, w.nodes[n].labels))
  }

  lemma StatusIrrelevant(a: Rules, b: Rules, globalDryRun: bool, node: Node, names: set<string>)
    requires SameRulesButStatus(a, b) && names <= a.Keys
    ensures Pending(a, globalDryRun, node, names) == Pending(b, globalDryRun, node, names)
    ensures DistinctPairs(a, names) == DistinctPairs(b, names)
  {
  }

  lemma PassThenQuiet(w: World, f: Faults, n: string, sequence: seq<string>)
    requires WellFormed(w) && FaultFree(f) && n in w.nodes && Enumerates(sequence, w.cache, w.nodes[n].labels)
    requires OwnPairs(w, n)
    ensures var after := ReconcileNode(w, f, n, sequence);
            && n in after.nodes && WellFormed(after) && OwnPairs(after, n) && PendingOn(after, n) == {}
            && PatchesOf(w, f, n, sequence) == |PendingOn(w, n)|
  {
    hide ReconcileNode, Visited, PatchesIn, Pending, DistinctPairs;
    var after := ReconcileNode(w, f, n, sequence);
    PassSettles(w, f, n, sequence);
    PassKeeps(w, f, n, sequence);
    ReconcileNodeWellFormed(w, f, n, sequence);
    StatusIrrelevant(after.cache, w.cache, w.globalDryRun, after.nodes[n], Elems(sequence));
  }

  lemma ReconcileNodeWellFormed(w: World, f: Faults, n: string, sequence: seq<string>)
    requires WellFormed(w) && FaultFree(f) && n in w.nodes && Enumerates(sequence, w.cache, w.nodes[n].labels)
    ensures WellFormed(ReconcileNode(w, f, n, sequence))
  {
    hide PassTo, Visited;
    PassKeeps(w, f, n, sequence);
    RulesStayNamed(f, w.globalDryRun, Pass(w.nodes, w.rules, w.cache, w.nodes[n]), sequence, |sequence|);
  }

  lemma {:induction false} RulesStayNamed(f: Faults, globalDryRun: bool, s: Pass, sequence: seq<string>, i: nat)
    requires i <= |sequence| && Elems(sequence) <= s.cache.Keys && Named(s.rules)
    ensures SameRulesButStatus(PassTo(f, globalDryRun, s, sequence, i).rules, s.rules)
  {
    hide EvaluateAndRecord, Skipped, StatusLists.Merged, StatusLists.SchemaAccepts;
    if i > 0 {
      RulesStayNamed(f, globalDryRun, s, sequence, i - 1);
    }
  }

  /**
   * However often a node's own updates wake the reconciler, and in whatever rule orders it then
   * runs, the passes together issue one patch per rule pending at the start: the loop dies out.
   */
  lemma {:induction false} LoopSettles(ws: seq<World>, f: Faults, n: string, orders: seq<seq<string>>, i: nat)
    requires FaultFree(f) && NodeLoop(ws, f, n, orders) && 0 < i <= |orders|
    requires WellFormed(ws[0]) && n in ws[0].nodes && OwnPairs(ws[0], n)
    ensures PatchTotal(ws, f, n, orders, i) == |PendingOn(ws[0], n)|
    ensures n in ws[i].nodes && WellFormed(ws[i]) && OwnPairs(ws[i], n) && PendingOn(ws[i], n) == {}
  {
    hide PendingOn, PatchesOf, OwnPairs, ReconcileNode, WellFormed, Enumerates;
    if i > 1 {
      LoopSettles(ws, f, n, orders, i - 1);
    }
    PassThenQuiet(ws[i - 1], f, n, orders[i - 1]);
    assert PatchTotal(ws, f, n, orders, 0) == 0;
  }

  // ----- Order independence

  function CountOf(node: Node, t: Taint): nat {
    multiset(node.taints)[t]
  }

  /** A visit changes the multiplicity only of taints with the rule's own pair. */
  lemma VisitCountFrame(f: Faults, rule: Rule, globalDryRun: bool, node: Node, t: Taint)
    requires FaultFree(f) && !SamePair(t, rule.spec.taint)
    ensures CountOf(Visit(f, rule, globalDryRun, node), t) == CountOf(node, t)
  {
    FilterMultiplicity(node.taints, NotPair(rule.spec.taint), t);
  }

  /** A visit that starts from the same view of its own pair ends with the same multiplicities there. */
  lemma VisitCountOwn(f: Faults, rule: Rule, globalDryRun: bool, a: Node, b: Node, t: Taint)
    requires FaultFree(f) && SamePair(t, rule.spec.taint) && CountOf(a, t) == CountOf(b, t)
    requires Active(rule, globalDryRun, a) == Active(rule, globalDryRun, b)
             && Decide(rule.spec, a) == Decide(rule.spec, b)
    ensures CountOf(Visit(f, rule, globalDryRun, a), t) == CountOf(Visit(f, rule, globalDryRun, b), t)
  {
    FilterMultiplicity(a.taints, NotPair(rule.spec.taint), t);
    FilterMultiplicity(b.taints, NotPair(rule.spec.taint), t);
  }

  /** Before its turn, a rule sees the node as it was at the start. */
  lemma {:induction false} UntouchedBefore(
    f: Faults, rules: Rules, globalDryRun: bool, node: Node, sequence: seq<string>, i: nat, r: string)
    requires FaultFree(f) && Named(rules) && i <= |sequence|
    requires Elems(sequence) <= rules.Keys && DistinctPairs(rules, Elems(sequence))
    requires r in Elems(sequence) && r !in sequence[..i]
    ensures var now := Visited(f, rules, globalDryRun, node, sequence, i);
            && Active(rules[r], globalDryRun, now) == Active(rules[r], globalDryRun, node)
            && Decide(rules[r].spec, now) == Decide(rules[r].spec, node)
            && (LatchKey(r) in now.annotations <==> LatchKey(r) in node.annotations)
            && (LatchKey(r) in node.annotations ==> now.annotations[LatchKey(r)] == node.annotations[LatchKey(r)])
  {
    if i > 0 {
      assert sequence[..i] == sequence[..i - 1] + [sequence[i - 1]];
      UntouchedBefore(f, rules, globalDryRun, node, sequence, i - 1, r);
      assert sequence[i - 1] in Elems(sequence);
      VisitFrame(f, rules[sequence[i - 1]], globalDryRun, Visited(f, rules, globalDryRun, node, sequence, i - 1),
                 rules[r]);
    }
  }

  /** A pass over distinct names of rules that own their taints. */
  ghost predicate ProperPass(f: Faults, rules: Rules, sequence: seq<string>) {
    && FaultFree(f) && Named(rules) && Distinct(sequence)
    && Elems(sequence) <= rules.Keys && DistinctPairs(rules, Elems(sequence))
    && forall j :: 0 <= j < |sequence| ==> sequence[j] in rules && rules[sequence[j]].name == sequence[j]
  }

  lemma DistinctAt(f: Faults, rules: Rules, sequence: seq<string>, i: nat, j: nat)
    requires ProperPass(f, rules, sequence) && i < |sequence| && j < |sequence| && i != j
    ensures sequence[i] != sequence[j]
    ensures !SamePair(rules[sequence[i]].spec.taint, rules[sequence[j]].spec.taint)
  {
  }

  lemma FreshAt(f: Faults, rules: Rules, globalDryRun: bool, node: Node, sequence: seq<string>, i: nat)
    requires ProperPass(f, rules, sequence) && i < |sequence|
    ensures var now, rule := Visited(f, rules, globalDryRun, node, sequence, i), rules[sequence[i]];
            && Active(rule, globalDryRun, now) == Active(rule, globalDryRun, node)
            && Decide(rule.spec, now) == Decide(rule.spec, node)
            && Annotation(now, LatchKey(rule.name)) == Annotation(node, LatchKey(rule.name))
  {
    assert sequence[i] in Elems(sequence) && sequence[i] !in sequence[..i];
    UntouchedBefore(f, rules, globalDryRun, node, sequence, i, sequence[i]);
  }

  lemma {:induction false} CountUnowned(
    f: Faults, rules: Rules, globalDryRun: bool, node: Node, sequence: seq<string>, i: nat, t: Taint)
    requires ProperPass(f, rules, sequence) && i <= |sequence|
    requires forall j :: 0 <= j < i ==> !SamePair(t, rules[sequence[j]].spec.taint)
    ensures CountOf(Visited(f, rules, globalDryRun, node, sequence, i), t) == CountOf(node, t)
  {
    if i > 0 {
      CountUnowned(f, rules, globalDryRun, node, sequence, i - 1, t);
      VisitCountFrame(f, rules[sequence[i - 1]], globalDryRun, Visited(f, rules, globalDryRun, node, sequence, i - 1),
                      t);
    }
  }

  /** A taint ends with the multiplicity that a visit of its owner alone would give it. */
  lemma {:induction false} CountOwned(
    f: Faults, rules: Rules, globalDryRun: bool, node: Node, sequence: seq<string>, i: nat, j: nat, t: Taint)
    requires ProperPass(f, rules, sequence) && j < i <= |sequence|
    requires SamePair(t, rules[sequence[j]].spec.taint)
    ensures CountOf(Visited(f, rules, globalDryRun, node, sequence, i), t)
            == CountOf(Visit(f, rules[sequence[j]], globalDryRun, node), t)
  {
    hide Visit, CountOf, Active, Decide, DistinctPairs;
    var before := Visited(f, rules, globalDryRun, node, sequence, i - 1);
    if i - 1 == j {
      forall k | 0 <= k < j
        ensures !SamePair(t, rules[sequence[k]].spec.taint)
      {
        DistinctAt(f, rules, sequence, k, j);
      }
      CountUnowned(f, rules, globalDryRun, node, sequence, j, t);
      FreshAt(f, rules, globalDryRun, node, sequence, j);
      VisitCountOwn(f, rules[sequence[j]], globalDryRun, before, node, t);
    } else {
      CountOwned(f, rules, globalDryRun, node, sequence, i - 1, j, t);
      DistinctAt(f, rules, sequence, i - 1, j);
      VisitCountFrame(f, rules[sequence[i - 1]], globalDryRun, before, t);
    }
  }

  function Annotation(node: Node, k: string): Option<string> {
    if k in node.annotations then Some(node.annotations[k]) else None
  }

  lemma {:induction false} AnnotationUnowned(
    f: Faults, rules: Rules, globalDryRun: bool, node: Node, sequence: seq<string>, i: nat, k: string)
    requires ProperPass(f, rules, sequence) && i <= |sequence|
    requires forall j :: 0 <= j < i ==> k != LatchKey(sequence[j])
    ensures Annotation(Visited(f, rules, globalDryRun, node, sequence, i), k) == Annotation(node, k)
  {
    if i > 0 {
      AnnotationUnowned(f, rules, globalDryRun, node, sequence, i - 1, k);
      VisitAnnotation(f, rules[sequence[i - 1]], globalDryRun, Visited(f, rules, globalDryRun, node, sequence, i - 1),
                      node, k);
    }
  }

  /** A completion annotation ends as a visit of its rule alone would leave it. */
  lemma {:induction false} AnnotationOwned(
    f: Faults, rules: Rules, globalDryRun: bool, node: Node, sequence: seq<string>, i: nat, j: nat)
    requires ProperPass(f, rules, sequence) && j < i <= |sequence|
    ensures var k := LatchKey(sequence[j]);
            Annotation(Visited(f, rules, globalDryRun, node, sequence, i), k)
            == Annotation(Visit(f, rules[sequence[j]], globalDryRun, node), k)
  {
    hide Visit, Annotation, Active, Decide, DistinctPairs, LatchKey;
    var before := Visited(f, rules, globalDryRun, node, sequence, i - 1);
    if i - 1 == j {
      FreshAt(f, rules, globalDryRun, node, sequence, j);
    } else {
      AnnotationOwned(f, rules, globalDryRun, node, sequence, i - 1, j);
      DistinctAt(f, rules, sequence, i - 1, j);
      LatchKeyInjective(sequence[i - 1], sequence[j]);
    }
    VisitAnnotation(f, rules[sequence[i - 1]], globalDryRun, before, node, LatchKey(sequence[j]));
  }

  lemma VisitAnnotation(f: Faults, rule: Rule, globalDryRun: bool, a: Node, b: Node, k: string)
    requires FaultFree(f)
    ensures k != LatchKey(rule.name) ==> Annotation(Visit(f, rule, globalDryRun, a), k) == Annotation(a, k)
    ensures && k == LatchKey(rule.name) && Annotation(a, k) == Annotation(b, k)
            && Active(rule, globalDryRun, a) == Active(rule, globalDryRun, b)
               && Decide(rule.spec, a) == Decide(rule.spec, b)
            ==> Annotation(Visit(f, rule, globalDryRun, a), k) == Annotation(Visit(f, rule, globalDryRun, b), k)
  {
  }

  lemma CountsDetermine(a: Node, b: Node)
    requires forall t: Taint :: CountOf(a, t) == CountOf(b, t)
    requires forall k: string :: Annotation(a, k) == Annotation(b, k)
    ensures multiset(a.taints) == multiset(b.taints) && a.annotations == b.annotations
  {
    forall t: Taint
      ensures multiset(a.taints)[t] == multiset(b.taints)[t]
    {
      assert CountOf(a, t) == CountOf(b, t);
    }
    forall k: string
      ensures k in a.annotations <==> k in b.annotations
      ensures k in a.annotations ==> a.annotations[k] == b.annotations[k]
    {
      assert Annotation(a, k) == Annotation(b, k);
    }
  }

  /** Two orders of the same rules end with the same taints, as a multiset, and the same annotations. */
  lemma VisitedConfluent(f: Faults, rules: Rules, globalDryRun: bool, node: Node, one: seq<string>, two: seq<string>)
    requires ProperPass(f, rules, one) && ProperPass(f, rules, two) && Elems(one) == Elems(two)
    ensures var a, b := Visited(f, rules, globalDryRun, node, one, |one|),
            Visited(f, rules, globalDryRun, node, two, |two|);
            multiset(a.taints) == multiset(b.taints) && a.annotations == b.annotations
  {
    hide Visited, CountOf, Annotation, DistinctPairs;
    forall t: Taint
      ensures CountOf(Visited(f, rules, globalDryRun, node, one, |one|), t)
              == CountOf(Visited(f, rules, globalDryRun, node, two, |two|), t)
    {
      CountConfluent(f, rules, globalDryRun, node, one, two, t);
    }
    forall k: string
      ensures Annotation(Visited(f, rules, globalDryRun, node, one, |one|), k)
              == Annotation(Visited(f, rules, globalDryRun, node, two, |two|), k)
    {
      AnnotationConfluent(f, rules, globalDryRun, node, one, two, k);
    }
    CountsDetermine(Visited(f, rules, globalDryRun, node, one, |one|),
                    Visited(f, rules, globalDryRun, node, two, |two|));
  }

  lemma CountConfluent(
    f: Faults, rules: Rules, globalDryRun: bool, node: Node, one: seq<string>, two: seq<string>, t: Taint)
    requires ProperPass(f, rules, one) && ProperPass(f, rules, two) && Elems(one) == Elems(two)
    ensures CountOf(Visited(f, rules, globalDryRun, node, one, |one|), t)
            == CountOf(Visited(f, rules, globalDryRun, node, two, |two|), t)
  {
    hide Visited, Visit, CountOf, DistinctPairs;
    if j :| 0 <= j < |one| && SamePair(t, rules[one[j]].spec.taint) {
      assert one[j] in Elems(two);
      var l :| 0 <= l < |two| && two[l] == one[j];
      CountOwned(f, rules, globalDryRun, node, one, |one|, j, t);
      CountOwned(f, rules, globalDryRun, node, two, |two|, l, t);
    } else {
      forall l | 0 <= l < |two|
        ensures !SamePair(t, rules[two[l]].spec.taint)
      {
        assert two[l] in Elems(one);
        var j :| 0 <= j < |one| && one[j] == two[l];
        assert !SamePair(t, rules[one[j]].spec.taint);
      }
      CountUnowned(f, rules, globalDryRun, node, one, |one|, t);
      CountUnowned(f, rules, globalDryRun, node, two, |two|, t);
    }
  }

  lemma AnnotationConfluent(
    f: Faults, rules: Rules, globalDryRun: bool, node: Node, one: seq<string>, two: seq<string>, k: string)
    requires ProperPass(f, rules, one) && ProperPass(f, rules, two) && Elems(one) == Elems(two)
    ensures Annotation(Visited(f, rules, globalDryRun, node, one, |one|), k)
            == Annotation(Visited(f, rules, globalDryRun, node, two, |two|), k)
  {
    hide Visited, Visit, Annotation, DistinctPairs, LatchKey;
    if j :| 0 <= j < |one| && k == LatchKey(one[j]) {
      assert one[j] in Elems(two);
      var l :| 0 <= l < |two| && two[l] == one[j];
      AnnotationOwned(f, rules, globalDryRun, node, one, |one|, j);
      AnnotationOwned(f, rules, globalDryRun, node, two, |two|, l);
    } else {
      forall l | 0 <= l < |two|
        ensures k != LatchKey(two[l])
      {
        assert two[l] in Elems(one);
        var j :| 0 <= j < |one| && one[j] == two[l];
        assert k != LatchKey(one[j]);
      }
      AnnotationUnowned(f, rules, globalDryRun, node, one, |one|, k);
      AnnotationUnowned(f, rules, globalDryRun, node, two, |two|, k);
    }
  }

  lemma ProperEnumeration(w: World, f: Faults, n: string, sequence: seq<string>)
    requires WellFormed(w) && FaultFree(f) && n in w.nodes && OwnPairs(w, n)
    requires Enumerates(sequence, w.cache, w.nodes[n].labels)
    ensures ProperPass(f, w.cache, sequence)
  {
  }

  /** The order in which the cache yields the applicable rules does not matter to the cluster. */
  lemma NodePassOrderIndependent(w: World, f: Faults, n: string, one: seq<string>, two: seq<string>)
    requires WellFormed(w) && FaultFree(f) && n in w.nodes && OwnPairs(w, n)
    requires Enumerates(one, w.cache, w.nodes[n].labels) && Enumerates(two, w.cache, w.nodes[n].labels)
    ensures var a, b := ReconcileNode(w, f, n, one), ReconcileNode(w, f, n, two);
            && multiset(a.nodes[n].taints) == multiset(b.nodes[n].taints)
            && a.nodes[n].annotations == b.nodes[n].annotations
            && a.nodes[n := w.nodes[n]] == b.nodes[n := w.nodes[n]] == w.nodes
  {
    hide ReconcileNode, Visited, ProperPass, SameRulesButStatus, ApplicableRules;
    PassKeeps(w, f, n, one);
    PassKeeps(w, f, n, two);
    ProperEnumeration(w, f, n, one);
    ProperEnumeration(w, f, n, two);
    VisitedConfluent(f, w.cache, w.globalDryRun, w.nodes[n], one, two);
  }

  lemma VisitOutcome(f: Faults, rule: Rule, globalDryRun: bool, node: Node)
    requires FaultFree(f) && Active(rule, globalDryRun, node)
    ensures var after := Visit(f, rule, globalDryRun, node);
            && after.conditions == node.conditions
            && (HasTaint(after.taints, rule.spec.taint) <==> !AllSatisfied(rule.spec.conditions, node.conditions))
  {
    hide HasTaint, AllSatisfied, Others, Enforced;
    EnforcedMeaning(rule.spec, node);
  }

  // ----- What a pass leaves of each pair

  lemma VisitPairFrame(f: Faults, rule: Rule, globalDryRun: bool, node: Node, p: Taint)
    requires !SamePair(p, rule.spec.taint)
    ensures OfPair(Visit(f, rule, globalDryRun, node).taints, p) == OfPair(node.taints, p)
  {
    hide Enforced, OfPair, Decide;
    EnforcedFrame(rule.spec, node, p);
  }

  /** A visit in full, when its calls are accepted. */
  lemma VisitPairOwn(f: Faults, rule: Rule, globalDryRun: bool, node: Node)
    requires FaultFree(f)
    ensures var after, p := Visit(f, rule, globalDryRun, node), rule.spec.taint;
            OfPair(after.taints, p)
            == if !Active(rule, globalDryRun, node) then OfPair(node.taints, p)
               else if AllSatisfied(rule.spec.conditions, node.conditions) then []
               else if HasTaint(node.taints, p) then OfPair(node.taints, p) else [p]
  {
    hide OfPair, AllSatisfied, HasTaint, Enforced;
    EnforcedMeaning(rule.spec, node);
    PairAbsent(node.taints, rule.spec.taint);
  }

  lemma VisitPairAgrees(f: Faults, rule: Rule, globalDryRun: bool, a: Node, b: Node)
    requires FaultFree(f) && a.conditions == b.conditions
             && Active(rule, globalDryRun, a) == Active(rule, globalDryRun, b)
    requires OfPair(a.taints, rule.spec.taint) == OfPair(b.taints, rule.spec.taint)
    ensures OfPair(Visit(f, rule, globalDryRun, a).taints, rule.spec.taint)
            == OfPair(Visit(f, rule, globalDryRun, b).taints, rule.spec.taint)
  {
    hide OfPair, AllSatisfied, HasTaint, Visit, Active;
    VisitPairOwn(f, rule, globalDryRun, a);
    VisitPairOwn(f, rule, globalDryRun, b);
    PairAbsent(a.taints, rule.spec.taint);
    PairAbsent(b.taints, rule.spec.taint);
  }

  lemma {:induction false} PairUnowned(
    f: Faults, rules: Rules, globalDryRun: bool, node: Node, sequence: seq<string>, i: nat, p: Taint)
    requires i <= |sequence| && Elems(sequence) <= rules.Keys
    requires forall j :: 0 <= j < i ==> sequence[j] in rules && !SamePair(p, rules[sequence[j]].spec.taint)
    ensures OfPair(Visited(f, rules, globalDryRun, node, sequence, i).taints, p) == OfPair(node.taints, p)
  {
    hide Visit, OfPair;
    if i > 0 {
      PairUnowned(f, rules, globalDryRun, node, sequence, i - 1, p);
      var before := Visited(f, rules, globalDryRun, node, sequence, i - 1);
      VisitPairFrame(f, rules[sequence[i - 1]], globalDryRun, before, p);
    }
  }

  /** A pair ends a pass as a visit of its owner alone would leave it. */
  lemma {:induction false} PairOwned(
    f: Faults, rules: Rules, globalDryRun: bool, node: Node, sequence: seq<string>, i: nat, j: nat)
    requires ProperPass(f, rules, sequence) && j < i <= |sequence|
    ensures var p := rules[sequence[j]].spec.taint;
            OfPair(Visited(f, rules, globalDryRun, node, sequence, i).taints, p)
            == OfPair(Visit(f, rules[sequence[j]], globalDryRun, node).taints, p)
  {
    hide Visit, OfPair, Active, Decide, DistinctPairs;
    var p, before := rules[sequence[j]].spec.taint, Visited(f, rules, globalDryRun, node, sequence, i - 1);
    if i - 1 == j {
      forall k | 0 <= k < j
        ensures sequence[k] in rules && !SamePair(p, rules[sequence[k]].spec.taint)
      {
        DistinctAt(f, rules, sequence, j, k);
      }
      PairUnowned(f, rules, globalDryRun, node, sequence, j, p);
      FreshAt(f, rules, globalDryRun, node, sequence, j);
      VisitedKeeps(f, rules, globalDryRun, node, sequence, j);
      VisitPairAgrees(f, rules[sequence[j]], globalDryRun, before, node);
    } else {
      PairOwned(f, rules, globalDryRun, node, sequence, i - 1, j);
      DistinctAt(f, rules, sequence, j, i - 1);
      VisitPairFrame(f, rules[sequence[i - 1]], globalDryRun, before, p);
    }
  }

  lemma VisitMark(f: Faults, rule: Rule, globalDryRun: bool, node: Node)
    requires FaultFree(f)
    ensures var after, k := Visit(f, rule, globalDryRun, node), LatchKey(rule.name);
            Annotation(after, k)
            == if && Active(rule, globalDryRun, node) && AllSatisfied(rule.spec.conditions, node.conditions)
                  && HasTaint(node.taints, rule.spec.taint) && rule.spec.enforcementMode == BOOTSTRAP_ONLY
               then Some("true") else Annotation(node, k)
  {
    hide AllSatisfied, HasTaint, LatchKey, Enforced;
  }

  /**
   * The effect of a failure-free node pass, rule by rule, where rules own their pairs. An applicable rule
   * is enforced unless it is in dry run, the switch is on, or it is bootstrap-only and marked. Enforced, it
   * leaves no taint of its pair on a ready node, its own taint, value included, on an unready one that had
   * none, and a completion mark where it is bootstrap-only and took the taint off.
   */
  lemma NodeEffect(w: World, f: Faults, n: string, sequence: seq<string>, r: string)
    requires WellFormed(w) && FaultFree(f) && n in w.nodes && Enumerates(sequence, w.cache, w.nodes[n].labels)
    requires OwnPairs(w, n) && r in w.cache && S.Applies(w.cache[r].spec.nodeSelector, w.nodes[n].labels)
    ensures n in ReconcileNode(w, f, n, sequence).nodes
    ensures var spec, before, after := w.cache[r].spec, w.nodes[n], ReconcileNode(w, f, n, sequence).nodes[n];
            var once := spec.enforcementMode == BOOTSTRAP_ONLY;
            var enforced := !spec.dryRun && !w.globalDryRun && !(once && LatchKey(r) in before.annotations);
            var ready, has := AllSatisfied(spec.conditions, before.conditions), HasTaint(before.taints, spec.taint);
            && OfPair(after.taints, spec.taint)
               == (if enforced && ready then [] else if enforced && !has then [spec.taint]
                   else OfPair(before.taints, spec.taint))
            && Annotation(after, LatchKey(r))
               == if enforced && ready && has && once then Some("true") else Annotation(before, LatchKey(r))
  {
    hide ReconcileNode, Visited, Visit, OfPair, Annotation, AllSatisfied, HasTaint, ProperPass, S.Applies, LatchKey;
    hide SameRulesButStatus, DistinctPairs;
    PassKeeps(w, f, n, sequence);
    ProperEnumeration(w, f, n, sequence);
    assert r in Elems(sequence);
    var j :| 0 <= j < |sequence| && sequence[j] == r;
    PairOwned(f, w.cache, w.globalDryRun, w.nodes[n], sequence, |sequence|, j);
    AnnotationOwned(f, w.cache, w.globalDryRun, w.nodes[n], sequence, |sequence|, j);
    VisitPairOwn(f, w.cache[r], w.globalDryRun, w.nodes[n]);
    VisitMark(f, w.cache[r], w.globalDryRun, w.nodes[n]);
  }

  /** Pairs that no applicable rule manages keep their taints, in order. */
  lemma NodeLeavesAlone(w: World, f: Faults, n: string, sequence: seq<string>, p: Taint)
    requires WellFormed(w) && FaultFree(f) && n in w.nodes && Enumerates(sequence, w.cache, w.nodes[n].labels)
    requires forall r :: r in ApplicableRules(w.cache, w.nodes[n].labels) ==> !SamePair(p, w.cache[r].spec.taint)
    ensures var after := ReconcileNode(w, f, n, sequence).nodes;
            n in after && OfPair(after[n].taints, p) == OfPair(w.nodes[n].taints, p)
  {
    hide ReconcileNode, Visited, OfPair, S.Applies;
    PassKeeps(w, f, n, sequence);
    assert forall j :: 0 <= j < |sequence| ==> sequence[j] in Elems(sequence);
    PairUnowned(f, w.cache, w.globalDryRun, w.nodes[n], sequence, |sequence|, p);
  }

  // ----- Without ownership of pairs

  /** A continuous rule outside dry run is active on every node. */
  predicate AlwaysActive(rule: Rule, globalDryRun: bool) {
    rule.spec.enforcementMode == CONTINUOUS && !rule.spec.dryRun && !globalDryRun
  }

  lemma VisitOtherPair(f: Faults, rule: Rule, globalDryRun: bool, node: Node, p: Taint)
    requires !SamePair(p, rule.spec.taint)
    ensures HasTaint(Visit(f, rule, globalDryRun, node).taints, p) == HasTaint(node.taints, p)
  {
    EnforcedFrame(rule.spec, node, p);
  }

  lemma {:induction false} LastVisitDecides(
    f: Faults, rules: Rules, globalDryRun: bool, node: Node, sequence: seq<string>, i: nat, j: nat)
    requires FaultFree(f) && j < i <= |sequence| && Elems(sequence) <= rules.Keys
    requires forall k :: 0 <= k < |sequence| ==> sequence[k] in rules
    requires AlwaysActive(rules[sequence[j]], globalDryRun)
    requires forall k :: j < k < i ==> !SamePair(rules[sequence[j]].spec.taint, rules[sequence[k]].spec.taint)
    ensures var rule := rules[sequence[j]];
            HasTaint(Visited(f, rules, globalDryRun, node, sequence, i).taints, rule.spec.taint)
            <==> !AllSatisfied(rule.spec.conditions, node.conditions)
  {
    hide Visit, HasTaint, AllSatisfied;
    VisitedKeeps(f, rules, globalDryRun, node, sequence, i - 1);
    var before := Visited(f, rules, globalDryRun, node, sequence, i - 1);
    if i == j + 1 {
      VisitOutcome(f, rules[sequence[j]], globalDryRun, before);
    } else {
      LastVisitDecides(f, rules, globalDryRun, node, sequence, i - 1, j);
      VisitOtherPair(f, rules[sequence[i - 1]], globalDryRun, before, rules[sequence[j]].spec.taint);
    }
  }

  /** Among the rules of a pair, the last one in the order of the rule map decides about the taint. */
  lemma LastRuleDecides(w: World, f: Faults, n: string, sequence: seq<string>, j: nat)
    requires WellFormed(w) && FaultFree(f) && n in w.nodes && Enumerates(sequence, w.cache, w.nodes[n].labels)
    requires j < |sequence| && (forall k :: 0 <= k < |sequence| ==> sequence[k] in w.cache)
    requires AlwaysActive(w.cache[sequence[j]], w.globalDryRun)
    requires forall k :: j < k < |sequence| ==>
               !SamePair(w.cache[sequence[j]].spec.taint, w.cache[sequence[k]].spec.taint)
    ensures var spec := w.cache[sequence[j]].spec;
            HasTaint(ReconcileNode(w, f, n, sequence).nodes[n].taints, spec.taint)
            <==> !AllSatisfied(spec.conditions, w.nodes[n].conditions)
  {
    hide ReconcileNode, Visited, HasTaint, AllSatisfied;
    PassKeeps(w, f, n, sequence);
    LastVisitDecides(f, w.cache, w.globalDryRun, w.nodes[n], sequence, |sequence|, j);
  }

  lemma SamePairSame(taints: seq<Taint>, p: Taint, q: Taint)
    ensures SamePair(p, q) ==> HasTaint(taints, p) == HasTaint(taints, q)
  {
  }

  lemma SwappedEnumerates(sequence: seq<string>, cache: Rules, labels: map<string, string>, i: nat, j: nat)
    requires Enumerates(sequence, cache, labels) && i < j < |sequence|
    ensures Enumerates(sequence[i := sequence[j]][j := sequence[i]], cache, labels)
  {
    hide S.Applies;
    var swapped := sequence[i := sequence[j]][j := sequence[i]];
    assert swapped[i] == sequence[j] && swapped[j] == sequence[i];
    forall k | 0 <= k < |sequence|
      ensures sequence[k] in swapped
    {
      assert sequence[k] == swapped[if k == i then j else if k == j then i else k];
    }
    assert Elems(swapped) == Elems(sequence);
  }

  /**
   * When exactly two applicable rules share a pair and disagree about the node, swapping them in the
   * order of the rule map changes whether the node ends a reconcile with the taint.
   */
  lemma SharedPairOrderMatters(w: World, f: Faults, n: string, sequence: seq<string>, i: nat, j: nat)
    requires WellFormed(w) && FaultFree(f) && n in w.nodes && Enumerates(sequence, w.cache, w.nodes[n].labels)
    requires i < j < |sequence| && (forall k :: 0 <= k < |sequence| ==> sequence[k] in w.cache)
    requires AlwaysActive(w.cache[sequence[i]], w.globalDryRun) && AlwaysActive(w.cache[sequence[j]], w.globalDryRun)
    requires SamePair(w.cache[sequence[i]].spec.taint, w.cache[sequence[j]].spec.taint)
    requires forall k :: 0 <= k < |sequence| && k != i && k != j ==>
               !SamePair(w.cache[sequence[i]].spec.taint, w.cache[sequence[k]].spec.taint)
    requires AllSatisfied(w.cache[sequence[i]].spec.conditions, w.nodes[n].conditions)
             != AllSatisfied(w.cache[sequence[j]].spec.conditions, w.nodes[n].conditions)
    ensures var swapped, p := sequence[i := sequence[j]][j := sequence[i]], w.cache[sequence[i]].spec.taint;
            && Enumerates(swapped, w.cache, w.nodes[n].labels)
            && HasTaint(ReconcileNode(w, f, n, sequence).nodes[n].taints, p)
               != HasTaint(ReconcileNode(w, f, n, swapped).nodes[n].taints, p)
  {
    hide ReconcileNode, AllSatisfied, HasTaint, Enumerates;
    var swapped := sequence[i := sequence[j]][j := sequence[i]];
    SwappedEnumerates(sequence, w.cache, w.nodes[n].labels, i, j);
    PassKeeps(w, f, n, sequence);
    LastRuleDecides(w, f, n, sequence, j);
    LastRuleDecides(w, f, n, swapped, j);
    SamePairSame(ReconcileNode(w, f, n, sequence).nodes[n].taints, w.cache[sequence[i]].spec.taint,
                 w.cache[sequence[j]].spec.taint);
  }
}
