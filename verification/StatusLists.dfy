/** The lists kept in a rule: node evaluations, node failures, finalizers, and the dry-run counters. */
module StatusLists {
  import opened Seqs
  import opened Api
  import opened Evaluation
  import S = Selectors

  // ----- Evaluations, one per node

  predicate UniqueEvaluations(evals: seq<NodeEvaluation>) {
    forall i, j :: 0 <= i < j < |evals| ==> evals[i].nodeName != evals[j].nodeName
  }

  predicate UniqueFailures(failures: seq<NodeFailure>) {
    forall i, j :: 0 <= i < j < |failures| ==> failures[i].nodeName != failures[j].nodeName
  }

  /** Position of the first entry for a node, or the length if there is none. */
  function IndexOf(evals: seq<NodeEvaluation>, node: string): (i: nat)
    ensures i <= |evals|
    ensures i < |evals| ==> evals[i].nodeName == node
    ensures forall j :: 0 <= j < i ==> evals[j].nodeName != node
  {
    if evals == [] then 0 else if evals[0].nodeName == node then 0 else 1 + IndexOf(evals[1..], node)
  }

  predicate HasEntry(evals: seq<NodeEvaluation>, node: string) {
    exists e :: e in evals && e.nodeName == node
  }

  lemma HasEntryIndex(evals: seq<NodeEvaluation>, node: string)
    ensures HasEntry(evals, node) <==> IndexOf(evals, node) < |evals|
  {
  }

  method FindEvaluation(evals: seq<NodeEvaluation>, node: string) returns (i: nat)
    ensures i == IndexOf(evals, node)
  {
    i := 0;
    while i < |evals|
      invariant i <= |evals|
      invariant forall j :: 0 <= j < i ==> evals[j].nodeName != node
    {
      if evals[i].nodeName == node {
        return;
      }
      i := i + 1;
    }
  }

  /** Replace the entry of that node, or append a new one. */
  function Upsert(evals: seq<NodeEvaluation>, e: NodeEvaluation): seq<NodeEvaluation> {
    var i := IndexOf(evals, e.nodeName);
    if i < |evals| then evals[i := e] else evals + [e]
  }

  function OfOtherNodes(node: string): NodeEvaluation -> bool {
    (e: NodeEvaluation) => e.nodeName != node
  }

  /** Replacing one entry by another of the same node, or by a blank one, leaves the rest in place. */
  lemma ReplaceFrame(evals: seq<NodeEvaluation>, i: nat, e: NodeEvaluation)
    requires i < |evals|
    ensures Filter(evals[i := e], OfOtherNodes(evals[i].nodeName))
            == Filter(evals[..i], OfOtherNodes(evals[i].nodeName))
               + (if e.nodeName != evals[i].nodeName then [e] else [])
               + Filter(evals[i + 1..], OfOtherNodes(evals[i].nodeName))
  {
    var keep := OfOtherNodes(evals[i].nodeName);
    assert evals[i := e] == (evals[..i] + [e]) + evals[i + 1..];
    FilterAppend(evals[..i] + [e], evals[i + 1..], keep);
    FilterAppend(evals[..i], [e], keep);
    assert [e][..0] == [];
  }

  /** The entry is the node's only one, and nothing is said anew about any other node. */
  lemma UpsertMeaning(evals: seq<NodeEvaluation>, e: NodeEvaluation)
    ensures e in Upsert(evals, e)
    ensures UniqueEvaluations(evals) ==> UniqueEvaluations(Upsert(evals, e))
    ensures Filter(Upsert(evals, e), OfOtherNodes(e.nodeName)) == Filter(evals, OfOtherNodes(e.nodeName))
    ensures forall x: NodeEvaluation :: x.nodeName != e.nodeName ==> (x in Upsert(evals, e) <==> x in evals)
  {
    var i, keep := IndexOf(evals, e.nodeName), OfOtherNodes(e.nodeName);
    if i < |evals| {
      assert Upsert(evals, e)[i] == e;
      ReplaceFrame(evals, i, e);
      ReplaceFrame(evals, i, evals[i]);
      assert evals[i := evals[i]] == evals;
    } else {
      assert Upsert(evals, e)[|evals|] == e;
      FilterAppend(evals, [e], keep);
      assert [e][..0] == [];
    }
    assert Filter(Upsert(evals, e), keep) == Filter(evals, keep);
    forall x | keep(x)
      ensures x in Upsert(evals, e) <==> x in evals
    {
      assert x in Filter(evals, keep) <==> x in evals;
      assert x in Filter(Upsert(evals, e), keep) <==> x in Upsert(evals, e);
    }
    assert forall x: NodeEvaluation :: keep(x) <==> x.nodeName != e.nodeName;
  }

  // ----- Failures

  function FailureElsewhere(node: string): NodeFailure -> bool {
    (e: NodeFailure) => e.nodeName != node
  }

  function FailureOf(node: string): NodeFailure -> bool {
    (e: NodeFailure) => e.nodeName == node
  }

  function WithFailure(failures: seq<NodeFailure>, e: NodeFailure): seq<NodeFailure> {
    Filter(failures, FailureElsewhere(e.nodeName)) + [e]
  }

  method FilterFailures(failures: seq<NodeFailure>, node: string, same: bool) returns (kept: seq<NodeFailure>)
    ensures kept == Filter(failures, if same then FailureOf(node) else FailureElsewhere(node))
  {
    kept := [];
    for i := 0 to |failures|
      invariant kept == Filter(failures[..i], if same then FailureOf(node) else FailureElsewhere(node))
    {
      FilterStep(failures, if same then FailureOf(node) else FailureElsewhere(node), i);
      if (failures[i].nodeName == node) == same {
        kept := kept + [failures[i]];
      }
    }
    assert failures[..|failures|] == failures;
  }

  lemma {:induction false} FilterKeepsUnique(failures: seq<NodeFailure>, keep: NodeFailure -> bool)
    requires UniqueFailures(failures)
    ensures UniqueFailures(Filter(failures, keep))
  {
    if failures != [] {
      var n := |failures| - 1;
      FilterKeepsUnique(failures[..n], keep);
      forall x | x in Filter(failures[..n], keep)
        ensures x.nodeName != failures[n].nodeName
      {
        assert x in failures[..n];
      }
    }
  }

  lemma UniqueAppend(a: seq<NodeFailure>, b: seq<NodeFailure>)
    requires UniqueFailures(a) && UniqueFailures(b)
    requires forall x, y :: x in a && y in b ==> x.nodeName != y.nodeName
    ensures UniqueFailures(a + b)
  {
  }

  /** After recording, the node has exactly the new failure and all others keep theirs. */
  lemma WithFailureMeaning(failures: seq<NodeFailure>, e: NodeFailure)
    ensures forall x :: x in WithFailure(failures, e) && x.nodeName == e.nodeName ==> x == e
    ensures e in WithFailure(failures, e)
    ensures Filter(WithFailure(failures, e), FailureElsewhere(e.nodeName))
            == Filter(failures, FailureElsewhere(e.nodeName))
    ensures UniqueFailures(failures) ==> UniqueFailures(WithFailure(failures, e))
  {
    var keep := FailureElsewhere(e.nodeName);
    var rest := Filter(failures, keep);
    assert forall x :: x in rest ==> keep(x);
    FilterAppend(rest, [e], keep);
    FilterAll(rest, keep);
    assert [e][..0] == [];
    assert e in WithFailure(failures, e) by {
      assert (rest + [e])[|rest|] == e;
    }
    if UniqueFailures(failures) {
      FilterKeepsUnique(failures, keep);
      assert forall x :: x in rest ==> keep(x);
      UniqueAppend(rest, [e]);
    }
  }

  /** Node by node: the new failure is the only one of its node, and no other node's failures change. */
  lemma WithFailureOf(failures: seq<NodeFailure>, e: NodeFailure, node: string)
    ensures Filter(WithFailure(failures, e), FailureOf(node))
            == if node == e.nodeName then [e] else Filter(failures, FailureOf(node))
  {
    var elsewhere, own := FailureElsewhere(e.nodeName), FailureOf(node);
    FilterAppend(Filter(failures, elsewhere), [e], own);
    assert [e][..0] == [];
    if node == e.nodeName {
      assert forall x :: x in Filter(failures, elsewhere) ==> elsewhere(x) && !own(x);
      FilterNone(Filter(failures, elsewhere), own);
    } else {
      FilterTwice(failures, elsewhere, own);
    }
  }

  /** A filter that lets through all the second one keeps makes no difference to it. */
  lemma {:induction false} FilterTwice(failures: seq<NodeFailure>, keep: NodeFailure -> bool, own: NodeFailure -> bool)
    requires forall x :: own(x) ==> keep(x)
    ensures Filter(Filter(failures, keep), own) == Filter(failures, own)
  {
    if failures != [] {
      var k := |failures| - 1;
      FilterTwice(failures[..k], keep, own);
      FilterAppend(Filter(failures[..k], keep), [failures[k]], own);
      assert failures == failures[..k] + [failures[k]] && [failures[k]][..0] == [];
    }
  }

  // ----- Merging one node into the stored status

  const BLANK := NodeEvaluation("", [], "")

  function EntryOrBlank(evals: seq<NodeEvaluation>, node: string): NodeEvaluation {
    var i := IndexOf(evals, node);
    if i < |evals| then evals[i] else BLANK
  }

  /** The status to write back for one node, or None when nothing is to be written. */
  function Merged(cached: Status, latest: Status, node: string): Option<Status> {
    var i := IndexOf(latest.nodeEvaluations, node);
    if i == |latest.nodeEvaluations| then None
    else Some(latest.(
              nodeEvaluations := latest.nodeEvaluations[i := EntryOrBlank(cached.nodeEvaluations, node)],
              failedNodes := Filter(latest.failedNodes, FailureElsewhere(node))
                + Filter(cached.failedNodes, FailureOf(node))))
  }

  method MergeNode(cached: Status, latest: Status, node: string) returns (r: Option<Status>)
    ensures r == Merged(cached, latest, node)
  {
    var c := FindEvaluation(cached.nodeEvaluations, node);
    var entry := BLANK;
    if c < |cached.nodeEvaluations| {
      entry := cached.nodeEvaluations[c];
    }
    var i := FindEvaluation(latest.nodeEvaluations, node);
    if i == |latest.nodeEvaluations| {
      return None;
    }
    var others := FilterFailures(latest.failedNodes, node, false);
    var own := FilterFailures(cached.failedNodes, node, true);
    return Some(latest.(nodeEvaluations := latest.nodeEvaluations[i := entry], failedNodes := others + own));
  }

  lemma MergedFailures(cached: seq<NodeFailure>, latest: seq<NodeFailure>, node: string)
    requires UniqueFailures(latest) && UniqueFailures(cached)
    ensures
      var r := Filter(latest, FailureElsewhere(node)) + Filter(cached, FailureOf(node));
      && Filter(r, FailureElsewhere(node)) == Filter(latest, FailureElsewhere(node))
      && Filter(r, FailureOf(node)) == Filter(cached, FailureOf(node))
      && UniqueFailures(r)
  {
    var elsewhere, own := FailureElsewhere(node), FailureOf(node);
    var a, b := Filter(latest, elsewhere), Filter(cached, own);
    assert forall x :: x in a ==> elsewhere(x) && !own(x);
    assert forall x :: x in b ==> own(x) && !elsewhere(x);
    FilterAppend(a, b, elsewhere);
    FilterAppend(a, b, own);
    FilterAll(a, elsewhere);
    FilterAll(b, own);
    FilterNone(b, elsewhere);
    FilterNone(a, own);
    FilterKeepsUnique(latest, elsewhere);
    FilterKeepsUnique(cached, own);
    UniqueAppend(a, b);
  }

  /** Only a stored entry makes the merge write, and the write concerns that node alone. */
  lemma MergedMeaning(cached: Status, latest: Status, node: string)
    requires UniqueEvaluations(latest.nodeEvaluations)
    requires UniqueFailures(latest.failedNodes) && UniqueFailures(cached.failedNodes)
    ensures Merged(cached, latest, node).Some? <==> HasEntry(latest.nodeEvaluations, node)
    ensures Merged(cached, latest, node).Some? ==>
              var s := Merged(cached, latest, node).value;
              && s == latest.(nodeEvaluations := s.nodeEvaluations, failedNodes := s.failedNodes)
              && |s.nodeEvaluations| == |latest.nodeEvaluations|
              && (forall i :: 0 <= i < |s.nodeEvaluations| && latest.nodeEvaluations[i].nodeName != node
                              ==> s.nodeEvaluations[i] == latest.nodeEvaluations[i])
              && Filter(s.failedNodes, FailureElsewhere(node)) == Filter(latest.failedNodes, FailureElsewhere(node))
              && Filter(s.failedNodes, FailureOf(node)) == Filter(cached.failedNodes, FailureOf(node))
              && UniqueFailures(s.failedNodes)
  {
    HasEntryIndex(latest.nodeEvaluations, node);
    MergedFailures(cached.failedNodes, latest.failedNodes, node);
  }

  // ----- What the resource schema accepts

  /** A named node and one of the two taint statuses; a blank entry has neither. */
  predicate EvaluationOk(e: NodeEvaluation) {
    e.nodeName != "" && (e.taintStatus == PRESENT || e.taintStatus == ABSENT)
  }

  /** Required fields are there, and entries are unique by node; a status write that fails this is refused. */
  predicate SchemaAccepts(status: Status) {
    && UniqueEvaluations(status.nodeEvaluations) && UniqueFailures(status.failedNodes)
    && (forall e :: e in status.nodeEvaluations ==> EvaluationOk(e))
    && forall e :: e in status.failedNodes ==> e.nodeName != ""
  }

  lemma UpsertAccepted(status: Status, e: NodeEvaluation)
    requires SchemaAccepts(status) && EvaluationOk(e)
    ensures SchemaAccepts(status.(nodeEvaluations := Upsert(status.nodeEvaluations, e)))
  {
    UpsertMeaning(status.nodeEvaluations, e);
    assert forall x :: x in Upsert(status.nodeEvaluations, e) ==> x in status.nodeEvaluations || x == e;
  }

  lemma WithFailureAccepted(status: Status, e: NodeFailure)
    requires SchemaAccepts(status) && e.nodeName != ""
    ensures SchemaAccepts(status.(failedNodes := WithFailure(status.failedNodes, e)))
  {
    WithFailureMeaning(status.failedNodes, e);
    assert forall x :: x in WithFailure(status.failedNodes, e) ==> x in status.failedNodes || x == e;
  }

  /**
   * The merge into an accepted status is accepted exactly when the cached rule has an entry for the
   * node, and then the node ends with the cached entry and the cached failures. Without a cached entry
   * the merge would store a blank one.
   */
  lemma MergeAcceptedExact(cached: Status, latest: Status, node: string)
    requires SchemaAccepts(cached) && SchemaAccepts(latest) && HasEntry(latest.nodeEvaluations, node)
    ensures Merged(cached, latest, node).Some?
    ensures var s := Merged(cached, latest, node).value;
            && (SchemaAccepts(s) <==> HasEntry(cached.nodeEvaluations, node))
            && (SchemaAccepts(s)
                ==> EntryOrBlank(s.nodeEvaluations, node) == EntryOrBlank(cached.nodeEvaluations, node))
            && Filter(s.failedNodes, FailureOf(node)) == Filter(cached.failedNodes, FailureOf(node))
  {
    hide Filter, HasEntry, UniqueEvaluations, UniqueFailures, EvaluationOk;
    HasEntryIndex(latest.nodeEvaluations, node);
    HasEntryIndex(cached.nodeEvaluations, node);
    MergedFailures(cached.failedNodes, latest.failedNodes, node);
    ReplaceAccepted(latest.nodeEvaluations, node, EntryOrBlank(cached.nodeEvaluations, node));
    BlankRefused();
  }

  lemma BlankRefused()
    ensures !EvaluationOk(BLANK)
  {
  }

  lemma NoEntryRefused(cached: Status, latest: Status, node: string)
    ensures var r := Merged(cached, latest, node);
            r.Some? && SchemaAccepts(r.value) ==> HasEntry(cached.nodeEvaluations, node)
  {
    hide Filter;
    HasEntryIndex(cached.nodeEvaluations, node);
    var i := IndexOf(latest.nodeEvaluations, node);
    if i < |latest.nodeEvaluations| && !HasEntry(cached.nodeEvaluations, node) {
      var evals := Merged(cached, latest, node).value.nodeEvaluations;
      assert evals[i] == BLANK;
      assert BLANK in evals && !EvaluationOk(BLANK);
    }
  }

  lemma ReplaceAccepted(evals: seq<NodeEvaluation>, node: string, e: NodeEvaluation)
    requires UniqueEvaluations(evals) && (forall x :: x in evals ==> EvaluationOk(x)) && IndexOf(evals, node) < |evals|
    ensures var after := evals[IndexOf(evals, node) := e];
            && ((forall x :: x in after ==> EvaluationOk(x)) <==> EvaluationOk(e))
            && (e.nodeName == node ==> UniqueEvaluations(after) && EntryOrBlank(after, node) == e)
  {
    hide EvaluationOk;
    var i := IndexOf(evals, node);
    var after := evals[i := e];
    assert after[i] == e;
    if e.nodeName == node {
      assert forall j :: 0 <= j < |after| && j != i ==> after[j].nodeName != node;
      assert IndexOf(after, node) == i;
    }
  }

  // ----- Pruning entries of deleted nodes

  function Exists(existing: set<string>): NodeEvaluation -> bool {
    (e: NodeEvaluation) => e.nodeName in existing
  }

  function Pruned(existing: set<string>, status: Status): Option<Status> {
    var kept := Filter(status.nodeEvaluations, Exists(existing));
    if |kept| == |status.nodeEvaluations| then None else Some(status.(nodeEvaluations := kept))
  }

  method Prune(existing: set<string>, status: Status) returns (r: Option<Status>)
    ensures r == Pruned(existing, status)
  {
    var kept: seq<NodeEvaluation> := [];
    for i := 0 to |status.nodeEvaluations|
      invariant kept == Filter(status.nodeEvaluations[..i], Exists(existing))
    {
      FilterStep(status.nodeEvaluations, Exists(existing), i);
      if status.nodeEvaluations[i].nodeName in existing {
        kept := kept + [status.nodeEvaluations[i]];
      }
    }
    assert status.nodeEvaluations[..|status.nodeEvaluations|] == status.nodeEvaluations;
    if |kept| == |status.nodeEvaluations| {
      return None;
    }
    return Some(status.(nodeEvaluations := kept));
  }

  /** Nothing to write means every entry names an existing node. */
  lemma PrunedMeaning(existing: set<string>, status: Status)
    ensures Pruned(existing, status).None?
            <==> forall e :: e in status.nodeEvaluations ==> e.nodeName in existing
    ensures Pruned(existing, status).Some? ==>
              forall e :: e in Pruned(existing, status).value.nodeEvaluations
                          <==> e in status.nodeEvaluations && e.nodeName in existing
  {
    FilterSameLength(status.nodeEvaluations, Exists(existing));
    assert forall e :: Exists(existing)(e) <==> e.nodeName in existing;
  }

  lemma {:induction false} FilterKeepsUniqueEvaluations(evals: seq<NodeEvaluation>, keep: NodeEvaluation -> bool)
    requires UniqueEvaluations(evals)
    ensures UniqueEvaluations(Filter(evals, keep))
  {
    if evals != [] {
      var n := |evals| - 1;
      FilterKeepsUniqueEvaluations(evals[..n], keep);
      forall x | x in Filter(evals[..n], keep)
        ensures x.nodeName != evals[n].nodeName
      {
        assert x in evals[..n];
      }
    }
  }

  lemma PrunedAccepted(existing: set<string>, status: Status)
    requires SchemaAccepts(status)
    ensures Pruned(existing, status).Some? ==> SchemaAccepts(Pruned(existing, status).value)
  {
    FilterKeepsUniqueEvaluations(status.nodeEvaluations, Exists(existing));
  }

  // ----- Finalizers

  function OtherFinalizers(): string -> bool {
    x => x != FINALIZER
  }

  function WithoutFinalizer(finalizers: seq<string>): seq<string> {
    Filter(finalizers, OtherFinalizers())
  }

  /** Every other finalizer keeps its place and its number of occurrences. */
  lemma WithoutFinalizerMeaning(a: seq<string>, b: seq<string>, x: string)
    ensures WithoutFinalizer([]) == [] && WithoutFinalizer([x]) == if x == FINALIZER then [] else [x]
    ensures WithoutFinalizer(a + b) == WithoutFinalizer(a) + WithoutFinalizer(b)
    ensures multiset(WithoutFinalizer(a))[x] == if x == FINALIZER then 0 else multiset(a)[x]
  {
    assert [x][..0] == [];
    FilterAppend(a, b, OtherFinalizers());
    FilterMultiplicity(a, OtherFinalizers(), x);
  }

  method RemoveFinalizer(finalizers: seq<string>) returns (rest: seq<string>)
    ensures rest == WithoutFinalizer(finalizers)
  {
    rest := [];
    for i := 0 to |finalizers|
      invariant rest == WithoutFinalizer(finalizers[..i])
    {
      FilterStep(finalizers, OtherFinalizers(), i);
      if finalizers[i] != FINALIZER {
        rest := rest + [finalizers[i]];
      }
    }
    assert finalizers[..|finalizers|] == finalizers;
  }

  method ContainsFinalizer(finalizers: seq<string>) returns (found: bool)
    ensures found <==> FINALIZER in finalizers
  {
    for i := 0 to |finalizers|
      invariant FINALIZER !in finalizers[..i]
    {
      if finalizers[i] == FINALIZER {
        return true;
      }
    }
    assert finalizers[..|finalizers|] == finalizers;
    return false;
  }

  // ----- Dry-run counters

  const TWO_31 := 0x8000_0000
  const TWO_32 := 0x1_0000_0000

  /** The value an int32 counter holds after x increments from zero. */
  function Int32(x: int): int {
    var m := x % TWO_32;
    if m < TWO_31 then m else m - TWO_32
  }

  /** Two's complement: within range, and the same number modulo 2^32. */
  lemma Int32Meaning(x: int)
    ensures -TWO_31 <= Int32(x) < TWO_31 && (x - Int32(x)) % TWO_32 == 0
  {
  }

  lemma Int32Step(x: nat)
    ensures Int32(Int32(x) + 1) == Int32(x + 1)
  {
    assert (Int32(x) + 1) % TWO_32 == (x + 1) % TWO_32;
  }

  function Count<T(!new)>(s: seq<T>, p: T -> bool): nat {
    |Filter(s, p)|
  }

  function Affected(spec: Spec): Node -> bool {
    (n: Node) => S.Applies(spec.nodeSelector, n.labels)
  }

  function WouldAdd(spec: Spec): Node -> bool {
    (n: Node) => S.Applies(spec.nodeSelector, n.labels) && Decide(spec, n) == Add
  }

  function WouldRemove(spec: Spec): Node -> bool {
    (n: Node) => S.Applies(spec.nodeSelector, n.labels) && Decide(spec, n) == Remove
  }

  function Risky(spec: Spec): Node -> bool {
    (n: Node) => S.Applies(spec.nodeSelector, n.labels) && SomeMissing(spec.conditions, n.conditions)
  }

  function DryRunOf(spec: Spec, items: seq<Node>): DryRunResults {
    Results(Int32(Count(items, Affected(spec))), Int32(Count(items, WouldAdd(spec))),
            Int32(Count(items, WouldRemove(spec))), Int32(Count(items, Risky(spec))))
  }

  method SimulateConditions(reqs: seq<ConditionRequirement>, conds: seq<Condition>)
    returns (satisfied: bool, missing: nat)
    ensures satisfied == AllSatisfied(reqs, conds)
    ensures missing > 0 <==> SomeMissing(reqs, conds)
  {
    satisfied, missing := true, 0;
    for i := 0 to |reqs|
      invariant satisfied == forall j :: 0 <= j < i ==> ConditionStatus(conds, reqs[j].ctype) == reqs[j].requiredStatus
      invariant missing > 0 <==> exists j :: 0 <= j < i && ConditionStatus(conds, reqs[j].ctype) == UNKNOWN
    {
      var current := GetConditionStatus(conds, reqs[i].ctype);
      if current == UNKNOWN {
        missing := missing + 1;
      }
      if current != reqs[i].requiredStatus {
        satisfied := false;
      }
    }
  }

  /** One counter of the dry run: it advances, with int32 wrap, when the node counts. */
  method Tick(c: int, items: seq<Node>, p: Node -> bool, i: nat, counts: bool) returns (next: int)
    requires i < |items| && c == Int32(Count(items[..i], p)) && counts == p(items[i])
    ensures next == Int32(Count(items[..i + 1], p))
  {
    FilterStep(items, p, i);
    Int32Step(Count(items[..i], p));
    next := if counts then Int32(c + 1) else c;
  }

  method ProcessDryRun(spec: Spec, items: seq<Node>) returns (r: DryRunResults)
    ensures r == DryRunOf(spec, items)
  {
    var affected, adds, removes, risky := 0, 0, 0, 0;
    for i := 0 to |items|
      invariant affected == Int32(Count(items[..i], Affected(spec)))
      invariant adds == Int32(Count(items[..i], WouldAdd(spec)))
      invariant removes == Int32(Count(items[..i], WouldRemove(spec)))
      invariant risky == Int32(Count(items[..i], Risky(spec)))
    {
      var node := items[i];
      var applies := S.Applies(spec.nodeSelector, node.labels);
      var satisfied, missing := SimulateConditions(spec.conditions, node.conditions);
      var has := HasTaintBySpec(node.taints, spec.taint);
      affected := Tick(affected, items, Affected(spec), i, applies);
      adds := Tick(adds, items, WouldAdd(spec), i, applies && !satisfied && !has);
      removes := Tick(removes, items, WouldRemove(spec), i, applies && satisfied && has);
      risky := Tick(risky, items, Risky(spec), i, applies && missing > 0);
    }
    assert items[..|items|] == items;
    return Results(affected, adds, removes, risky);
  }
}
