/** Deciding what a rule wants of a node: conditions, taints, and the action that reconciles them. */
module Evaluation {
  import Seqs
  import opened Api
  import S = Selectors

  // ----- Specs

  /** What the webhook demands of a spec on its own. */
  predicate SpecOk(spec: Spec) {
    && spec.conditions != []
    && (forall c :: c in spec.conditions ==> c.ctype != "" && c.requiredStatus != "")
    && S.ValidSelector(spec.nodeSelector)
    && (spec.nodeSelector.matchLabels != map[] || spec.nodeSelector.matchExpressions != [])
    && spec.taint.key != "" && spec.taint.effect != ""
    && (spec.enforcementMode == BOOTSTRAP_ONLY || spec.enforcementMode == CONTINUOUS)
  }

  // ----- Conditions

  /** The status of the first condition of that type; an absent type reads as Unknown. */
  function ConditionStatus(conds: seq<Condition>, ctype: string): string {
    if conds == [] then UNKNOWN
    else if conds[0].ctype == ctype then conds[0].status
    else ConditionStatus(conds[1..], ctype)
  }

  method GetConditionStatus(conds: seq<Condition>, ctype: string) returns (status: string)
    ensures status == ConditionStatus(conds, ctype)
  {
    for i := 0 to |conds|
      invariant ConditionStatus(conds, ctype) == ConditionStatus(conds[i..], ctype)
    {
      assert conds[i..][1..] == conds[i + 1..];
      if conds[i].ctype == ctype {
        return conds[i].status;
      }
    }
    return UNKNOWN;
  }

  /** What first-match lookup means: the reported status, or Unknown when nothing is reported. */
  lemma {:induction false} ConditionStatusMeaning(conds: seq<Condition>, ctype: string)
    ensures (forall c :: c in conds ==> c.ctype != ctype) ==> ConditionStatus(conds, ctype) == UNKNOWN
    ensures (exists c :: c in conds && c.ctype == ctype)
            ==> exists i :: && 0 <= i < |conds| && conds[i].ctype == ctype
                            && conds[i].status == ConditionStatus(conds, ctype)
                            && forall j :: 0 <= j < i ==> conds[j].ctype != ctype
  {
    if conds != [] && conds[0].ctype != ctype {
      ConditionStatusMeaning(conds[1..], ctype);
      if exists c :: c in conds && c.ctype == ctype {
        var i :| && 0 <= i < |conds[1..]| && conds[1..][i].ctype == ctype
                 && conds[1..][i].status == ConditionStatus(conds[1..], ctype)
                 && forall j :: 0 <= j < i ==> conds[1..][j].ctype != ctype;
        assert conds[i + 1].ctype == ctype && conds[i + 1].status == ConditionStatus(conds, ctype);
        forall j | 0 <= j < i + 1
          ensures conds[j].ctype != ctype
        {
          assert j > 0 ==> conds[j] == conds[1..][j - 1];
        }
      }
    }
  }

  function ResultFor(req: ConditionRequirement, conds: seq<Condition>): ConditionResult {
    var current := ConditionStatus(conds, req.ctype);
    ConditionResult(req.ctype, current, req.requiredStatus, current == req.requiredStatus, current == UNKNOWN)
  }

  /** One result per requirement, in order. */
  function ResultsFor(reqs: seq<ConditionRequirement>, conds: seq<Condition>): seq<ConditionResult> {
    seq(|reqs|, i requires 0 <= i < |reqs| => ResultFor(reqs[i], conds))
  }

  /** All required conditions have the required status; there is no short cut. */
  predicate AllSatisfied(reqs: seq<ConditionRequirement>, conds: seq<Condition>) {
    forall i :: 0 <= i < |reqs| ==> ConditionStatus(conds, reqs[i].ctype) == reqs[i].requiredStatus
  }

  predicate SomeMissing(reqs: seq<ConditionRequirement>, conds: seq<Condition>) {
    exists i :: 0 <= i < |reqs| && ConditionStatus(conds, reqs[i].ctype) == UNKNOWN
  }

  method EvaluateConditions(reqs: seq<ConditionRequirement>, conds: seq<Condition>)
    returns (satisfied: bool, results: seq<ConditionResult>)
    ensures satisfied == AllSatisfied(reqs, conds)
    ensures results == ResultsFor(reqs, conds)
  {
    satisfied, results := true, [];
    for i := 0 to |reqs|
      invariant satisfied == AllSatisfied(reqs[..i], conds)
      invariant |results| == i
      invariant forall j :: 0 <= j < i ==> results[j] == ResultFor(reqs[j], conds)
    {
      var current := GetConditionStatus(conds, reqs[i].ctype);
      satisfied := satisfied && current == reqs[i].requiredStatus;
      var met, missing := current == reqs[i].requiredStatus, current == UNKNOWN;
      results := results + [ConditionResult(reqs[i].ctype, current, reqs[i].requiredStatus, met, missing)];
      assert reqs[..i + 1] == reqs[..i] + [reqs[i]];
      assert AllSatisfied(reqs[..i + 1], conds) ==> reqs[..i + 1][i] == reqs[i];
    }
    assert reqs[..|reqs|] == reqs;
  }

  // ----- Taints

  function NotPair(p: Taint): Taint -> bool {
    t => !SamePair(t, p)
  }

  predicate HasTaint(taints: seq<Taint>, p: Taint) {
    exists t :: t in taints && SamePair(t, p)
  }

  method HasTaintBySpec(taints: seq<Taint>, p: Taint) returns (has: bool)
    ensures has == HasTaint(taints, p)
  {
    for i := 0 to |taints|
      invariant !HasTaint(taints[..i], p)
    {
      if taints[i].key == p.key && taints[i].effect == p.effect {
        assert taints[i] in taints;
        return true;
      }
    }
    assert taints[..|taints|] == taints;
    return false;
  }

  /** All taints of other pairs, in order: both the result of a removal and "everything else" on a node. */
  function Others(taints: seq<Taint>, p: Taint): seq<Taint> {
    Seqs.Filter(taints, NotPair(p))
  }

  function IsPair(p: Taint): Taint -> bool {
    t => SamePair(t, p)
  }

  /** All taints of the pair, values included. */
  function OfPair(taints: seq<Taint>, p: Taint): seq<Taint> {
    Seqs.Filter(taints, IsPair(p))
  }

  /** Taints of other pairs keep their place, those of the pair go. */
  lemma OthersMeaning(a: seq<Taint>, b: seq<Taint>, t: Taint, p: Taint)
    ensures Others([], p) == [] && Others([t], p) == if t.key == p.key && t.effect == p.effect then [] else [t]
    ensures Others(a + b, p) == Others(a, p) + Others(b, p)
  {
    assert [t][..0] == [];
    Seqs.FilterAppend(a, b, NotPair(p));
  }

  method WithoutTaint(taints: seq<Taint>, p: Taint) returns (rest: seq<Taint>)
    ensures rest == Others(taints, p)
  {
    rest := [];
    for i := 0 to |taints|
      invariant rest == Others(taints[..i], p)
    {
      Seqs.FilterStep(taints, NotPair(p), i);
      if taints[i].key != p.key || taints[i].effect != p.effect {
        rest := rest + [taints[i]];
      }
    }
    assert taints[..|taints|] == taints;
  }

  // ----- Actions

  datatype Action = Remove | Add | Keep

  /** What a rule does about its taint, given the conditions and the taints of the node copy at hand. */
  function Decide(spec: Spec, node: Node): Action {
    var satisfied, has := AllSatisfied(spec.conditions, node.conditions), HasTaint(node.taints, spec.taint);
    if satisfied && has then Remove else if !satisfied && !has then Add else Keep
  }

  /** The taint list after the decided action. */
  function Enforced(spec: Spec, node: Node): seq<Taint> {
    match Decide(spec, node)
    case Remove => Others(node.taints, spec.taint)
    case Add => node.taints + [spec.taint]
    case Keep => node.taints
  }

  lemma PairAbsent(taints: seq<Taint>, p: Taint)
    ensures OfPair(taints, p) == [] <==> !HasTaint(taints, p)
  {
    if HasTaint(taints, p) {
      var t :| t in taints && SamePair(t, p);
      assert t in OfPair(taints, p);
    } else {
      Seqs.FilterNone(taints, IsPair(p));
    }
  }

  /**
   * Enforcing leaves the taint exactly on unready nodes, as the rule gives it where it is new, and touches
   * nothing else.
   */
  lemma EnforcedMeaning(spec: Spec, node: Node)
    ensures HasTaint(Enforced(spec, node), spec.taint) <==> !AllSatisfied(spec.conditions, node.conditions)
    ensures Others(Enforced(spec, node), spec.taint) == Others(node.taints, spec.taint)
    ensures Decide(spec, node.(taints := Enforced(spec, node))) == Keep
    ensures OfPair(Enforced(spec, node), spec.taint)
            == if AllSatisfied(spec.conditions, node.conditions) then []
               else if HasTaint(node.taints, spec.taint) then OfPair(node.taints, spec.taint) else [spec.taint]
  {
    var p := spec.taint;
    PairAbsent(node.taints, p);
    PairAbsent(Enforced(spec, node), p);
    match Decide(spec, node)
    case Remove =>
      Seqs.FilterAll(Others(node.taints, p), NotPair(p));
    case Add =>
      assert p in Enforced(spec, node);
      Seqs.FilterAppend(node.taints, [p], NotPair(p));
      Seqs.FilterAppend(node.taints, [p], IsPair(p));
      assert [p][..0] == [];
    case Keep =>
  }

  /** A pair other than the rule's own keeps its taints. */
  lemma EnforcedFrame(spec: Spec, node: Node, q: Taint)
    requires !SamePair(q, spec.taint)
    ensures OfPair(Enforced(spec, node), q) == OfPair(node.taints, q)
    ensures HasTaint(Enforced(spec, node), q) == HasTaint(node.taints, q)
  {
    match Decide(spec, node)
    case Remove => OthersKeepPair(node.taints, spec.taint, q);
    case Add =>
      Seqs.FilterAppend(node.taints, [spec.taint], IsPair(q));
      Seqs.FilterNone([spec.taint], IsPair(q));
    case Keep =>
  }

  lemma {:induction false} OthersKeepPair(taints: seq<Taint>, p: Taint, q: Taint)
    requires !SamePair(q, p)
    ensures OfPair(Others(taints, p), q) == OfPair(taints, q)
  {
    if taints != [] {
      var k := |taints| - 1;
      OthersKeepPair(taints[..k], p, q);
      assert taints == taints[..k] + [taints[k]];
      Seqs.FilterAppend(Others(taints[..k], p), [taints[k]], IsPair(q));
      assert [taints[k]][..0] == [];
    }
  }

  /** A missing condition satisfies a requirement exactly when the requirement is Unknown. */
  lemma MissingCondition(req: ConditionRequirement, conds: seq<Condition>)
    requires forall c :: c in conds ==> c.ctype != req.ctype
    ensures ResultFor(req, conds).missing
    ensures ResultFor(req, conds).satisfied <==> req.requiredStatus == UNKNOWN
  {
    ConditionStatusMeaning(conds, req.ctype);
  }

  /** The position of the condition that a lookup by type finds. */
  predicate FirstReported(conds: seq<Condition>, ctype: string, i: nat) {
    i < |conds| && conds[i].ctype == ctype && forall j :: 0 <= j < i ==> conds[j].ctype != ctype
  }

  /** A condition is recorded as missing just when it is not reported, unless it is reported as Unknown. */
  lemma MissingExact(req: ConditionRequirement, conds: seq<Condition>)
    ensures (ResultFor(req, conds).missing <==> forall c :: c in conds ==> c.ctype != req.ctype)
            <==> forall i: nat :: FirstReported(conds, req.ctype, i) ==> conds[i].status != UNKNOWN
  {
    ConditionStatusMeaning(conds, req.ctype);
    if c :| c in conds && c.ctype == req.ctype {
      var i: nat :| && i < |conds| && conds[i].ctype == req.ctype
                    && conds[i].status == ConditionStatus(conds, req.ctype)
                    && forall j :: 0 <= j < i ==> conds[j].ctype != req.ctype;
      assert FirstReported(conds, req.ctype, i);
      assert forall k: nat :: FirstReported(conds, req.ctype, k) ==> k == i;
    }
  }

  lemma ReportedUnknownMissing()
    ensures var reported := [Condition("Ready", UNKNOWN)];
            ResultFor(ConditionRequirement("Ready", "True"), reported).missing
            && exists c :: c in reported && c.ctype == "Ready"
  {
    var c := Condition("Ready", UNKNOWN);
    assert c in [c] && [c][0].ctype == "Ready";
  }

  // ----- What readiness and results mean

  /** The status a lookup by type finds: the first reported one, Unknown if there is none. */
  predicate Reads(conds: seq<Condition>, ctype: string, status: string) {
    if forall c :: c in conds ==> c.ctype != ctype then status == UNKNOWN
    else exists i :: 0 <= i < |conds| && FirstReported(conds, ctype, i) && conds[i].status == status
  }

  lemma ReadsExact(conds: seq<Condition>, ctype: string, status: string)
    ensures Reads(conds, ctype, status) <==> ConditionStatus(conds, ctype) == status
  {
    ConditionStatusMeaning(conds, ctype);
    if c :| c in conds && c.ctype == ctype {
      var i: nat :| && i < |conds| && conds[i].ctype == ctype
                    && conds[i].status == ConditionStatus(conds, ctype)
                    && forall j :: 0 <= j < i ==> conds[j].ctype != ctype;
      assert FirstReported(conds, ctype, i);
      assert forall k: nat :: FirstReported(conds, ctype, k) ==> k == i;
    }
  }

  /** A node is ready when every required type reads as its required status. */
  lemma ReadyMeaning(reqs: seq<ConditionRequirement>, conds: seq<Condition>)
    ensures AllSatisfied(reqs, conds) <==> forall req :: req in reqs ==> Reads(conds, req.ctype, req.requiredStatus)
  {
    forall req | req in reqs
      ensures Reads(conds, req.ctype, req.requiredStatus) <==> ConditionStatus(conds, req.ctype) == req.requiredStatus
    {
      ReadsExact(conds, req.ctype, req.requiredStatus);
    }
  }

  /**
   * One result per requirement in order, with what was required and what was read; all are satisfied on a
   * ready node.
   */
  lemma ResultsMeaning(reqs: seq<ConditionRequirement>, conds: seq<Condition>)
    ensures var results := ResultsFor(reqs, conds);
            && |results| == |reqs|
            && (forall i :: 0 <= i < |reqs| ==>
                  && results[i].ctype == reqs[i].ctype && results[i].requiredStatus == reqs[i].requiredStatus
                  && Reads(conds, reqs[i].ctype, results[i].currentStatus)
                  && (results[i].satisfied <==> results[i].currentStatus == results[i].requiredStatus)
                  && (results[i].missing <==> results[i].currentStatus == UNKNOWN))
            && (AllSatisfied(reqs, conds) <==> forall i :: 0 <= i < |reqs| ==> results[i].satisfied)
  {
    forall i | 0 <= i < |reqs|
      ensures Reads(conds, reqs[i].ctype, ResultsFor(reqs, conds)[i].currentStatus)
    {
      ReadsExact(conds, reqs[i].ctype, ResultsFor(reqs, conds)[i].currentStatus);
    }
  }
}
