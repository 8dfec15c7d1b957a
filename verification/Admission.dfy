/** The validating webhook, and what admission guarantees the reconcilers over runs. */
module Admission {
  import Seqs
  import opened Api
  import opened Evaluation
  import opened Cluster
  import opened NodePass
  import RulePass
  import opened Runs
  import S = Selectors

  datatype FieldError =
    | ConditionsRequired
    | ConditionTypeRequired(index: nat)
    | RequiredStatusRequired(index: nat)
    | SelectorInvalid
    | SelectorRequired
    | TaintKeyRequired
    | TaintEffectRequired
    | EnforcementModeInvalid
    | TaintConflict(existing: string)

  /** The canonical text of a parsed selector, as the label library prints it. */
  type Canonical = Selector -> string

  // ----- Validating one spec

  method ValidateConditions(conds: seq<ConditionRequirement>) returns (errs: seq<FieldError>)
    ensures errs == [] <==> conds != [] && forall c :: c in conds ==> c.ctype != "" && c.requiredStatus != ""
    ensures ConditionsRequired in errs <==> conds == []
    ensures forall i: nat :: ConditionTypeRequired(i) in errs <==> i < |conds| && conds[i].ctype == ""
    ensures forall i: nat :: RequiredStatusRequired(i) in errs <==> i < |conds| && conds[i].requiredStatus == ""
    ensures forall e :: e in errs ==> e.ConditionsRequired? || e.ConditionTypeRequired? || e.RequiredStatusRequired?
  {
    errs := if conds == [] then [ConditionsRequired] else [];
    for i := 0 to |conds|
      invariant errs == []
                <==> conds != [] && forall j :: 0 <= j < i ==> conds[j].ctype != "" && conds[j].requiredStatus != ""
      invariant ConditionsRequired in errs <==> conds == []
      invariant forall j: nat :: ConditionTypeRequired(j) in errs <==> j < i && conds[j].ctype == ""
      invariant forall j: nat :: RequiredStatusRequired(j) in errs <==> j < i && conds[j].requiredStatus == ""
      invariant forall e :: e in errs ==> e.ConditionsRequired? || e.ConditionTypeRequired? || e.RequiredStatusRequired?
    {
      if conds[i].ctype == "" {
        errs := errs + [ConditionTypeRequired(i)];
      }
      if conds[i].requiredStatus == "" {
        errs := errs + [RequiredStatusRequired(i)];
      }
    }
  }

  lemma EmptyValid()
    ensures S.ValidSelector(Selector(map[], []))
  {
  }

  /** The errors beyond the conditions, each for its own reason. */
  method ValidateSpec(spec: Spec) returns (errs: seq<FieldError>)
    ensures errs == [] <==> SpecOk(spec)
    ensures ConditionsRequired in errs <==> spec.conditions == []
    ensures SelectorInvalid in errs <==> !S.ValidSelector(spec.nodeSelector)
    ensures SelectorRequired in errs <==> spec.nodeSelector == Selector(map[], [])
    ensures TaintKeyRequired in errs <==> spec.taint.key == ""
    ensures TaintEffectRequired in errs <==> spec.taint.effect == ""
    ensures EnforcementModeInvalid in errs
            <==> spec.enforcementMode != BOOTSTRAP_ONLY && spec.enforcementMode != CONTINUOUS
  {
    hide S.ValidSelector;
    EmptyValid();
    errs := ValidateConditions(spec.conditions);
    if !S.ValidSelector(spec.nodeSelector) {
      errs := errs + [SelectorInvalid];
    } else if spec.nodeSelector.matchLabels == map[] && spec.nodeSelector.matchExpressions == [] {
      errs := errs + [SelectorRequired];
    }
    if spec.taint.key == "" {
      errs := errs + [TaintKeyRequired];
    }
    if spec.taint.effect == "" {
      errs := errs + [TaintEffectRequired];
    }
    if spec.enforcementMode != BOOTSTRAP_ONLY && spec.enforcementMode != CONTINUOUS {
      errs := errs + [EnforcementModeInvalid];
    }
  }

  // ----- Conflicts between rules

  /** Selectors are taken to overlap when one does not parse or both print alike. */
  predicate Overlap(canon: Canonical, s: Selector, t: Selector) {
    !S.ValidSelector(s) || !S.ValidSelector(t) || canon(s) == canon(t)
  }

  predicate Clash(canon: Canonical, a: Spec, b: Spec) {
    SamePair(a.taint, b.taint) && Overlap(canon, a.nodeSelector, b.nodeSelector)
  }

  /** Some listed rule, other than the one being updated, clashes with the spec. */
  predicate Conflicting(canon: Canonical, list: seq<Rule>, name: string, spec: Spec, isUpdate: bool)
  {
    exists e :: e in list && !(isUpdate && e.name == name) && Clash(canon, spec, e.spec)
  }

  /** A clash with a listed rule of the given name. */
  predicate ConflictsWith(
    canon: Canonical, list: seq<Rule>, existing: string, name: string, spec: Spec, isUpdate: bool)
  {
    exists e :: e in list && e.name == existing && !(isUpdate && e.name == name) && Clash(canon, spec, e.spec)
  }

  /** A failed listing lets the request through. */
  method ValidateTaintConflicts(canon: Canonical, list: Option<seq<Rule>>, name: string, spec: Spec, isUpdate: bool)
    returns (errs: seq<FieldError>)
    ensures errs == [] <==> list.None? || !Conflicting(canon, list.value, name, spec, isUpdate)
    ensures forall e :: e in errs <==>
              e.TaintConflict? && list.Some? && ConflictsWith(canon, list.value, e.existing, name, spec, isUpdate)
  {
    errs := [];
    if list.None? {
      return;
    }
    var items := list.value;
    for i := 0 to |items|
      invariant errs == [] <==> !Conflicting(canon, items[..i], name, spec, isUpdate)
      invariant forall e :: e in errs <==>
                  e.TaintConflict? && ConflictsWith(canon, items[..i], e.existing, name, spec, isUpdate)
    {
      assert items[..i + 1] == items[..i] + [items[i]];
      if isUpdate && items[i].name == name {
        continue;
      }
      if items[i].spec.taint.key == spec.taint.key && items[i].spec.taint.effect == spec.taint.effect {
        if Overlap(canon, spec.nodeSelector, items[i].spec.nodeSelector) {
          errs := errs + [TaintConflict(items[i].name)];
        }
      }
    }
    assert items[..|items|] == items;
  }

  predicate Admits(canon: Canonical, list: Option<seq<Rule>>, name: string, spec: Spec, isUpdate: bool)
  {
    SpecOk(spec) && (list.Some? ==> !Conflicting(canon, list.value, name, spec, isUpdate))
  }

  method ValidateCreate(canon: Canonical, list: Option<seq<Rule>>, rule: Rule) returns (admitted: bool)
    ensures admitted == Admits(canon, list, rule.name, rule.spec, false)
  {
    var specErrs := ValidateSpec(rule.spec);
    var conflicts := ValidateTaintConflicts(canon, list, rule.name, rule.spec, false);
    return specErrs + conflicts == [];
  }

  method ValidateUpdate(canon: Canonical, list: Option<seq<Rule>>, rule: Rule) returns (admitted: bool)
    ensures admitted == Admits(canon, list, rule.name, rule.spec, true)
  {
    var specErrs := ValidateSpec(rule.spec);
    var conflicts := ValidateTaintConflicts(canon, list, rule.name, rule.spec, true);
    return specErrs + conflicts == [];
  }

  // ----- What is admitted

  /**
   * With a listing, a valid spec is admitted exactly when each listed rule, other than the one updated,
   * has another taint key, or another taint effect, or a selector that parses and prints differently.
   */
  lemma AdmitsMeaning(canon: Canonical, list: seq<Rule>, name: string, spec: Spec, isUpdate: bool)
    requires SpecOk(spec)
    ensures Admits(canon, Some(list), name, spec, isUpdate)
            <==> forall e :: e in list ==>
                   || (isUpdate && e.name == name)
                   || e.spec.taint.key != spec.taint.key || e.spec.taint.effect != spec.taint.effect
                   || (S.ValidSelector(e.spec.nodeSelector)
                       && canon(e.spec.nodeSelector) != canon(spec.nodeSelector))
  {
    hide S.ValidSelector;
  }

  /** One key with two effects is two taints: rules for them are admitted side by side, whatever they select. */
  lemma TwoEffectsAdmitted(canon: Canonical, existing: Rule, name: string, spec: Spec, isUpdate: bool)
    requires SpecOk(spec) && existing.spec == spec.(taint := spec.taint.(effect := "NoSchedule"))
    requires spec.taint.effect == "NoExecute"
    ensures Admits(canon, Some([existing]), name, spec, isUpdate)
    ensures !Admits(canon, Some([existing]), name, existing.spec, false)
  {
    hide S.ValidSelector;
    AdmitsMeaning(canon, [existing], name, spec, isUpdate);
    assert "NoSchedule"[2] != "NoExecute"[2];
    assert existing in [existing];
  }

  // ----- The admission invariant

  predicate Lists(list: seq<Rule>, rules: Rules) {
    Seqs.Elems(list) == rules.Values
  }

  /** No two stored rules clash, and each is fine on its own. */
  predicate StoreAdmitted(canon: Canonical, rules: Rules) {
    && (forall r :: r in rules ==> SpecOk(rules[r].spec))
    && forall r, q :: r in rules && q in rules && r != q ==> !Clash(canon, rules[r].spec, rules[q].spec)
  }

  lemma ClashSymmetric(canon: Canonical, a: Spec, b: Spec)
    ensures Clash(canon, a, b) == Clash(canon, b, a)
  {
  }

  /** Creates and updates go through the webhook with a complete listing. */
  ghost predicate Admitted(canon: Canonical, w: World, step: Step) {
    step.WriteRule? ==>
      exists list :: Lists(list, w.rules) && Admits(canon, Some(list), step.rule, step.spec, step.rule in w.rules)
  }

  lemma WriteAdmitted(canon: Canonical, rules: Rules, r: string, spec: Spec, list: seq<Rule>)
    requires Named(rules) && StoreAdmitted(canon, rules) && Lists(list, rules)
    requires Admits(canon, Some(list), r, spec, r in rules)
    ensures StoreAdmitted(canon, Written(rules, r, spec))
  {
    hide SpecOk, Clash;
    var after := Written(rules, r, spec);
    forall q | q in after && q != r
      ensures !Clash(canon, spec, after[q].spec) && !Clash(canon, after[q].spec, spec)
    {
      assert rules[q] in rules.Values && rules[q] in Seqs.Elems(list);
      ClashSymmetric(canon, spec, after[q].spec);
    }
  }

  /** Controller updates of metadata and status never meet a refusal on account of conflicts. */
  lemma UnchangedSpecAdmitted(canon: Canonical, rules: Rules, r: string, list: seq<Rule>)
    requires Named(rules) && StoreAdmitted(canon, rules) && Lists(list, rules) && r in rules
    ensures Admits(canon, Some(list), r, rules[r].spec, true)
  {
    hide SpecOk, Clash;
    forall e | e in list && e.name != r
      ensures !Clash(canon, rules[r].spec, e.spec)
    {
      assert e in rules.Values;
      var q :| q in rules && rules[q] == e;
    }
  }

  lemma SpecsWithinAdmitted(canon: Canonical, after: Rules, before: Rules)
    requires SpecsWithin(after, before) && StoreAdmitted(canon, before)
    ensures StoreAdmitted(canon, after)
  {
  }

  lemma NextAdmitted(canon: Canonical, w: World, step: Step)
    requires WellFormed(w) && StoreAdmitted(canon, w.rules) && Admitted(canon, w, step)
    ensures WellFormed(Next(w, step)) && StoreAdmitted(canon, Next(w, step).rules)
  {
    hide StoreAdmitted, Admits, ReconcileRule, ReconcileNode;
    NextWellFormed(w, step);
    if step.WriteRule? {
      var list :| Lists(list, w.rules) && Admits(canon, Some(list), step.rule, step.spec, step.rule in w.rules);
      WriteAdmitted(canon, w.rules, step.rule, step.spec, list);
    } else {
      StepKeepsSpecs(w, step);
      SpecsWithinAdmitted(canon, Next(w, step).rules, w.rules);
    }
  }

  /** Along every run of admitted writes no two stored rules share a pair and a canonical selector. */
  lemma {:induction false} AdmissionInvariant(canon: Canonical, ws: seq<World>, steps: seq<Step>, k: nat)
    requires Run(ws, steps) && k < |ws| && StoreAdmitted(canon, ws[0].rules)
    requires forall i :: 0 <= i < k ==> Admitted(canon, ws[i], steps[i])
    ensures WellFormed(ws[k]) && StoreAdmitted(canon, ws[k].rules)
  {
    hide WellFormed, StoreAdmitted, Admitted, Next;
    if k > 0 {
      AdmissionInvariant(canon, ws, steps, k - 1);
      NextAdmitted(canon, ws[k - 1], steps[k - 1]);
    }
  }

  /** A failed listing admits every valid spec; the store stays free of clashes exactly when it brought none. */
  lemma FailedListingAdmits(canon: Canonical, rules: Rules, r: string, spec: Spec)
    requires StoreAdmitted(canon, rules) && SpecOk(spec)
    ensures Admits(canon, None, r, spec, r in rules)
    ensures StoreAdmitted(canon, Written(rules, r, spec))
            <==> forall q :: q in rules && q != r ==> !Clash(canon, spec, rules[q].spec)
  {
    hide SpecOk, Clash;
    var after := Written(rules, r, spec);
    forall q | q in rules && q != r
      ensures after[q] == rules[q] && Clash(canon, after[r].spec, after[q].spec) == Clash(canon, spec, rules[q].spec)
      ensures Clash(canon, after[q].spec, after[r].spec) == Clash(canon, spec, rules[q].spec)
    {
      ClashSymmetric(canon, spec, rules[q].spec);
    }
  }

  // ----- Conflict freedom end to end

  /** The specs manage different pairs, or never apply to the same node. */
  ghost predicate Apart(a: Spec, b: Spec) {
    SamePair(a.taint, b.taint) ==>
      forall labels :: !(S.Applies(a.nodeSelector, labels) && S.Applies(b.nodeSelector, labels))
  }

  ghost predicate AllApart(xs: Rules, ys: Rules) {
    forall r, q :: r in xs && q in ys && r != q ==> Apart(xs[r].spec, ys[q].spec)
  }

  /** Stored selectors of rules that share a pair either print alike or never match the same node. */
  ghost predicate HeuristicExact(canon: Canonical, rules: Rules) {
    forall r, q :: r in rules && q in rules && r != q ==>
      canon(rules[r].spec.nodeSelector) == canon(rules[q].spec.nodeSelector) || Apart(rules[r].spec, rules[q].spec)
  }

  lemma AdmittedApart(canon: Canonical, rules: Rules)
    requires StoreAdmitted(canon, rules) && HeuristicExact(canon, rules)
    ensures AllApart(rules, rules)
  {
    hide SpecOk;
    forall r, q | r in rules && q in rules && r != q
      ensures Apart(rules[r].spec, rules[q].spec)
    {
      assert !Clash(canon, rules[r].spec, rules[q].spec);
    }
  }

  /** What is written stays apart from what the cache still holds of other rules. */
  ghost predicate Considerate(w: World, step: Step) {
    step.WriteRule? ==> forall q :: q in w.cache && q != step.rule ==> Apart(w.cache[q].spec, step.spec)
  }

  /** Cached specs are apart from each other and from the stored specs of other rules. */
  ghost predicate CachedApart(w: World) {
    AllApart(w.cache, w.cache) && AllApart(w.cache, w.rules)
  }

  lemma ApartSymmetric(a: Spec, b: Spec)
    ensures Apart(a, b) == Apart(b, a)
  {
  }

  lemma NextApart(w: World, step: Step)
    requires WellFormed(w) && CachedApart(w) && AllApart(w.rules, w.rules) && Considerate(w, step)
    ensures CachedApart(Next(w, step))
  {
    hide Apart, ReconcileRule, ReconcileNode, NodesListed;
    if !step.WriteRule? {
      StepKeepsSpecs(w, step);
      forall a: Spec, b: Spec
        ensures Apart(a, b) == Apart(b, a)
      {
        ApartSymmetric(a, b);
      }
    }
  }

  /** Rules kept apart own their pairs on every node. */
  lemma ApartOwnPairs(w: World, n: string)
    requires CachedApart(w) && n in w.nodes
    ensures OwnPairs(w, n)
  {
    hide S.Applies;
    forall r, q | r in ApplicableRules(w.cache, w.nodes[n].labels) && q in ApplicableRules(w.cache, w.nodes[n].labels)
      && r != q
      ensures !SamePair(w.cache[r].spec.taint, w.cache[q].spec.taint)
    {
      assert Apart(w.cache[r].spec, w.cache[q].spec);
    }
  }

  lemma {:induction false} ApartAlong(canon: Canonical, ws: seq<World>, steps: seq<Step>, k: nat)
    requires Run(ws, steps) && k < |ws| && StoreAdmitted(canon, ws[0].rules) && CachedApart(ws[0])
    requires forall i :: 0 <= i < k ==>
               Admitted(canon, ws[i], steps[i]) && Considerate(ws[i], steps[i]) && HeuristicExact(canon, ws[i].rules)
    ensures CachedApart(ws[k])
  {
    hide WellFormed, StoreAdmitted, Admitted, Next, CachedApart, Considerate, HeuristicExact;
    if k > 0 {
      ApartAlong(canon, ws, steps, k - 1);
      AdmissionInvariant(canon, ws, steps, k - 1);
      AdmittedApart(canon, ws[k - 1].rules);
      NextApart(ws[k - 1], steps[k - 1]);
    }
  }

  /**
   * Conflict freedom end to end. If every write, create or edit, was admitted with a complete listing
   * and stays apart from what the cache still holds of other rules, and the overlap heuristic is exact
   * for rules sharing a pair, then in every reachable state the cached rules applicable to a node have
   * distinct pairs, and the order in which a failure-free node reconcile takes them makes no difference.
   */
  lemma ConflictFreedom(
    canon: Canonical, ws: seq<World>, steps: seq<Step>, k: nat, n: string, f: Faults, one: seq<string>,
      two: seq<string>)
    requires Run(ws, steps) && k < |ws| && StoreAdmitted(canon, ws[0].rules) && CachedApart(ws[0])
    requires forall i :: 0 <= i < k ==>
               Admitted(canon, ws[i], steps[i]) && Considerate(ws[i], steps[i]) && HeuristicExact(canon, ws[i].rules)
    requires n in ws[k].nodes && FaultFree(f)
    requires Enumerates(one, ws[k].cache, ws[k].nodes[n].labels) && Enumerates(two, ws[k].cache, ws[k].nodes[n].labels)
    ensures OwnPairs(ws[k], n)
    ensures var a, b := ReconcileNode(ws[k], f, n, one), ReconcileNode(ws[k], f, n, two);
            && multiset(a.nodes[n].taints) == multiset(b.nodes[n].taints)
            && a.nodes[n].annotations == b.nodes[n].annotations
            && a.nodes[n := ws[k].nodes[n]] == b.nodes[n := ws[k].nodes[n]] == ws[k].nodes
  {
    AdmissionInvariant(canon, ws, steps, k);
    ApartAlong(canon, ws, steps, k);
    ApartOwnPairs(ws[k], n);
    NodePassOrderIndependent(ws[k], f, n, one, two);
    hide *;
  }

  /** The cache repeats pair and selector of stored rules: no edit of them is waiting to be reconciled. */
  predicate Mirrored(w: World) {
    forall r :: r in w.cache ==>
      && r in w.rules && SamePair(w.cache[r].spec.taint, w.rules[r].spec.taint)
      && w.cache[r].spec.nodeSelector == w.rules[r].spec.nodeSelector
  }

  /** With nothing waiting, cached rules are apart, and every admitted write stays apart from them. */
  lemma MirroredConsiderate(canon: Canonical, w: World, step: Step)
    requires WellFormed(w) && StoreAdmitted(canon, w.rules) && HeuristicExact(canon, w.rules) && Mirrored(w)
    requires step.WriteRule? && Admitted(canon, w, step) && HeuristicExact(canon, Next(w, step).rules)
    ensures CachedApart(w) && Considerate(w, step)
  {
    hide StoreAdmitted, HeuristicExact, Admitted, Apart, NodesListed;
    var after := Next(w, step).rules;
    AdmittedApart(canon, w.rules);
    NextAdmitted(canon, w, step);
    AdmittedApart(canon, after);
    forall r, b | r in w.cache
      ensures Apart(w.cache[r].spec, b) == Apart(w.rules[r].spec, b)
              && Apart(b, w.cache[r].spec) == Apart(b, w.rules[r].spec)
    {
      SameApart(w.cache[r].spec, w.rules[r].spec, b);
    }
    forall q | q in w.cache && q != step.rule
      ensures Apart(w.cache[q].spec, step.spec)
    {
      assert after[q] == w.rules[q] && after[step.rule].spec == step.spec;
      assert Apart(after[q].spec, after[step.rule].spec);
    }
  }

  lemma SameApart(a: Spec, c: Spec, b: Spec)
    requires SamePair(a.taint, c.taint) && a.nodeSelector == c.nodeSelector
    ensures Apart(a, b) == Apart(c, b) && Apart(b, a) == Apart(b, c)
  {
  }

  /**
   * Without that care the cache can hold a stale pair. Reconciling rule r keeps the rules of a node
   * apart exactly when r does not apply there or no other cached rule that does has r's stored pair.
   */
  lemma CachingExact(w: World, f: Faults, r: string, n: string)
    requires WellFormed(w) && FaultFree(f) && r in w.rules && !w.rules[r].deleting && n in w.nodes && OwnPairs(w, n)
    requires RulePass.ChangeNoticed(w, r) ==> S.ValidSelector(w.cache[r].spec.nodeSelector)
    ensures n in ReconcileRule(w, f, r).world.nodes
    ensures OwnPairs(ReconcileRule(w, f, r).world, n)
            <==> !S.Applies(w.rules[r].spec.nodeSelector, w.nodes[n].labels)
                 || forall q :: q in ApplicableRules(w.cache, w.nodes[n].labels) && q != r ==>
                      !SamePair(w.cache[q].spec.taint, w.rules[r].spec.taint)
  {
    hide ReconcileRule, S.Applies, S.SelectorChanged, S.ValidSelector, S.Matches, HasTaint, Others, AllSatisfied,
      CarriersFit;
    assert Covered(w.nodes, w.order) by {
      assert forall m :: m in w.order ==> m in Seqs.Elems(w.order);
    }
    LiveCarriers(w, f, r, NO_PAIR);
    FaultFreeCaches(w, f, r);
    RulePass.FullEffect(w, f, r, n);
    CacheUpdateOwnPairs(w.cache, r, ReconcileRule(w, f, r).world.cache[r], w.nodes[n].labels);
  }

  lemma CacheUpdateOwnPairs(cache: Rules, r: string, rule: Rule, labels: map<string, string>)
    requires DistinctPairs(cache, ApplicableRules(cache, labels))
    ensures var after := cache[r := rule];
            DistinctPairs(after, ApplicableRules(after, labels))
            <==> !S.Applies(rule.spec.nodeSelector, labels)
                 || forall q :: q in ApplicableRules(cache, labels) && q != r ==>
                      !SamePair(cache[q].spec.taint, rule.spec.taint)
  {
    hide S.Applies;
    var after := cache[r := rule];
    assert forall q :: q != r ==> (q in ApplicableRules(after, labels) <==> q in ApplicableRules(cache, labels));
    if S.Applies(rule.spec.nodeSelector, labels) {
      assert r in ApplicableRules(after, labels);
    }
  }
}
