/** The update filter: which node changes wake the node reconciler. */
module EventFilter {
  import Seqs
  import opened Api
  import opened Evaluation
  import S = Selectors

  // ----- Conditions

  function Types(conds: seq<Condition>): seq<string> {
    seq(|conds|, i requires 0 <= i < |conds| => conds[i].ctype)
  }

  /** Status of the last condition of a type, which is what filling a map by type leaves behind. */
  function LastStatuses(conds: seq<Condition>): map<string, string> {
    if conds == [] then map[]
    else LastStatuses(conds[..|conds| - 1])[conds[|conds| - 1].ctype := conds[|conds| - 1].status]
  }

  predicate SameConditions(a: seq<Condition>, b: seq<Condition>) {
    && |a| == |b|
    && forall c :: c in b ==> c.ctype in LastStatuses(a) && LastStatuses(a)[c.ctype] == c.status
  }

  method ConditionsEqual(a: seq<Condition>, b: seq<Condition>) returns (equal: bool)
    ensures equal == SameConditions(a, b)
  {
    if |a| != |b| {
      return false;
    }
    var aMap: map<string, string> := map[];
    for i := 0 to |a|
      invariant aMap == LastStatuses(a[..i])
    {
      assert a[..i + 1][..i] == a[..i];
      aMap := aMap[a[i].ctype := a[i].status];
    }
    assert a[..|a|] == a;
    for i := 0 to |b|
      invariant forall c :: c in b[..i] ==> c.ctype in aMap && aMap[c.ctype] == c.status
    {
      if b[i].ctype !in aMap || aMap[b[i].ctype] != b[i].status {
        assert b[i] in b;
        return false;
      }
      assert b[..i + 1] == b[..i] + [b[i]];
    }
    assert b[..|b|] == b;
    return true;
  }

  lemma {:induction false} LastStatusesFrom(conds: seq<Condition>, t: string)
    ensures t in LastStatuses(conds) <==> t in Types(conds)
    ensures t in LastStatuses(conds) ==> Condition(t, LastStatuses(conds)[t]) in conds
  {
    if conds != [] {
      var n := |conds| - 1;
      LastStatusesFrom(conds[..n], t);
      assert conds == conds[..n] + [conds[n]];
      assert Types(conds) == Types(conds[..n]) + [conds[n].ctype];
    }
  }

  lemma {:induction false} UniqueStatus(conds: seq<Condition>, c: Condition)
    requires Seqs.Distinct(Types(conds)) && c in conds
    ensures ConditionStatus(conds, c.ctype) == c.status
  {
    var i :| 0 <= i < |conds| && conds[i] == c;
    assert Types(conds)[i] == c.ctype;
    if i != 0 {
      assert Types(conds)[0] != c.ctype;
      assert Types(conds[1..]) == Types(conds)[1..];
      assert conds[1..][i - 1] == c;
      UniqueStatus(conds[1..], c);
    }
  }

  /** With condition types unique on the new node, equal conditions read the same for every type. */
  lemma SameConditionsSound(a: seq<Condition>, b: seq<Condition>, t: string)
    requires SameConditions(a, b) && Seqs.Distinct(Types(b))
    ensures ConditionStatus(a, t) == ConditionStatus(b, t)
  {
    forall u | u in Types(b)
      ensures u in Types(a)
    {
      var i :| 0 <= i < |b| && Types(b)[i] == u;
      assert b[i] in b;
      LastStatusesFrom(a, u);
    }
    Seqs.Pigeonhole(Types(a), Types(b));
    if t in Types(b) {
      var i :| 0 <= i < |b| && Types(b)[i] == t;
      assert b[i] in b;
      LastStatusesFrom(a, t);
      UniqueStatus(a, Condition(t, LastStatuses(a)[t]));
      UniqueStatus(b, b[i]);
    } else {
      assert t !in Seqs.Elems(Types(b)) && t !in Types(a);
      forall c | c in a
        ensures c.ctype != t
      {
        var i :| 0 <= i < |a| && a[i] == c;
        assert Types(a)[i] == c.ctype;
      }
      forall c | c in b
        ensures c.ctype != t
      {
        var i :| 0 <= i < |b| && b[i] == c;
        assert Types(b)[i] == c.ctype;
      }
      ConditionStatusMeaning(a, t);
      ConditionStatusMeaning(b, t);
    }
  }

  // ----- Taints

  const NO_SCHEDULE := "NoSchedule"
  const PREFER_NO_SCHEDULE := "PreferNoSchedule"
  const NO_EXECUTE := "NoExecute"
  const PREFER := "Prefer"

  /** The comparison key runs the taint key and the effect together. */
  function RunTogether(t: Taint): string {
    t.key + t.effect
  }

  function Keys(taints: seq<Taint>): seq<string> {
    seq(|taints|, i requires 0 <= i < |taints| => RunTogether(taints[i]))
  }

  function LastTaints(taints: seq<Taint>): map<string, Taint> {
    if taints == [] then map[]
    else LastTaints(taints[..|taints| - 1])[RunTogether(taints[|taints| - 1]) := taints[|taints| - 1]]
  }

  predicate SameTaints(a: seq<Taint>, b: seq<Taint>) {
    && |a| == |b|
    && forall t :: t in b ==> RunTogether(t) in LastTaints(a) && LastTaints(a)[RunTogether(t)].value == t.value
  }

  method TaintsEqual(a: seq<Taint>, b: seq<Taint>) returns (equal: bool)
    ensures equal == SameTaints(a, b)
  {
    if |a| != |b| {
      return false;
    }
    var aMap: map<string, Taint> := map[];
    for i := 0 to |a|
      invariant aMap == LastTaints(a[..i])
    {
      assert a[..i + 1][..i] == a[..i];
      aMap := aMap[RunTogether(a[i]) := a[i]];
    }
    assert a[..|a|] == a;
    for i := 0 to |b|
      invariant forall t :: t in b[..i] ==> RunTogether(t) in aMap && aMap[RunTogether(t)].value == t.value
    {
      if RunTogether(b[i]) !in aMap || aMap[RunTogether(b[i])].value != b[i].value {
        assert b[i] in b;
        return false;
      }
      assert b[..i + 1] == b[..i] + [b[i]];
    }
    assert b[..|b|] == b;
    return true;
  }

  lemma {:induction false} LastTaintsFrom(taints: seq<Taint>, k: string)
    ensures k in LastTaints(taints) ==> LastTaints(taints)[k] in taints && RunTogether(LastTaints(taints)[k]) == k
  {
    if taints != [] {
      var n := |taints| - 1;
      LastTaintsFrom(taints[..n], k);
      assert taints == taints[..n] + [taints[n]];
    }
  }

  predicate KnownEffect(t: Taint) {
    t.effect == NO_SCHEDULE || t.effect == PREFER_NO_SCHEDULE || t.effect == NO_EXECUTE
  }

  predicate KnownEffects(taints: seq<Taint>) {
    forall t :: t in taints ==> KnownEffect(t)
  }

  /** "xPrefer" with NoSchedule against "x" with PreferNoSchedule. */
  predicate Twins(t: Taint, u: Taint) {
    || (t.effect == NO_SCHEDULE && u.effect == PREFER_NO_SCHEDULE && t.key == u.key + PREFER)
    || (u.effect == NO_SCHEDULE && t.effect == PREFER_NO_SCHEDULE && u.key == t.key + PREFER)
  }

  lemma SuffixSplit(x: string, r: string, y: string, s: string)
    requires x + r == y + s && |r| <= |s|
    ensures s[|s| - |r|..] == r && x == y + s[..|s| - |r|]
  {
    assert (x + r)[|x|..] == r && (y + s)[|x|..] == s[|s| - |r|..];
    assert (x + r)[..|x|] == x && (y + s)[..|x|] == y + s[..|s| - |r|];
  }

  /** Running key and effect together confuses two known taints exactly when they are twins. */
  lemma RunTogetherExact(t: Taint, u: Taint)
    requires KnownEffect(t) && KnownEffect(u)
    ensures RunTogether(t) == RunTogether(u) <==> SamePair(t, u) || Twins(t, u)
  {
    assert PREFER_NO_SCHEDULE == PREFER + NO_SCHEDULE;
    assert t.key + (PREFER + NO_SCHEDULE) == (t.key + PREFER) + NO_SCHEDULE;
    assert u.key + (PREFER + NO_SCHEDULE) == (u.key + PREFER) + NO_SCHEDULE;
    if RunTogether(t) == RunTogether(u) {
      var tail := RunTogether(t)[|RunTogether(t)| - 2];
      assert tail == t.effect[|t.effect| - 2] && tail == u.effect[|u.effect| - 2];
      if |t.effect| <= |u.effect| {
        SuffixSplit(t.key, t.effect, u.key, u.effect);
      } else {
        SuffixSplit(u.key, u.effect, t.key, t.effect);
      }
    }
  }

  predicate UniquePairs(taints: seq<Taint>) {
    forall i, j :: 0 <= i < j < |taints| ==> !SamePair(taints[i], taints[j])
  }

  function Pairs(taints: seq<Taint>): seq<(string, string)> {
    seq(|taints|, i requires 0 <= i < |taints| => (taints[i].key, taints[i].effect))
  }

  lemma HasTaintPairs(taints: seq<Taint>, p: Taint)
    ensures HasTaint(taints, p) <==> (p.key, p.effect) in Seqs.Elems(Pairs(taints))
  {
    if HasTaint(taints, p) {
      var t :| t in taints && SamePair(t, p);
      var i :| 0 <= i < |taints| && taints[i] == t;
      assert Pairs(taints)[i] == (p.key, p.effect);
    }
    if (p.key, p.effect) in Seqs.Elems(Pairs(taints)) {
      var i :| 0 <= i < |taints| && Pairs(taints)[i] == (p.key, p.effect);
      assert taints[i] in taints && SamePair(taints[i], p);
    }
  }

  /** A new taint that the old node only had as its twin. */
  predicate TwinSwapped(a: seq<Taint>, b: seq<Taint>) {
    exists t, u :: t in b && u in a && Twins(t, u) && !HasTaint(a, t)
  }

  /** Taints judged equal answer every lookup alike exactly when no taint was swapped for its twin. */
  lemma SameTaintsExact(a: seq<Taint>, b: seq<Taint>)
    requires SameTaints(a, b) && UniquePairs(b) && KnownEffects(a) && KnownEffects(b)
    ensures !TwinSwapped(a, b) <==> forall p :: HasTaint(a, p) == HasTaint(b, p)
  {
    if !TwinSwapped(a, b) {
      forall q | q in Pairs(b)
        ensures q in Pairs(a)
      {
        var i :| 0 <= i < |b| && Pairs(b)[i] == q;
        assert b[i] in b;
        LastTaintsFrom(a, RunTogether(b[i]));
        RunTogetherExact(b[i], LastTaints(a)[RunTogether(b[i])]);
        HasTaintPairs(a, b[i]);
      }
      Seqs.Pigeonhole(Pairs(a), Pairs(b));
      forall p
        ensures HasTaint(a, p) == HasTaint(b, p)
      {
        HasTaintPairs(a, p);
        HasTaintPairs(b, p);
      }
    } else {
      var t, u :| t in b && u in a && Twins(t, u) && !HasTaint(a, t);
      assert HasTaint(b, t);
    }
  }

  // ----- The filter

  predicate Reconciles(before: Node, after: Node) {
    || !SameConditions(before.conditions, after.conditions)
    || !SameTaints(before.taints, after.taints)
    || !S.GoMapEqual(before.labels, after.labels)
  }

  method UpdateFunc(before: Node, after: Node) returns (reconcile: bool)
    ensures reconcile == Reconciles(before, after)
  {
    var conditionsSame := ConditionsEqual(before.conditions, after.conditions);
    var taintsSame := TaintsEqual(before.taints, after.taints);
    var labelsSame := S.StringMapEqual(before.labels, after.labels);
    return !conditionsSame || !taintsSame || !labelsSame;
  }

  /** What the API server guarantees: unique types and pairs, named taints of known effects, well-formed label keys. */
  predicate ServerChecked(before: Node, after: Node) {
    && Seqs.Distinct(Types(after.conditions)) && UniquePairs(after.taints)
    && KnownEffects(before.taints) && KnownEffects(after.taints)
    && (forall t :: t in after.taints ==> t.key != "")
    && forall k :: k in before.labels ==> k != "" && S.LabelText(k)
  }

  /** What the comparisons cannot see. */
  predicate Visible(before: Node, after: Node) {
    !TwinSwapped(before.taints, after.taints) && S.EmptyValuesShared(before.labels, after.labels)
  }

  /** The rule applies to both or neither; if to both, it records the same results and does the same about its taint. */
  predicate SameForRule(before: Node, after: Node, spec: Spec) {
    && S.Applies(spec.nodeSelector, before.labels) == S.Applies(spec.nodeSelector, after.labels)
    && (S.Applies(spec.nodeSelector, after.labels) ==>
          && ResultsFor(spec.conditions, before.conditions) == ResultsFor(spec.conditions, after.conditions)
          && Decide(spec, before) == Decide(spec, after))
  }

  lemma FilterSound(before: Node, after: Node, spec: Spec)
    requires !Reconciles(before, after) && ServerChecked(before, after) && Visible(before, after)
    ensures SameForRule(before, after, spec)
  {
    S.GoMapEqualExact(before.labels, after.labels);
    forall t
      ensures ConditionStatus(before.conditions, t) == ConditionStatus(after.conditions, t)
    {
      SameConditionsSound(before.conditions, after.conditions, t);
    }
    SameTaintsExact(before.taints, after.taints);
  }

  const READY := ConditionRequirement("Ready", "True")

  /** A value that neither label map has under the key "a". */
  function Unused(x: map<string, string>, y: map<string, string>): (v: string)
    ensures S.LabelText(v) && ("a" in x ==> x["a"] != v) && ("a" in y ==> y["a"] != v)
  {
    if !("a" in x && x["a"] == "x") && !("a" in y && y["a"] == "x") then "x"
    else if !("a" in x && x["a"] == "y") && !("a" in y && y["a"] == "y") then "y"
    else "z"
  }

  /** A rule applying to both nodes, for which it matters whether they carry the taint. */
  function TaintProbe(before: Node, after: Node, p: Taint): Spec {
    Spec([READY], CONTINUOUS, p, Selector(map[], [Requirement("a", "NotIn", [Unused(before.labels, after.labels)])]),
         false)
  }

  lemma TaintProbeApplies(before: Node, after: Node, p: Taint)
    requires p.key != "" && KnownEffect(p)
    ensures var spec := TaintProbe(before, after, p);
            SpecOk(spec) && S.Applies(spec.nodeSelector, before.labels) && S.Applies(spec.nodeSelector, after.labels)
  {
  }

  /** A rule that applies to nodes with a label, whatever its value. */
  function LabelProbe(k: string): Spec {
    Spec([READY], CONTINUOUS, Taint("a", "", NO_SCHEDULE), Selector(map[], [Requirement(k, "Exists", [])]), false)
  }

  lemma LabelProbeApplies(k: string, labels: map<string, string>)
    requires k != "" && S.LabelText(k)
    ensures SpecOk(LabelProbe(k)) && (S.Applies(LabelProbe(k).nodeSelector, labels) <==> k in labels)
  {
    hide S.LabelText;
    var s := LabelProbe(k).nodeSelector;
    assert s.matchExpressions[0] in s.matchExpressions;
  }

  /**
   * Dropping an update is harmless to every rule the webhook admits exactly when no taint was swapped
   * for its twin and no empty-valued label was dropped.
   */
  lemma FilterExact(before: Node, after: Node)
    requires !Reconciles(before, after) && ServerChecked(before, after)
    ensures Visible(before, after) <==> forall spec :: SpecOk(spec) ==> SameForRule(before, after, spec)
  {
    hide SpecOk, S.Applies, SameConditions, SameTaints, S.GoMapEqual, S.LabelText, LabelProbe;
    if Visible(before, after) {
      forall spec
        ensures SameForRule(before, after, spec)
      {
        FilterSound(before, after, spec);
      }
    } else if TwinSwapped(before.taints, after.taints) {
      var t, u :| t in after.taints && u in before.taints && Twins(t, u) && !HasTaint(before.taints, t);
      TwinSeen(before, after, t);
    } else {
      var k :| k in before.labels && before.labels[k] == "" && k !in after.labels;
      LabelProbeApplies(k, before.labels);
      LabelProbeApplies(k, after.labels);
      assert !SameForRule(before, after, LabelProbe(k));
    }
  }

  lemma TwinSeen(before: Node, after: Node, t: Taint)
    requires !Reconciles(before, after) && ServerChecked(before, after)
    requires t in after.taints && !HasTaint(before.taints, t)
    ensures var spec := TaintProbe(before, after, t); SpecOk(spec) && !SameForRule(before, after, spec)
  {
    hide SpecOk, S.Applies, SameTaints, S.GoMapEqual;
    TaintProbeApplies(before, after, t);
    SameConditionsSound(before.conditions, after.conditions, "Ready");
    assert HasTaint(after.taints, t);
  }

  /** Without the twin hypothesis an update that changes a rule's action is dropped. */
  lemma TwinUpdateDropped(k: string, v: string)
    ensures
      var t, u := Taint(k + PREFER, v, NO_SCHEDULE), Taint(k, v, PREFER_NO_SCHEDULE);
      SameTaints([u], [t]) && HasTaint([t], t) && !HasTaint([u], t)
  {
    var t, u := Taint(k + PREFER, v, NO_SCHEDULE), Taint(k, v, PREFER_NO_SCHEDULE);
    RunTogetherExact(t, u);
    assert [u][..0] == [];
    assert LastTaints([u]) == map[RunTogether(u) := u];
    assert t in [t];
  }

  // ----- Which updates are dropped

  lemma DistinctWhole<T, U>(s: seq<T>, f: seq<U>)
    requires |f| == |s| && Seqs.Distinct(f) && forall i, j :: 0 <= i < j < |s| && s[i] == s[j] ==> f[i] == f[j]
    ensures Seqs.Distinct(s)
  {
  }

  /** Equally many distinct elements: all of one are in the other exactly when both have the same elements. */
  lemma SameElems<T>(a: seq<T>, b: seq<T>)
    requires Seqs.Distinct(a) && Seqs.Distinct(b)
    ensures |a| == |b| && (forall x :: x in b ==> x in a) <==> Seqs.Elems(a) == Seqs.Elems(b)
  {
    Seqs.ElemsSize(a);
    Seqs.ElemsSize(b);
    if |a| == |b| && forall x :: x in b ==> x in a {
      Seqs.Pigeonhole(a, b);
    }
    if Seqs.Elems(a) == Seqs.Elems(b) {
      assert forall x :: x in b ==> x in Seqs.Elems(b);
    }
  }

  /** With unique types on both sides, conditions compare equal exactly when they are the same ones in any order. */
  lemma SameConditionsExact(a: seq<Condition>, b: seq<Condition>)
    requires Seqs.Distinct(Types(a)) && Seqs.Distinct(Types(b))
    ensures SameConditions(a, b) <==> Seqs.Elems(a) == Seqs.Elems(b)
  {
    DistinctWhole(a, Types(a));
    DistinctWhole(b, Types(b));
    SameElems(a, b);
    forall c | c in b
      ensures c.ctype in LastStatuses(a) && LastStatuses(a)[c.ctype] == c.status <==> c in a
    {
      LastStatusesFrom(a, c.ctype);
      if c in a {
        var i :| 0 <= i < |a| && a[i] == c;
        assert Types(a)[i] == c.ctype;
        UniqueStatus(a, c);
        UniqueStatus(a, Condition(c.ctype, LastStatuses(a)[c.ctype]));
      }
    }
  }

  lemma LastTaintsHas(taints: seq<Taint>, t: Taint)
    requires Seqs.Distinct(Keys(taints)) && t in taints
    ensures RunTogether(t) in LastTaints(taints) && LastTaints(taints)[RunTogether(t)] == t
  {
    LastTaintsAll(taints, t);
    LastTaintsFrom(taints, RunTogether(t));
    var u := LastTaints(taints)[RunTogether(t)];
    var i :| 0 <= i < |taints| && taints[i] == t;
    var j :| 0 <= j < |taints| && taints[j] == u;
    assert Keys(taints)[i] == Keys(taints)[j];
  }

  lemma {:induction false} LastTaintsAll(taints: seq<Taint>, t: Taint)
    requires t in taints
    ensures RunTogether(t) in LastTaints(taints)
  {
    var n := |taints| - 1;
    assert taints == taints[..n] + [taints[n]];
    if t != taints[n] {
      LastTaintsAll(taints[..n], t);
    }
  }

  /**
   * With unique comparison keys on both sides and no swapped twin, taints compare equal exactly when they
   * are the same ones.
   */
  lemma SameTaintsSets(a: seq<Taint>, b: seq<Taint>)
    requires Seqs.Distinct(Keys(a)) && Seqs.Distinct(Keys(b)) && KnownEffects(a) && KnownEffects(b)
    requires !TwinSwapped(a, b)
    ensures SameTaints(a, b) <==> Seqs.Elems(a) == Seqs.Elems(b)
  {
    DistinctWhole(a, Keys(a));
    DistinctWhole(b, Keys(b));
    SameElems(a, b);
    forall t | t in b
      ensures RunTogether(t) in LastTaints(a) && LastTaints(a)[RunTogether(t)].value == t.value <==> t in a
    {
      if t in a {
        LastTaintsHas(a, t);
      } else if RunTogether(t) in LastTaints(a) && LastTaints(a)[RunTogether(t)].value == t.value {
        LastTaintsFrom(a, RunTogether(t));
        var u := LastTaints(a)[RunTogether(t)];
        RunTogetherExact(t, u);
        if !SamePair(t, u) {
          assert HasTaint(a, t);
          var v :| v in a && SamePair(v, t);
          RunTogetherExact(v, t);
          LastTaintsHas(a, v);
          assert false;
        }
      }
    }
  }

  /**
   * Where the comparisons can see everything, an update wakes the reconciler exactly when a condition, a
   * taint or a label differs; the order of conditions and taints is immaterial.
   */
  lemma WakesExact(before: Node, after: Node)
    requires Seqs.Distinct(Types(before.conditions)) && Seqs.Distinct(Types(after.conditions))
    requires Seqs.Distinct(Keys(before.taints)) && Seqs.Distinct(Keys(after.taints))
    requires KnownEffects(before.taints) && KnownEffects(after.taints) && Visible(before, after)
    ensures Reconciles(before, after)
            <==> || Seqs.Elems(before.conditions) != Seqs.Elems(after.conditions)
                 || Seqs.Elems(before.taints) != Seqs.Elems(after.taints)
                 || before.labels != after.labels
  {
    hide SameConditions, SameTaints, S.GoMapEqual, KnownEffects, TwinSwapped;
    SameConditionsExact(before.conditions, after.conditions);
    SameTaintsSets(before.taints, after.taints);
    S.GoMapEqualMeaning(before.labels, after.labels);
    if S.GoMapEqual(before.labels, after.labels) {
      S.GoMapEqualExact(before.labels, after.labels);
    }
  }

  /** In particular an update that changes none of them, such as a heartbeat, is dropped. */
  lemma UnchangedDropped(before: Node, after: Node)
    requires after.conditions == before.conditions && after.taints == before.taints && after.labels == before.labels
    requires Seqs.Distinct(Types(before.conditions)) && Seqs.Distinct(Keys(before.taints))
    ensures !Reconciles(before, after)
  {
    SameConditionsExact(before.conditions, before.conditions);
    forall t | t in before.taints
      ensures RunTogether(t) in LastTaints(before.taints) && LastTaints(before.taints)[RunTogether(t)] == t
    {
      LastTaintsHas(before.taints, t);
    }
    S.GoMapEqualMeaning(before.labels, before.labels);
  }
}
