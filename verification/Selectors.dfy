/** Label selectors: what they match, how they are printed, and when a change is noticed. */
module Selectors {
  import Seqs
  import opened Api

  // ----- What a selector accepts

  predicate LabelChar(c: char) {
    'a' <= c <= 'z' || 'A' <= c <= 'Z' || '0' <= c <= '9' || c == '-' || c == '_' || c == '.' || c == '/'
  }

  predicate LabelText(s: string) {
    forall i :: 0 <= i < |s| ==> LabelChar(s[i])
  }

  predicate KnownOperator(op: string) {
    op == "In" || op == "NotIn" || op == "Exists" || op == "DoesNotExist"
  }

  /** Set operators need values, existence operators must have none. */
  predicate ValidRequirement(r: Requirement) {
    && r.key != "" && LabelText(r.key)
    && (forall i :: 0 <= i < |r.values| ==> LabelText(r.values[i]))
    && KnownOperator(r.operator)
    && (r.values != [] <==> r.operator == "In" || r.operator == "NotIn")
  }

  predicate ValidExpressions(s: Selector) {
    forall e :: e in s.matchExpressions ==> ValidRequirement(e)
  }

  predicate ValidSelector(s: Selector) {
    && (forall k :: k in s.matchLabels ==> k != "" && LabelText(k) && LabelText(s.matchLabels[k]))
    && ValidExpressions(s)
  }

  predicate Holds(r: Requirement, labels: map<string, string>) {
    if r.operator == "In" then r.key in labels && labels[r.key] in r.values
    else if r.operator == "NotIn" then r.key !in labels || labels[r.key] !in r.values
    else if r.operator == "Exists" then r.key in labels
    else r.key !in labels
  }

  predicate Matches(s: Selector, labels: map<string, string>) {
    && (forall k :: k in s.matchLabels ==> k in labels && labels[k] == s.matchLabels[k])
    && (forall e :: e in s.matchExpressions ==> Holds(e, labels))
  }

  /** A selector that does not parse applies to no node. */
  predicate Applies(s: Selector, labels: map<string, string>) {
    ValidSelector(s) && Matches(s, labels)
  }

  /** The operators: two pairs of complements, and one value required is one value matched. */
  lemma OperatorsMeaning(key: string, values: seq<string>, labels: map<string, string>)
    ensures Holds(Requirement(key, "Exists", values), labels) <==> key in labels
    ensures Holds(Requirement(key, "DoesNotExist", values), labels)
            <==> !Holds(Requirement(key, "Exists", values), labels)
    ensures Holds(Requirement(key, "In", values), labels)
            <==> exists v :: v in values && Matches(Selector(map[key := v], []), labels)
    ensures Holds(Requirement(key, "NotIn", values), labels) <==> !Holds(Requirement(key, "In", values), labels)
  {
    if Holds(Requirement(key, "In", values), labels) {
      assert Matches(Selector(map[key := labels[key]], []), labels);
    }
    forall v | v in values && Matches(Selector(map[key := v], []), labels)
      ensures Holds(Requirement(key, "In", values), labels)
    {
      assert key in map[key := v];
    }
  }

  /** A selector demands all its labels and all its expressions, one by one; the empty one demands nothing. */
  lemma MatchesMeaning(s: Selector, labels: map<string, string>)
    ensures Matches(Selector(map[], []), labels)
    ensures Matches(s, labels)
            <==> && (forall k :: k in s.matchLabels ==> Matches(Selector(map[k := s.matchLabels[k]], []), labels))
                 && (forall e :: e in s.matchExpressions ==> Matches(Selector(map[], [e]), labels))
    ensures forall e :: Matches(Selector(map[], [e]), labels) <==> Holds(e, labels)
  {
    forall k | k in s.matchLabels
      ensures Matches(Selector(map[k := s.matchLabels[k]], []), labels)
              <==> k in labels && labels[k] == s.matchLabels[k]
    {
      assert k in map[k := s.matchLabels[k]];
    }
    forall e
      ensures Matches(Selector(map[], [e]), labels) <==> Holds(e, labels)
    {
      assert e in [e];
    }
  }

  /** An expression parses with one of the four operators and values exactly where the operator takes some. */
  lemma ValidMeaning(key: string, operator: string, values: seq<string>)
    requires key != "" && LabelText(key) && forall v :: v in values ==> LabelText(v)
    ensures ValidRequirement(Requirement(key, operator, values))
            <==> || ((operator == "In" || operator == "NotIn") && values != [])
                 || ((operator == "Exists" || operator == "DoesNotExist") && values == [])
    ensures !ValidRequirement(Requirement("", operator, values))
  {
    hide LabelText;
  }

  // ----- Go maps

  /** Indexing a Go map reads a missing key as the empty string. */
  function Lookup(m: map<string, string>, k: string): string {
    if k in m then m[k] else ""
  }

  predicate GoMapEqual(a: map<string, string>, b: map<string, string>) {
    |a| == |b| && forall k :: k in a ==> Lookup(b, k) == a[k]
  }

  method StringMapEqual(a: map<string, string>, b: map<string, string>) returns (equal: bool)
    ensures equal == GoMapEqual(a, b)
  {
    if |a| != |b| {
      return false;
    }
    var keys := a.Keys;
    while keys != {}
      invariant keys <= a.Keys
      invariant forall k :: k in a && k !in keys ==> Lookup(b, k) == a[k]
    {
      var k :| k in keys;
      if Lookup(b, k) != a[k] {
        return false;
      }
      keys := keys - {k};
    }
    return true;
  }

  /** Every empty-valued key of `a` is present in `b`: the one thing the lookup cannot see. */
  predicate EmptyValuesShared(a: map<string, string>, b: map<string, string>) {
    forall k :: k in a && a[k] == "" ==> k in b
  }

  /** The comparison means equality exactly when no empty-valued key is missing on the other side. */
  lemma GoMapEqualExact(a: map<string, string>, b: map<string, string>)
    requires GoMapEqual(a, b)
    ensures a == b <==> EmptyValuesShared(a, b)
  {
    if EmptyValuesShared(a, b) {
      assert forall k :: k in a ==> Lookup(b, k) == a[k] && k in b;
      assert a.Keys <= b.Keys;
      Seqs.SubsetSameSize(a.Keys, b.Keys);
      assert forall k :: k in b ==> k in a.Keys;
    }
  }

  /** The comparison in full: equally many labels, the same non-empty values, and no empty value against another. */
  lemma GoMapEqualMeaning(a: map<string, string>, b: map<string, string>)
    ensures GoMapEqual(a, b)
            <==> && |a| == |b|
                 && (forall k :: k in a && a[k] != "" ==> k in b && b[k] == a[k])
                 && (forall k :: k in a && k in b && a[k] == "" ==> b[k] == "")
    ensures a == b ==> GoMapEqual(a, b)
  {
  }

  // ----- Detecting a selector change

  function Join(ss: seq<string>): string {
    if ss == [] then "" else if |ss| == 1 then ss[0] else ss[0] + [' '] + Join(ss[1..])
  }

  /** The text "key-operator-[v1 v2 ...]" under which an expression is compared. */
  function Printed(r: Requirement): string {
    (r.key + ['-'] + r.operator + ['-']) + ['['] + (Join(r.values) + "]")
  }

  function PrintedAll(s: Selector): set<string> {
    set e | e in s.matchExpressions :: Printed(e)
  }

  predicate SelectorChanged(current: Selector, previous: Selector) {
    || !GoMapEqual(current.matchLabels, previous.matchLabels)
    || |current.matchExpressions| != |previous.matchExpressions|
    || !(PrintedAll(current) <= PrintedAll(previous))
  }

  method IndexExpressions(exprs: seq<Requirement>) returns (index: map<string, Requirement>)
    ensures index.Keys == set e | e in exprs :: Printed(e)
  {
    index := map[];
    for i := 0 to |exprs|
      invariant index.Keys == set e | e in exprs[..i] :: Printed(e)
    {
      assert exprs[..i + 1] == exprs[..i] + [exprs[i]];
      index := index[Printed(exprs[i]) := exprs[i]];
    }
    assert exprs[..|exprs|] == exprs;
  }

  method NodeSelectorChanged(current: Selector, previous: Selector) returns (changed: bool)
    ensures changed == SelectorChanged(current, previous)
  {
    var sameLabels := StringMapEqual(current.matchLabels, previous.matchLabels);
    if !sameLabels {
      return true;
    }
    if |current.matchExpressions| != |previous.matchExpressions| {
      return true;
    }
    var currentExprs := IndexExpressions(current.matchExpressions);
    var previousExprs := IndexExpressions(previous.matchExpressions);
    var keys := currentExprs.Keys;
    while keys != {}
      invariant keys <= currentExprs.Keys
      invariant currentExprs.Keys - keys <= previousExprs.Keys
    {
      var k :| k in keys;
      if k !in previousExprs {
        return true;
      }
      keys := keys - {k};
    }
    return false;
  }

  // ----- Printing loses nothing on valid expressions

  lemma SplitAtFirst(x: string, c: char, r: string, y: string, s: string)
    requires x + [c] + r == y + [c] + s
    requires c !in x && c !in y
    ensures x == y && r == s
  {
    var t := x + [c] + r;
    assert t[|x|] == c && t[|y|] == c;
    assert x == t[..|x|] && y == t[..|y|];
    assert |x| == |y|;
    assert r == t[|x| + 1..] && s == t[|y| + 1..];
  }

  lemma SplitAtLast(x: string, c: char, r: string, y: string, s: string)
    requires x + [c] + r == y + [c] + s
    requires c !in r && c !in s
    ensures x == y && r == s
  {
    var t := x + [c] + r;
    assert t[|x|] == c && t[|y|] == c;
    assert r == t[|x| + 1..] && s == t[|y| + 1..];
    assert forall i :: |x| < i < |t| ==> t[i] == r[i - |x| - 1];
    assert forall i :: |y| < i < |t| ==> t[i] == s[i - |y| - 1];
    assert |x| == |y|;
    assert x == t[..|x|] && y == t[..|y|];
  }

  predicate SpaceFree(ss: seq<string>) {
    forall i :: 0 <= i < |ss| ==> ' ' !in ss[i]
  }

  lemma JoinSpaces(a: seq<string>)
    requires a != [] && SpaceFree(a)
    ensures ' ' in Join(a) <==> |a| > 1
  {
  }

  lemma {:induction false} JoinInjective(a: seq<string>, b: seq<string>)
    requires a != [] && b != [] && SpaceFree(a) && SpaceFree(b)
    requires Join(a) == Join(b)
    ensures a == b
  {
    JoinSpaces(a);
    JoinSpaces(b);
    if |a| == 1 {
      assert a == [a[0]] && b == [b[0]];
    } else {
      SplitAtFirst(a[0], ' ', Join(a[1..]), b[0], Join(b[1..]));
      JoinInjective(a[1..], b[1..]);
      assert a == [a[0]] + a[1..] && b == [b[0]] + b[1..];
    }
  }

  lemma HeadInjective(r: Requirement, q: Requirement)
    requires KnownOperator(r.operator) && KnownOperator(q.operator)
    requires r.key + ['-'] + r.operator + ['-'] == q.key + ['-'] + q.operator + ['-']
    ensures r.key == q.key && r.operator == q.operator
  {
    SplitAtLast(r.key + ['-'] + r.operator, '-', [], q.key + ['-'] + q.operator, []);
    assert '-' !in r.operator && '-' !in q.operator;
    SplitAtLast(r.key, '-', r.operator, q.key, q.operator);
  }

  lemma ValuesInjective(r: Requirement, q: Requirement)
    requires ValidRequirement(r) && ValidRequirement(q) && r.operator == q.operator
    requires Join(r.values) + "]" == Join(q.values) + "]"
    ensures r.values == q.values
  {
    var rTail, qTail := Join(r.values) + "]", Join(q.values) + "]";
    assert Join(r.values) == rTail[..|rTail| - 1] && Join(q.values) == qTail[..|qTail| - 1];
    if r.values != [] {
      JoinInjective(r.values, q.values);
    }
  }

  /** Valid expressions that print alike are alike. */
  lemma PrintedInjective(r: Requirement, q: Requirement)
    requires ValidRequirement(r) && ValidRequirement(q)
    requires Printed(r) == Printed(q)
    ensures r == q
  {
    hide Join;
    var rHead, qHead := r.key + ['-'] + r.operator + ['-'], q.key + ['-'] + q.operator + ['-'];
    assert '[' !in rHead && '[' !in qHead;
    SplitAtFirst(rHead, '[', Join(r.values) + "]", qHead, Join(q.values) + "]");
    HeadInjective(r, q);
    ValuesInjective(r, q);
  }

  // ----- When "not changed" can be trusted

  function Expressions(s: Selector): set<Requirement> {
    set e | e in s.matchExpressions
  }

  predicate SameRequirements(s: Selector, t: Selector) {
    s.matchLabels == t.matchLabels && Expressions(s) == Expressions(t)
  }

  lemma SameRequirementsSameMatches(s: Selector, t: Selector, labels: map<string, string>)
    requires SameRequirements(s, t)
    ensures Applies(s, labels) == Applies(t, labels)
  {
    assert forall e :: e in s.matchExpressions <==> e in Expressions(s);
    assert forall e :: e in t.matchExpressions <==> e in Expressions(t);
    assert forall e :: e in Expressions(s) <==> e in Expressions(t);
  }

  /** What a caller can check beforehand to know that a missed change is impossible. */
  predicate NoBlindSpot(current: Selector, previous: Selector) {
    && ValidExpressions(current) && ValidExpressions(previous)
    && EmptyValuesShared(current.matchLabels, previous.matchLabels)
    && |PrintedAll(current)| == |PrintedAll(previous)|
  }

  /**
   * On valid expressions, an unnoticed change is no change exactly when no empty-valued label
   * differs and both selectors print equally many distinct expressions.
   */
  lemma UnchangedExact(current: Selector, previous: Selector)
    requires ValidExpressions(current) && ValidExpressions(previous)
    requires !SelectorChanged(current, previous)
    ensures SameRequirements(current, previous) <==> NoBlindSpot(current, previous)
  {
    GoMapEqualExact(current.matchLabels, previous.matchLabels);
    if NoBlindSpot(current, previous) {
      Seqs.SubsetSameSize(PrintedAll(current), PrintedAll(previous));
      forall e | e in Expressions(current)
        ensures e in Expressions(previous)
      {
        assert Printed(e) in PrintedAll(previous);
        var q :| q in previous.matchExpressions && Printed(q) == Printed(e);
        PrintedInjective(e, q);
      }
      forall e | e in Expressions(previous)
        ensures e in Expressions(current)
      {
        assert Printed(e) in PrintedAll(current);
        var q :| q in current.matchExpressions && Printed(q) == Printed(e);
        PrintedInjective(e, q);
      }
    }
    if SameRequirements(current, previous) {
      assert forall e :: e in current.matchExpressions <==> e in Expressions(current);
      assert forall e :: e in previous.matchExpressions <==> e in Expressions(previous);
      assert PrintedAll(current) == PrintedAll(previous);
    }
  }

  lemma UnchangedSound(current: Selector, previous: Selector, labels: map<string, string>)
    requires NoBlindSpot(current, previous)
    requires !SelectorChanged(current, previous)
    ensures Applies(current, labels) == Applies(previous, labels)
  {
    UnchangedExact(current, previous);
    SameRequirementsSameMatches(current, previous, labels);
  }

  /** Where the comparison has nothing to miss and expressions are not repeated, it reports exactly the real changes. */
  lemma ChangedExact(current: Selector, previous: Selector)
    requires NoBlindSpot(current, previous)
    requires Seqs.Distinct(current.matchExpressions) && Seqs.Distinct(previous.matchExpressions)
    ensures SelectorChanged(current, previous) <==> !SameRequirements(current, previous)
  {
    if SameRequirements(current, previous) {
      assert forall e :: e in current.matchExpressions <==> e in Expressions(current);
      assert forall e :: e in previous.matchExpressions <==> e in Expressions(previous);
      PrintedAllDistinct(current);
      PrintedAllDistinct(previous);
      GoMapEqualMeaning(current.matchLabels, previous.matchLabels);
    } else if !SelectorChanged(current, previous) {
      UnchangedExact(current, previous);
    }
  }

  lemma PrintedAllDistinct(s: Selector)
    requires ValidExpressions(s)
    ensures |PrintedAll(s)| <= |s.matchExpressions|
    ensures Seqs.Distinct(s.matchExpressions) ==> |PrintedAll(s)| == |s.matchExpressions|
  {
    var printed := seq(|s.matchExpressions|,
                       i requires 0 <= i < |s.matchExpressions| => Printed(s.matchExpressions[i]));
    assert Seqs.Elems(printed) == PrintedAll(s) by {
      forall p | p in PrintedAll(s)
        ensures p in printed
      {
        var e :| e in s.matchExpressions && Printed(e) == p;
        var i :| 0 <= i < |s.matchExpressions| && s.matchExpressions[i] == e;
        assert printed[i] == p;
      }
    }
    Seqs.ElemsSize(printed);
    if Seqs.Distinct(s.matchExpressions) {
      forall i, j | 0 <= i < j < |printed|
        ensures printed[i] != printed[j]
      {
        if printed[i] == printed[j] {
          PrintedInjective(s.matchExpressions[i], s.matchExpressions[j]);
        }
      }
    }
  }

  /** Valid, pairwise distinct current expressions and shared empty values suffice. */
  lemma DistinctExpressionsSuffice(current: Selector, previous: Selector)
    requires ValidExpressions(current) && ValidExpressions(previous)
    requires Seqs.Distinct(current.matchExpressions)
    requires EmptyValuesShared(current.matchLabels, previous.matchLabels)
    requires !SelectorChanged(current, previous)
    ensures NoBlindSpot(current, previous)
  {
    PrintedAllDistinct(current);
    PrintedAllDistinct(previous);
    Seqs.SubsetSize(PrintedAll(current), PrintedAll(previous));
  }

  /** Without expressions the blind spot is semantic: it is there exactly when some node can tell. */
  lemma LabelsOnlyExact(current: Selector, previous: Selector)
    requires ValidSelector(current) && ValidSelector(previous)
    requires current.matchExpressions == [] && previous.matchExpressions == []
    requires !SelectorChanged(current, previous)
    ensures EmptyValuesShared(current.matchLabels, previous.matchLabels)
            <==> forall labels :: Applies(current, labels) == Applies(previous, labels)
  {
    if EmptyValuesShared(current.matchLabels, previous.matchLabels) {
      GoMapEqualExact(current.matchLabels, previous.matchLabels);
    } else {
      var node := previous.matchLabels;
      assert Applies(previous, node) && !Applies(current, node);
    }
  }

  const WORKER := "node-role.kubernetes.io/worker"
  const CONTROL_PLANE := "node-role.kubernetes.io/control-plane"

  lemma WorkerApplies()
    ensures Applies(Selector(map[WORKER := ""], []), map[WORKER := ""])
  {
  }

  /** Moving a rule from worker to control-plane nodes goes unnoticed: both labels have the value "". */
  lemma EmptyLabelMoveUnnoticed()
    ensures
      var worker, control := Selector(map[WORKER := ""], []), Selector(map[CONTROL_PLANE := ""], []);
      && !SelectorChanged(control, worker)
      && Matches(worker, map[WORKER := ""]) && !Matches(control, map[WORKER := ""])
  {
  }

  /** A repeated expression hides a dropped one. */
  lemma RepeatedExpressionUnnoticed()
    ensures
      var a, b := Requirement("a", "Exists", []), Requirement("b", "Exists", []);
      !SelectorChanged(Selector(map[], [a, a]), Selector(map[], [a, b]))
      && Applies(Selector(map[], [a, a]), map["a" := ""]) && !Applies(Selector(map[], [a, b]), map["a" := ""])
  {
    var a, b := Requirement("a", "Exists", []), Requirement("b", "Exists", []);
    var s := Selector(map[], [a, b]);
    assert a in s.matchExpressions && b in s.matchExpressions;
  }
}
