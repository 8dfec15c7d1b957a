/**
 * Get-modify-update loops against a versioned store, at the grain of single API calls, with any
 * writes of others before each Get and between each Get and its Update.
 */
module Retry {
  import Seqs
  import opened Api
  import opened StatusLists
  import opened Cluster

  datatype Entry<+T> = Entry(value: T, version: nat)

  /** Every accepted write takes the next version from the clock. */
  datatype State<+T> = State(objects: map<string, Entry<T>>, clock: nat)

  datatype Write<+T> = Put(name: string, value: T) | Remove(name: string)

  predicate Sane<T>(s: State<T>) {
    forall n :: n in s.objects ==> s.objects[n].version < s.clock
  }

  function Apply<T>(s: State<T>, w: Write<T>): State<T> {
    match w
    case Put(n, v) => State(s.objects[n := Entry(v, s.clock)], s.clock + 1)
    case Remove(n) => State(s.objects - {n}, s.clock)
  }

  function ApplyAll<T>(s: State<T>, ws: seq<Write<T>>): State<T> {
    if ws == [] then s else Apply(ApplyAll(s, ws[..|ws| - 1]), ws[|ws| - 1])
  }

  lemma {:induction false} ApplyAllAppend<T>(s: State<T>, a: seq<Write<T>>, b: seq<Write<T>>)
    ensures ApplyAll(s, a + b) == ApplyAll(ApplyAll(s, a), b)
  {
    if b == [] {
      assert a + b == a;
    } else {
      ApplyAllAppend(s, a, b[..|b| - 1]);
      assert (a + b)[..|a + b| - 1] == a + b[..|b| - 1];
    }
  }

  /** Whatever others write, an object still at the same version has not been touched. */
  lemma {:induction false} VersionPinsContent<T>(s: State<T>, ws: seq<Write<T>>, n: string)
    requires Sane(s)
    ensures Sane(ApplyAll(s, ws)) && ApplyAll(s, ws).clock >= s.clock
    ensures n in ApplyAll(s, ws).objects ==>
              || (n in s.objects && ApplyAll(s, ws).objects[n] == s.objects[n])
              || ApplyAll(s, ws).objects[n].version >= s.clock
  {
    if ws != [] {
      VersionPinsContent(s, ws[..|ws| - 1], n);
    }
  }

  /** One attempt's surroundings: what others write around it and which of its calls are rejected. */
  datatype Attempt<+T> = Attempt(beforeGet: seq<Write<T>>, beforeUpdate: seq<Write<T>>, getFails: bool,
                                 updateFails: bool)

  datatype Outcome = Accepted | Unneeded | Failed | Exhausted
  datatype Retried<+T> = Retried(state: State<T>, outcome: Outcome)

  /**
   * Retry on conflict, once per attempt; any other error ends the loop, and so does a body with nothing
   * to write. An update at the current version is refused if the value is not acceptable.
   */
  function Retrying<T>(
    s: State<T>, name: string, body: T -> Option<T>, accepts: T -> bool, attempts: seq<Attempt<T>>): Retried<T>
    decreases |attempts|
  {
    if attempts == [] then Retried(s, Exhausted)
    else
      var s1 := ApplyAll(s, attempts[0].beforeGet);
      if attempts[0].getFails || name !in s1.objects then Retried(s1, Failed)
      else
        var read := s1.objects[name];
        match body(read.value)
        case None => Retried(s1, Unneeded)
        case Some(v) =>
          var s2 := ApplyAll(s1, attempts[0].beforeUpdate);
          if attempts[0].updateFails || name !in s2.objects then Retried(s2, Failed)
          else if s2.objects[name].version != read.version then Retrying(s2, name, body, accepts, attempts[1..])
          else if !accepts(v) then Retried(s2, Failed)
          else Retried(Apply(s2, Put(name, v)), Accepted)
  }

  // ----- The loop as a program

  class VersionedStore<T> {
    const accepts: T -> bool
    var state: State<T>

    constructor (schema: T -> bool)
      ensures accepts == schema && state == State(map[], 0)
    {
      accepts, state := schema, State(map[], 0);
    }

    method Get(name: string, rejected: bool) returns (r: Option<Entry<T>>)
      ensures r == if !rejected && name in state.objects then Some(state.objects[name]) else None
    {
      return if !rejected && name in state.objects then Some(state.objects[name]) else None;
    }

    /** Succeeds only if the stored version is the one that was read; a conflict shows before a refusal. */
    method Update(name: string, value: T, version: nat, rejected: bool) returns (ok: bool, conflict: bool)
      modifies this
      ensures ok <==>
                && !rejected && name in old(state.objects)
                && old(state.objects)[name].version == version && accepts(value)
      ensures conflict <==> !rejected && name in old(state.objects) && old(state.objects)[name].version != version
      ensures state == if ok then Apply(old(state), Put(name, value)) else old(state)
    {
      ok, conflict := false, false;
      if rejected || name !in state.objects {
        return;
      }
      if state.objects[name].version != version {
        conflict := true;
        return;
      }
      ok := accepts(value);
      if ok {
        state := Apply(state, Put(name, value));
      }
    }

    method OthersWrite(ws: seq<Write<T>>)
      modifies this
      ensures state == ApplyAll(old(state), ws)
    {
      for i := 0 to |ws|
        invariant state == ApplyAll(old(state), ws[..i])
      {
        assert ws[..i + 1][..i] == ws[..i];
        state := Apply(state, ws[i]);
      }
      assert ws[..|ws|] == ws;
    }

    method RetryOnConflict(name: string, body: T -> Option<T>, attempts: seq<Attempt<T>>) returns (outcome: Outcome)
      modifies this
      ensures Retried(state, outcome) == Retrying(old(state), name, body, accepts, attempts)
    {
      for i := 0 to |attempts|
        invariant Retrying(old(state), name, body, accepts, attempts)
                  == Retrying(state, name, body, accepts, attempts[i..])
      {
        assert attempts[i..][1..] == attempts[i + 1..];
        OthersWrite(attempts[i].beforeGet);
        var read := Get(name, attempts[i].getFails);
        if read.None? {
          return Failed;
        }
        var next := body(read.value.value);
        if next.None? {
          return Unneeded;
        }
        OthersWrite(attempts[i].beforeUpdate);
        var ok, conflict := Update(name, next.value, read.value.version, attempts[i].updateFails);
        if ok {
          return Accepted;
        }
        if !conflict {
          return Failed;
        }
      }
      return Exhausted;
    }
  }

  // ----- No lost update

  /** What others write around the calls the loop makes, in order. */
  function Interference<T>(s: State<T>, name: string, body: T -> Option<T>, attempts: seq<Attempt<T>>): seq<Write<T>>
    decreases |attempts|
  {
    if attempts == [] then []
    else
      var a := attempts[0];
      var s1 := ApplyAll(s, a.beforeGet);
      if a.getFails || name !in s1.objects || body(s1.objects[name].value).None? then a.beforeGet
      else
        var s2 := ApplyAll(s1, a.beforeUpdate);
        a.beforeGet + a.beforeUpdate +
        if !a.updateFails && name in s2.objects && s2.objects[name].version != s1.objects[name].version
        then Interference(s2, name, body, attempts[1..]) else []
  }

  /** The state after those writes alone. */
  function LeftByOthers<T>(s: State<T>, name: string, body: T -> Option<T>, attempts: seq<Attempt<T>>): State<T> {
    ApplyAll(s, Interference(s, name, body, attempts))
  }

  function AllWrites<T>(attempts: seq<Attempt<T>>): seq<Write<T>> {
    if attempts == [] then [] else attempts[0].beforeGet + attempts[0].beforeUpdate + AllWrites(attempts[1..])
  }

  lemma PrefixAppend<T>(a: seq<T>, b: seq<T>, c: seq<T>)
    requires b <= c
    ensures a <= a + c && a + b <= a + c && a + [] == a
  {
  }

  /** Nothing that others wrote while the loop ran is left out: up to where the loop ends, it is all there, in order. */
  lemma {:induction false} InterferenceComplete<T>(
    s: State<T>, name: string, body: T -> Option<T>, accepts: T -> bool, attempts: seq<Attempt<T>>)
    ensures Interference(s, name, body, attempts) <= AllWrites(attempts)
    ensures Retrying(s, name, body, accepts, attempts).outcome == Exhausted ==>
              Interference(s, name, body, attempts) == AllWrites(attempts)
    decreases |attempts|
  {
    hide ApplyAll, Apply;
    if attempts != [] {
      var a := attempts[0];
      var s2 := ApplyAll(ApplyAll(s, a.beforeGet), a.beforeUpdate);
      var rest := Interference(s2, name, body, attempts[1..]);
      InterferenceComplete(s2, name, body, accepts, attempts[1..]);
      PrefixAppend(a.beforeGet + a.beforeUpdate, rest, AllWrites(attempts[1..]));
      PrefixAppend(a.beforeGet, [], a.beforeUpdate + AllWrites(attempts[1..]));
      assert a.beforeGet + (a.beforeUpdate + AllWrites(attempts[1..])) == AllWrites(attempts);
    }
  }

  /**
   * For any interleaving and any number of attempts: an accepted loop adds to the writes of others
   * exactly one write of its own, computed from the value stored immediately before it. A loop that is
   * not accepted adds nothing, and one that found nothing to write saw the value that is stored.
   */
  lemma {:induction false} NoLostUpdate<T>(
    s: State<T>, name: string, body: T -> Option<T>, accepts: T -> bool, attempts: seq<Attempt<T>>)
    requires Sane(s)
    ensures var r, before := Retrying(s, name, body, accepts, attempts), LeftByOthers(s, name, body, attempts);
            match r.outcome
            case Accepted =>
              && name in before.objects && body(before.objects[name].value).Some?
              && accepts(body(before.objects[name].value).value)
              && r.state == Apply(before, Put(name, body(before.objects[name].value).value))
            case Unneeded => r.state == before && name in before.objects && body(before.objects[name].value).None?
            case _ => r.state == before
    decreases |attempts|
  {
    if attempts != [] {
      var a := attempts[0];
      var s1 := ApplyAll(s, a.beforeGet);
      VersionPinsContent(s, a.beforeGet, name);
      if !a.getFails && name in s1.objects && body(s1.objects[name].value).Some? {
        var s2 := ApplyAll(s1, a.beforeUpdate);
        VersionPinsContent(s1, a.beforeUpdate, name);
        ApplyAllAppend(s, a.beforeGet, a.beforeUpdate);
        if !a.updateFails && name in s2.objects && s2.objects[name].version != s1.objects[name].version {
          NoLostUpdate(s2, name, body, accepts, attempts[1..]);
          ApplyAllAppend(s, a.beforeGet + a.beforeUpdate, Interference(s2, name, body, attempts[1..]));
        } else {
          assert a.beforeGet + a.beforeUpdate + [] == a.beforeGet + a.beforeUpdate;
        }
      }
    }
  }

  // ----- When the loop gets through

  ghost predicate Touches<T>(ws: seq<Write<T>>, name: string) {
    exists w :: w in ws && w.name == name
  }

  ghost predicate Removes<T>(ws: seq<Write<T>>, name: string) {
    exists w :: w in ws && w.Remove? && w.name == name
  }

  lemma {:induction false} UntouchedKept<T>(s: State<T>, ws: seq<Write<T>>, name: string)
    ensures !Removes(ws, name) && name in s.objects ==> name in ApplyAll(s, ws).objects
    ensures !Touches(ws, name) && name in s.objects ==>
              name in ApplyAll(s, ws).objects && ApplyAll(s, ws).objects[name] == s.objects[name]
  {
    if ws != [] {
      var n := |ws| - 1;
      assert ws[n] in ws && forall w :: w in ws[..n] ==> w in ws;
      UntouchedKept(s, ws[..n], name);
    }
  }

  /**
   * If no call up to attempt k fails, nobody removes the object, and nobody touches it between the read and
   * the update of attempt k, a loop with something acceptable to write is accepted: conflicts are retried.
   */
  lemma {:induction false} RetrySucceeds<T(!new)>(
    s: State<T>, name: string, body: T -> Option<T>, accepts: T -> bool, attempts: seq<Attempt<T>>, k: nat)
    requires name in s.objects && forall v :: body(v).Some? && accepts(body(v).value)
    requires k < |attempts| && !Touches(attempts[k].beforeUpdate, name)
    requires forall i :: 0 <= i <= k ==>
               && !attempts[i].getFails && !attempts[i].updateFails
               && !Removes(attempts[i].beforeGet, name) && !Removes(attempts[i].beforeUpdate, name)
    ensures Retrying(s, name, body, accepts, attempts).outcome == Accepted
    decreases k
  {
    var a := attempts[0];
    var s1 := ApplyAll(s, a.beforeGet);
    var s2 := ApplyAll(s1, a.beforeUpdate);
    UntouchedKept(s, a.beforeGet, name);
    UntouchedKept(s1, a.beforeUpdate, name);
    if k > 0 {
      RetrySucceeds(s2, name, body, accepts, attempts[1..], k - 1);
    }
  }

  /** The loop runs out of attempts only if somebody touched the object in every one of them. */
  lemma {:induction false} ExhaustedMeans<T>(
    s: State<T>, name: string, body: T -> Option<T>, accepts: T -> bool, attempts: seq<Attempt<T>>)
    requires Retrying(s, name, body, accepts, attempts).outcome == Exhausted
    ensures forall i :: 0 <= i < |attempts| ==> Touches(attempts[i].beforeUpdate, name)
    decreases |attempts|
  {
    if attempts != [] {
      var s1 := ApplyAll(s, attempts[0].beforeGet);
      var s2 := ApplyAll(s1, attempts[0].beforeUpdate);
      UntouchedKept(s1, attempts[0].beforeUpdate, name);
      ExhaustedMeans(s2, name, body, accepts, attempts[1..]);
      assert forall i :: 0 < i < |attempts| ==> attempts[i] == attempts[1..][i - 1];
    }
  }

  // ----- The loops of the controller

  function MarkBody(rule: string): Node -> Option<Node> {
    (node: Node) => LatchBody(node, rule)
  }

  function WithStatus(rule: Rule, status: Option<Status>): Option<Rule> {
    match status
    case None => None
    case Some(s) => Some(rule.(status := s))
  }

  function MergeBody(cached: Status, node: string): Rule -> Option<Rule> {
    (rule: Rule) => WithStatus(rule, Merged(cached, rule.status, node))
  }

  function PruneBody(existing: set<string>): Rule -> Option<Rule> {
    (rule: Rule) => WithStatus(rule, Pruned(existing, rule.status))
  }

  /** Publishing replaces the status whatever it has become meanwhile. */
  function PublishBody(status: Status): Rule -> Option<Rule> {
    (rule: Rule) => Some(rule.(status := status))
  }

  /** Any node may be stored, as far as the controller changes it; a rule's status must fit the schema. */
  function AnyNode(): Node -> bool {
    (node: Node) => true
  }

  function Schema(): Rule -> bool {
    (rule: Rule) => SchemaAccepts(rule.status)
  }

  /** Marking completion changes one annotation key of the node as others left it, or finds the key there. */
  lemma MarkLosesNothing(s: State<Node>, n: string, rule: string, attempts: seq<Attempt<Node>>)
    requires Sane(s)
    ensures var r, before := Retrying(s, n, MarkBody(rule), AnyNode(), attempts),
            LeftByOthers(s, n, MarkBody(rule), attempts);
            && (r.outcome == Accepted ==>
                  && n in before.objects && n in r.state.objects
                     && LatchKey(rule) !in before.objects[n].value.annotations
                  && var was, now := before.objects[n].value, r.state.objects[n].value;
                     && now == was.(annotations := now.annotations)
                     && now.annotations == was.annotations[LatchKey(rule) := "true"]
                     && r.state.objects - {n} == before.objects - {n})
            && (r.outcome == Unneeded ==>
                  r.state == before && n in before.objects && LatchKey(rule) in before.objects[n].value.annotations)
            && (r.outcome == Failed || r.outcome == Exhausted ==> r.state == before)
  {
    NoLostUpdate(s, n, MarkBody(rule), AnyNode(), attempts);
    hide Retrying, LeftByOthers, LatchKey;
  }

  /** Pruning drops exactly the entries whose node is not in the snapshot, from the list as others left it. */
  lemma PruneLosesNothing(s: State<Rule>, r: string, existing: set<string>, attempts: seq<Attempt<Rule>>)
    requires Sane(s)
    ensures var after, before := Retrying(s, r, PruneBody(existing), Schema(), attempts),
            LeftByOthers(s, r, PruneBody(existing), attempts);
            && (after.outcome == Accepted ==>
                  && r in before.objects && r in after.state.objects
                  && var was, now := before.objects[r].value, after.state.objects[r].value;
                     && now == was.(status := was.status.(nodeEvaluations := now.status.nodeEvaluations))
                     && now.status.nodeEvaluations == Seqs.Filter(was.status.nodeEvaluations, Exists(existing))
                     && after.state.objects - {r} == before.objects - {r})
            && (after.outcome == Unneeded ==>
                  && after.state == before && r in before.objects
                  && forall e :: e in before.objects[r].value.status.nodeEvaluations ==> e.nodeName in existing)
            && (after.outcome == Failed || after.outcome == Exhausted ==> after.state == before)
  {
    NoLostUpdate(s, r, PruneBody(existing), Schema(), attempts);
    hide Retrying, LeftByOthers;
    var before := LeftByOthers(s, r, PruneBody(existing), attempts);
    if r in before.objects {
      PrunedMeaning(existing, before.objects[r].value.status);
    }
  }

  lemma MergeBodyMeaning(cached: Status, rule: Rule, node: string)
    ensures var r := MergeBody(cached, node)(rule);
            && (r.Some? <==> HasEntry(rule.status.nodeEvaluations, node))
            && (r.Some? ==>
                  && r.value == rule.(status := r.value.status)
                  && Merged(cached, rule.status, node) == Some(r.value.status)
                  && (Schema()(r.value) <==> SchemaAccepts(r.value.status))
                  && (SchemaAccepts(r.value.status) ==> HasEntry(cached.nodeEvaluations, node)))
  {
    hide SchemaAccepts, HasEntry;
    HasEntryIndex(rule.status.nodeEvaluations, node);
    NoEntryRefused(cached, rule.status, node);
  }

  /**
   * Merging one node's status touches that node's entries in the lists as others left them, and needs a
   * cached entry.
   */
  lemma MergeLosesNothing(s: State<Rule>, r: string, cached: Status, node: string, attempts: seq<Attempt<Rule>>)
    requires Sane(s)
    ensures var after, before := Retrying(s, r, MergeBody(cached, node), Schema(), attempts),
            LeftByOthers(s, r, MergeBody(cached, node), attempts);
            && (after.outcome == Accepted ==>
                  && r in before.objects && r in after.state.objects
                  && var was, now := before.objects[r].value, after.state.objects[r].value;
                     && HasEntry(was.status.nodeEvaluations, node)
                     && HasEntry(cached.nodeEvaluations, node) && SchemaAccepts(now.status)
                     && now == was.(status := now.status) && Merged(cached, was.status, node) == Some(now.status)
                     && after.state.objects - {r} == before.objects - {r})
            && (after.outcome == Unneeded ==>
                  after.state == before && r in before.objects
                    && !HasEntry(before.objects[r].value.status.nodeEvaluations, node))
            && (after.outcome == Failed || after.outcome == Exhausted ==> after.state == before)
  {
    NoLostUpdate(s, r, MergeBody(cached, node), Schema(), attempts);
    hide Retrying, LeftByOthers, MergeBody, Merged, HasEntry, SchemaAccepts;
    var before := LeftByOthers(s, r, MergeBody(cached, node), attempts);
    if r in before.objects {
      MergeBodyMeaning(cached, before.objects[r].value, node);
    }
  }

  /** Publishing a whole rule status forgets every status change made since it was computed. */
  lemma PublishOverwrites(s: State<Rule>, r: string, status: Status, attempts: seq<Attempt<Rule>>)
    requires Sane(s)
    ensures var after, before := Retrying(s, r, PublishBody(status), Schema(), attempts),
            LeftByOthers(s, r, PublishBody(status), attempts);
            && after.outcome != Unneeded
            && (after.outcome == Accepted ==>
                  && SchemaAccepts(status) && r in before.objects && r in after.state.objects
                  && after.state.objects[r].value == before.objects[r].value.(status := status)
                  && after.state.objects - {r} == before.objects - {r})
  {
    NoLostUpdate(s, r, PublishBody(status), Schema(), attempts);
    hide Retrying, LeftByOthers;
  }

  // ----- Undisturbed, a loop is one call

  predicate Quiet<T>(attempts: seq<Attempt<T>>) {
    attempts != [] && |attempts[0].beforeGet| == 0 && |attempts[0].beforeUpdate| == 0
  }

  function Values<T>(s: State<T>): map<string, T> {
    map n | n in s.objects :: s.objects[n].value
  }

  /** Without other writers the first attempt decides: one read, one body, one write, and what stopped short. */
  lemma QuietRetry<T>(s: State<T>, name: string, body: T -> Option<T>, accepts: T -> bool, attempts: seq<Attempt<T>>)
    requires Quiet(attempts)
    ensures var r, a := Retrying(s, name, body, accepts, attempts), attempts[0];
            if a.getFails || name !in s.objects then r == Retried(s, Failed)
            else match body(s.objects[name].value)
              case None => r == Retried(s, Unneeded)
              case Some(v) =>
                if a.updateFails || !accepts(v) then r == Retried(s, Failed)
                else r.outcome == Accepted && Values(r.state) == Values(s)[name := v]
  {
  }

  /** So the reconcilers may treat marking as a single call that is accepted or rejected. */
  lemma QuietMark(s: State<Node>, n: string, rule: string, attempts: seq<Attempt<Node>>, f: Faults)
    requires Quiet(attempts) && f(MarkLatch(n, rule)) == (attempts[0].getFails || attempts[0].updateFails)
    ensures Values(Retrying(s, n, MarkBody(rule), AnyNode(), attempts).state) == Marked(f, Values(s), n, rule)
  {
    hide Retrying, LatchKey;
    QuietRetry(s, n, MarkBody(rule), AnyNode(), attempts);
  }

  /** And likewise the status write of a node pass. */
  lemma QuietMerge(s: State<Rule>, cached: Rule, node: string, attempts: seq<Attempt<Rule>>, f: Faults)
    requires Quiet(attempts) && f(MergeStatus(node, cached.name)) == (attempts[0].getFails || attempts[0].updateFails)
    ensures Values(Retrying(s, cached.name, MergeBody(cached.status, node), Schema(), attempts).state)
            == StatusMerged(f, Values(s), cached, node)
  {
    hide Retrying, Merged, SchemaAccepts;
    QuietRetry(s, cached.name, MergeBody(cached.status, node), Schema(), attempts);
  }
}
