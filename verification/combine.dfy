/** The AND/OR combination of set results: Sections 14.6 and 14.7 of draft-ietf-dkim-dkim2-spec-09. */
module Combine {
  import opened Octets
  import opened Layouts
  import opened Sorting

  datatype Verdict = Pass | Fail | TempError | PermError

  /** The overall result and the set that explains it. */
  datatype Outcome = Outcome(result: Verdict, decisive: nat)

  /** The two rule books. */
  datatype Kind = Signatures | Hashes

  /** A layout that fits the results; hash results are never temporary errors. */
  predicate Coherent(l: Layout, results: seq<Verdict>, kind: Kind) {
    && l.Valid() && l.Sets() == |results|
    && (kind == Hashes ==> TempError !in results)
  }

  // ---- The rules, said of the members of a group and of the groups

  predicate AllPass(results: seq<Verdict>) {
    forall i | 0 <= i < |results| :: results[i] == Pass
  }

  predicate FailuresTemporary(results: seq<Verdict>) {
    forall i | 0 <= i < |results| && results[i] != Pass :: results[i] == TempError
  }

  function AllRule(kind: Kind, results: seq<Verdict>): Verdict {
    if AllPass(results) then Pass
    else if kind == Signatures && FailuresTemporary(results) then TempError
    else if Fail in results then Fail
    else PermError
  }

  function AnyRule(kind: Kind, groups: seq<Verdict>): Verdict {
    if Pass in groups then Pass
    else if kind == Signatures && TempError in groups then TempError
    else if Fail in groups then Fail
    else PermError
  }

  /** The results of one group. */
  function Group(l: Layout, results: seq<Verdict>, g: nat): (r: seq<Verdict>)
    requires l.Valid() && l.Sets() == |results| && g < l.groups
    ensures |r| >= 1
  {
    Bounds(l, g);
    results[l.Start(g)..l.Start(g + 1)]
  }

  lemma Bounds(l: Layout, g: nat)
    requires l.Valid() && g < l.groups
    ensures l.Start(g) < l.Start(g + 1) <= l.Sets() && l.Start(g + 1) == l.Start(g) + l.sizes[g]
  {
    SumStep(l.sizes, g);
    assert l.InUse()[g] == l.sizes[g];
    SumPrefix(l.sizes, g + 1, l.groups);
  }

  function GroupVerdicts(l: Layout, results: seq<Verdict>, kind: Kind): (r: seq<Verdict>)
    requires l.Valid() && l.Sets() == |results|
    ensures |r| == l.groups && forall g | 0 <= g < |r| :: r[g] == AllRule(kind, Group(l, results, g))
  {
    seq(l.groups, g requires 0 <= g < l.groups => AllRule(kind, Group(l, results, g)))
  }

  /** The overall result. */
  function Overall(l: Layout, results: seq<Verdict>, kind: Kind): Verdict
    requires l.Valid() && l.Sets() == |results|
  {
    AnyRule(kind, GroupVerdicts(l, results, kind))
  }

  // ---- The evaluators

  method SignatureAll(results: seq<Verdict>) returns (r: Verdict)
    ensures r == AllRule(Signatures, results)
  {
    var allPass, nonPassAllTemp, anyFail := true, true, false;
    var i := 0;
    while i < |results|
      invariant 0 <= i <= |results|
      invariant allPass <==> AllPass(results[..i])
      invariant nonPassAllTemp <==> FailuresTemporary(results[..i])
      invariant anyFail <==> Fail in results[..i]
    {
      if results[i] != Pass {
        allPass := false;
        if results[i] != TempError {
          nonPassAllTemp := false;
        }
        if results[i] == Fail {
          anyFail := true;
        }
      }
      assert results[..i + 1] == results[..i] + [results[i]];
      i := i + 1;
    }
    assert results[..i] == results;
    if allPass {
      return Pass;
    }
    if nonPassAllTemp {
      return TempError;
    }
    return if anyFail then Fail else PermError;
  }

  method HashAll(results: seq<Verdict>) returns (r: Verdict)
    ensures r == AllRule(Hashes, results)
  {
    var allPass, anyFail := true, false;
    var i := 0;
    while i < |results|
      invariant 0 <= i <= |results|
      invariant allPass <==> AllPass(results[..i])
      invariant anyFail <==> Fail in results[..i]
    {
      assert results[..i + 1] == results[..i] + [results[i]];
      allPass := allPass && results[i] == Pass;
      anyFail := anyFail || results[i] == Fail;
      i := i + 1;
    }
    assert results[..i] == results;
    if allPass {
      return Pass;
    }
    return if anyFail then Fail else PermError;
  }

  /** The first candidate, in order of precedence, that occurs at all. */
  method FirstPresent(results: seq<Verdict>, precedence: seq<Verdict>) returns (r: Verdict)
    ensures (exists k :: 0 <= k < |precedence| && precedence[k] == r && r in results && FirstOf(precedence, k, results))
      || (r == PermError && forall k | 0 <= k < |precedence| :: precedence[k] !in results)
  {
    var k := 0;
    while k < |precedence|
      invariant 0 <= k <= |precedence|
      invariant FirstOf(precedence, k, results)
    {
      var i := 0;
      while i < |results|
        invariant 0 <= i <= |results|
        invariant precedence[k] !in results[..i]
      {
        if results[i] == precedence[k] {
          return precedence[k];
        }
        assert results[..i + 1] == results[..i] + [results[i]];
        i := i + 1;
      }
      assert results[..i] == results;
      k := k + 1;
    }
    return PermError;
  }

  predicate FirstOf(precedence: seq<Verdict>, k: nat, results: seq<Verdict>) {
    forall j | 0 <= j < k && j < |precedence| :: precedence[j] !in results
  }

  method AnyOf(kind: Kind, groups: seq<Verdict>) returns (r: Verdict)
    ensures r == AnyRule(kind, groups)
  {
    var precedence := if kind == Signatures then [Pass, TempError, Fail] else [Pass, Fail];
    r := FirstPresent(groups, precedence);
    assert precedence[0] == Pass && precedence[1] == if kind == Signatures then TempError else Fail;
    assert kind == Signatures ==> precedence[2] == Fail;
  }

  /** Every result a group rule yields is carried by one of the group's sets. */
  lemma Carried(kind: Kind, results: seq<Verdict>)
    requires results != [] && (kind == Hashes ==> TempError !in results)
    ensures AllRule(kind, results) in results
  {
    var r := AllRule(kind, results);
    if r == Pass {
      assert results[0] == Pass;
    } else {
      var i :| 0 <= i < |results| && results[i] != Pass;
      if r == TempError {
        assert results[i] == TempError;
      } else if r == PermError {
        if kind == Signatures {
          var j :| 0 <= j < |results| && results[j] != Pass && results[j] != TempError;
          assert results[j] == PermError;
        } else {
          assert results[i] == PermError;
        }
      }
    }
  }

  /** Every overall result is the result of some group. */
  lemma OverallCarried(kind: Kind, groups: seq<Verdict>)
    requires groups != [] && (kind == Hashes ==> TempError !in groups)
    ensures AnyRule(kind, groups) in groups
  {
    var v := groups[0];
    assert v in groups && (v == Pass || v == Fail || v == TempError || v == PermError);
  }

  lemma GroupsHaveNoTemp(l: Layout, results: seq<Verdict>)
    requires Coherent(l, results, Hashes)
    ensures TempError !in GroupVerdicts(l, results, Hashes)
  {
  }

  lemma GroupHasNoTemp(l: Layout, results: seq<Verdict>, kind: Kind, g: nat)
    requires Coherent(l, results, kind) && g < l.groups
    ensures kind == Hashes ==> TempError !in Group(l, results, g)
  {
    Bounds(l, g);
    if kind == Hashes {
      forall i | 0 <= i < |Group(l, results, g)| ensures Group(l, results, g)[i] != TempError {
        assert Group(l, results, g)[i] == results[l.Start(g) + i];
      }
    }
  }

  /** The first place at or after `from` that holds a verdict. */
  predicate FirstAt(verdicts: seq<Verdict>, from: nat, i: int, verdict: Verdict) {
    from <= i < |verdicts| && verdicts[i] == verdict && forall j | from <= j < i :: verdicts[j] != verdict
  }

  /** The decisive set: in the first group whose own result is the overall one, the first set that carries it. */
  ghost predicate Decisive(l: Layout, results: seq<Verdict>, kind: Kind, index: nat)
    requires l.Valid() && l.Sets() == |results|
  {
    var overall := Overall(l, results, kind);
    exists g :: 0 <= g < l.groups && FirstAt(GroupVerdicts(l, results, kind), 0, g, overall)
      && FirstAt(results, l.Start(g), index, overall) && index < l.Start(g + 1)
  }

  /** Combines the results. The outcome is absent exactly on incoherent input: neither fall-through return of the
      group scan can be reached. */
  method CombineResults(l: Layout, results: seq<Verdict>, kind: Kind) returns (r: Option<Outcome>)
    ensures r.Some? <==> Coherent(l, results, kind)
    ensures r.Some? ==> r.value.result == Overall(l, results, kind) && Decisive(l, results, kind, r.value.decisive)
  {
    if !l.Valid() || l.Sets() != |results| {
      return None;
    }
    if kind == Hashes && TempError in results {
      return None;
    }
    var groups := GroupResults(l, results, kind);
    var result := AnyOf(kind, groups);
    if kind == Hashes {
      GroupsHaveNoTemp(l, results);
    }
    OverallCarried(kind, groups);
    var group := 0;
    while group < |groups|
      invariant 0 <= group <= |groups|
      invariant forall g | 0 <= g < group :: groups[g] != result
    {
      if groups[group] == result {
        assert FirstAt(groups, 0, group, result);
        var decisive := FirstCarrier(l, results, kind, group, result);
        return Some(Outcome(result, decisive));
      }
      group := group + 1;
    }
    assert false; // some group has the overall result
  }

  method GroupResults(l: Layout, results: seq<Verdict>, kind: Kind) returns (groups: seq<Verdict>)
    requires l.Valid() && l.Sets() == |results|
    ensures groups == GroupVerdicts(l, results, kind)
  {
    groups := [];
    var start, group := 0, 0;
    while group < l.groups
      invariant 0 <= group <= l.groups
      invariant start == l.Start(group) && |groups| == group
      invariant forall g | 0 <= g < group :: groups[g] == AllRule(kind, Group(l, results, g))
    {
      Bounds(l, group);
      var size := l.sizes[group];
      var verdict;
      if kind == Signatures {
        verdict := SignatureAll(results[start..start + size]);
      } else {
        verdict := HashAll(results[start..start + size]);
      }
      groups := groups + [verdict];
      start := start + size;
      group := group + 1;
    }
  }

  method FirstCarrier(l: Layout, results: seq<Verdict>, kind: Kind, g: nat, result: Verdict) returns (index: nat)
    requires Coherent(l, results, kind) && g < l.groups && result == AllRule(kind, Group(l, results, g))
    ensures FirstAt(results, l.Start(g), index, result) && index < l.Start(g + 1)
  {
    Bounds(l, g);
    GroupHasNoTemp(l, results, kind, g);
    Carried(kind, Group(l, results, g));
    index := l.Start(g);
    while index < l.Start(g + 1)
      invariant l.Start(g) <= index <= l.Start(g + 1)
      invariant forall j | l.Start(g) <= j < index :: results[j] != result
    {
      if results[index] == result {
        return;
      }
      index := index + 1;
    }
    assert false; // the group's result is carried by one of its sets
  }

  // ---- What the outcome means

  /** PASS exactly when every set of some group passes. */
  lemma PassIff(l: Layout, results: seq<Verdict>, kind: Kind)
    requires Coherent(l, results, kind)
    ensures Overall(l, results, kind) == Pass <==> exists g :: 0 <= g < l.groups && AllPass(Group(l, results, g))
  {
    var verdicts := GroupVerdicts(l, results, kind);
    if exists g :: 0 <= g < l.groups && AllPass(Group(l, results, g)) {
      var g :| 0 <= g < l.groups && AllPass(Group(l, results, g));
      assert verdicts[g] == Pass;
    }
  }

  /** A signature combination ends in a temporary error exactly when no group passes and some group fails only
      temporarily. */
  lemma TempIff(l: Layout, results: seq<Verdict>)
    requires Coherent(l, results, Signatures)
    ensures Overall(l, results, Signatures) == TempError <==>
      && (forall g | 0 <= g < l.groups :: !AllPass(Group(l, results, g)))
      && exists g :: 0 <= g < l.groups && FailuresTemporary(Group(l, results, g))
  {
    hide Group, AllPass, FailuresTemporary;
    PassIff(l, results, Signatures);
    var verdicts := GroupVerdicts(l, results, Signatures);
    if exists g :: 0 <= g < l.groups && FailuresTemporary(Group(l, results, g)) {
      var g :| 0 <= g < l.groups && FailuresTemporary(Group(l, results, g));
      assert verdicts[g] == Pass || verdicts[g] == TempError;
    }
  }

  /** What the all-rule says of one group: FAIL whenever a set fails, and PERMERROR only without any FAIL. */
  lemma AllRuleMeaning(kind: Kind, results: seq<Verdict>)
    requires kind == Hashes ==> TempError !in results
    ensures AllRule(kind, results) == Fail <==> Fail in results
    ensures AllRule(kind, results) == PermError <==> Fail !in results && PermError in results
    ensures AllRule(kind, results) == TempError <==> Fail !in results && PermError !in results && TempError in results
  {
    var r := AllRule(kind, results);
    if r != Pass {
      var i :| 0 <= i < |results| && results[i] != Pass;
      if kind == Signatures && r != TempError {
        var j :| 0 <= j < |results| && results[j] != Pass && results[j] != TempError;
        assert results[j] in results;
      }
    }
  }

  /** A combination ends in FAIL exactly when no group passes, no group fails only temporarily, and some set of some
      group fails; it ends in PERMERROR exactly when no group passes, none fails only temporarily, and no set fails. */
  lemma FailIff(l: Layout, results: seq<Verdict>, kind: Kind)
    requires Coherent(l, results, kind)
    ensures var hopeless :=
        forall g | 0 <= g < l.groups :: !AllPass(Group(l, results, g)) && !FailuresTemporary(Group(l, results, g));
      && (Overall(l, results, kind) == Fail <==>
            hopeless && exists g :: 0 <= g < l.groups && Fail in Group(l, results, g))
      && (Overall(l, results, kind) == PermError <==>
            hopeless && forall g | 0 <= g < l.groups :: Fail !in Group(l, results, g))
  {
    hide AllPass, FailuresTemporary, AllRule, Group;
    var verdicts := GroupVerdicts(l, results, kind);
    forall g | 0 <= g < l.groups
      ensures verdicts[g] == Fail <==> Fail in Group(l, results, g)
      ensures verdicts[g] in {Pass, TempError} <==>
        AllPass(Group(l, results, g)) || FailuresTemporary(Group(l, results, g))
      ensures kind == Hashes ==> verdicts[g] != TempError
    {
      GroupHasNoTemp(l, results, kind, g);
      AllRuleMeaning(kind, Group(l, results, g));
      AllRuleTemporary(kind, Group(l, results, g));
    }
    forall g | 0 <= g < l.groups && Fail in Group(l, results, g) ensures Fail in verdicts {
      assert verdicts[g] == Fail;
    }
    forall v | v in verdicts ensures exists g :: 0 <= g < l.groups && verdicts[g] == v {
    }
  }

  lemma AllRuleTemporary(kind: Kind, results: seq<Verdict>)
    requires kind == Hashes ==> TempError !in results
    ensures AllRule(kind, results) in {Pass, TempError} <==> AllPass(results) || FailuresTemporary(results)
    ensures kind == Hashes ==> AllRule(kind, results) != TempError
  {
  }

  /** The decisive set is unique. */
  lemma DecisiveUnique(l: Layout, results: seq<Verdict>, kind: Kind, a: nat, b: nat)
    requires Coherent(l, results, kind) && Decisive(l, results, kind, a) && Decisive(l, results, kind, b)
    ensures a == b
  {
    hide AllRule, AnyRule, Layout.Start;
    var verdicts, overall := GroupVerdicts(l, results, kind), Overall(l, results, kind);
    var g :| 0 <= g < l.groups && FirstAt(verdicts, 0, g, overall)
      && FirstAt(results, l.Start(g), a, overall) && a < l.Start(g + 1);
    var h :| 0 <= h < l.groups && FirstAt(verdicts, 0, h, overall)
      && FirstAt(results, l.Start(h), b, overall) && b < l.Start(h + 1);
    assert g == h;
  }

  lemma AnyRuleByMembers(kind: Kind, a: seq<Verdict>, b: seq<Verdict>)
    requires multiset(a) == multiset(b)
    ensures AnyRule(kind, a) == AnyRule(kind, b)
  {
    forall v: Verdict ensures v in a <==> v in b {
      assert v in a <==> v in multiset(a);
      assert v in b <==> v in multiset(b);
    }
  }

  function GroupList(l: Layout, results: seq<Verdict>): (r: seq<seq<Verdict>>)
    requires l.Valid() && l.Sets() == |results|
    ensures |r| == l.groups && forall g | 0 <= g < |r| :: r[g] == Group(l, results, g)
  {
    seq(l.groups, g requires 0 <= g < l.groups => Group(l, results, g))
  }

  function Mapped(kind: Kind, a: seq<seq<Verdict>>): seq<Verdict> {
    seq(|a|, i requires 0 <= i < |a| => AllRule(kind, a[i]))
  }

  lemma {:induction false} VerdictsPermuted(kind: Kind, a: seq<seq<Verdict>>, b: seq<seq<Verdict>>)
    requires multiset(a) == multiset(b)
    ensures multiset(Mapped(kind, a)) == multiset(Mapped(kind, b))
  {
    hide AllRule;
    assert |multiset(a)| == |a| && |multiset(b)| == |b|;
    if a != [] {
      hide Mapped;
      assert a[0] in multiset(b);
      var k :| 0 <= k < |b| && b[k] == a[0];
      TailMultiset(a);
      WithoutMultiset(b, k);
      VerdictsPermuted(kind, a[1..], Without(b, k));
      MappedCons(kind, a);
      MappedCut(kind, b, k);
    }
  }

  lemma MappedCons(kind: Kind, a: seq<seq<Verdict>>)
    requires a != []
    ensures Mapped(kind, a) == [AllRule(kind, a[0])] + Mapped(kind, a[1..])
  {
    hide AllRule;
  }

  lemma MappedCut(kind: Kind, b: seq<seq<Verdict>>, k: nat)
    requires k < |b|
    ensures multiset(Mapped(kind, b)) == multiset(Mapped(kind, Without(b, k))) + multiset{AllRule(kind, b[k])}
  {
    hide AllRule;
    var m := Mapped(kind, b);
    assert m == m[..k] + [m[k]] + m[k + 1..];
    assert Mapped(kind, Without(b, k)) == m[..k] + m[k + 1..];
  }

  /** Reordering the groups does not change the overall result. */
  lemma GroupOrderIrrelevant(l: Layout, a: seq<Verdict>, m: Layout, b: seq<Verdict>, kind: Kind)
    requires Coherent(l, a, kind) && Coherent(m, b, kind)
    requires multiset(GroupList(l, a)) == multiset(GroupList(m, b))
    ensures Overall(l, a, kind) == Overall(m, b, kind)
  {
    hide AllRule, AnyRule, Group;
    VerdictsPermuted(kind, GroupList(l, a), GroupList(m, b));
    assert GroupVerdicts(l, a, kind) == Mapped(kind, GroupList(l, a));
    assert GroupVerdicts(m, b, kind) == Mapped(kind, GroupList(m, b));
    AnyRuleByMembers(kind, GroupVerdicts(l, a, kind), GroupVerdicts(m, b, kind));
  }
}
