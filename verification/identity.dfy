/** The DSN signing identity: the ordered candidate domains (Sections 7.2 and 16.2 of
    draft-ietf-dkim-dkim2-spec-09) and the walk that binds the first usable one. */
module Identity {
  import opened Octets
  import opened Sorting

  datatype Candidate = Candidate(domain: octets, labels: nat, linked: bool, preferred: bool)

  const MAX_CANDIDATES := 64

  // ---- Label suffixes

  /** The relaxed domain match: equal to the recipient domain, or one of its parents. */
  predicate RelaxedMatch(base: octets, candidate: octets) {
    candidate == base
    || (|candidate| > |base| && candidate[|candidate| - |base| - 1..] == ['.'] + base)
  }

  function Parent(name: octets): octets {
    match IndexByte(name, '.') case None => [] case Some(dot) => name[dot + 1..]
  }

  /** A name and its parents, the empty name excluded. */
  function Chain(name: octets): seq<octets>
    decreases |name|
  {
    if name == [] then [] else [name] + (if |Parent(name)| < |name| then Chain(Parent(name)) else [])
  }

  lemma ParentShorter(name: octets)
    requires name != []
    ensures |Parent(name)| < |name|
  {
  }

  lemma ParentMatches(name: octets)
    requires Parent(name) != []
    ensures |name| > |Parent(name)| && name[|name| - |Parent(name)| - 1..] == ['.'] + Parent(name)
  {
    var dot := IndexByte(name, '.').value;
    assert name[dot..] == [name[dot]] + name[dot + 1..];
  }

  lemma MatchTransitive(a: octets, b: octets, c: octets)
    requires RelaxedMatch(a, b) && RelaxedMatch(b, c)
    ensures RelaxedMatch(a, c)
  {
    if a != b && b != c {
      assert c[|c| - |b|..] == c[|c| - |b| - 1..][1..] == b;
      assert c[|c| - |a| - 1..] == c[|c| - |b|..][|b| - |a| - 1..];
    }
  }

  lemma NoneBefore(name: octets, dot: nat)
    requires IndexByte(name, '.') == Some(dot)
    ensures dot < |name| && forall k | 0 <= k < dot :: name[k] != '.'
  {
    forall k | 0 <= k < dot ensures name[k] != '.' {
      assert name[k] == name[..dot][k];
    }
  }

  /** A proper match is a match of the parent: labels come off from the left one at a time. */
  lemma MatchParent(base: octets, name: octets)
    requires base != [] && RelaxedMatch(base, name) && base != name
    ensures Parent(name) != [] && RelaxedMatch(base, Parent(name))
  {
    var at := |name| - |base| - 1;
    assert name[at] == name[at..][0] == '.';
    assert name[at + 1..] == name[at..][1..] == base;
    var dot := IndexByte(name, '.').value;
    NoneBefore(name, dot);
    assert dot <= at;
    var parent := name[dot + 1..];
    if dot < at {
      assert parent[|parent| - |base| - 1..] == name[at..];
    }
  }

  /** The chain of a name lists exactly the non-empty names that relaxed-match it. */
  lemma {:induction false} ChainIff(base: octets, name: octets)
    ensures base in Chain(name) <==> base != [] && name != [] && RelaxedMatch(base, name)
    decreases |name|
  {
    if name != [] {
      var parent := Parent(name);
      ParentShorter(name);
      ChainIff(base, parent);
      assert base in Chain(name) <==> base == name || base in Chain(parent);
      if base in Chain(parent) {
        ParentMatches(name);
        MatchTransitive(base, parent, name);
      }
      if base != [] && base != name && RelaxedMatch(base, name) {
        MatchParent(base, name);
      }
    }
  }

  function Labels(name: octets): nat {
    1 + Dots(name)
  }

  function Dots(name: octets): nat {
    if name == [] then 0 else Dots(name[..|name| - 1]) + if name[|name| - 1] == '.' then 1 else 0
  }

  method CountDots(name: octets) returns (n: nat)
    ensures n == Dots(name)
  {
    n := 0;
    var i := 0;
    assert name[..|name|] == name;
    while i < |name|
      invariant 0 <= i <= |name| && n == Dots(name[..i])
    {
      assert name[..i + 1][..i] == name[..i];
      if name[i] == '.' {
        n := n + 1;
      }
      i := i + 1;
    }
  }

  // ---- The candidate order

  /** RFC 3464 linkage, operator preference, more labels, octet order. */
  predicate Before(a: Candidate, b: Candidate) {
    if a.linked != b.linked then a.linked
    else if a.preferred != b.preferred then a.preferred
    else if a.labels != b.labels then a.labels > b.labels
    else Less(a.domain, b.domain)
  }

  lemma BeforeAsymmetric()
    ensures Asymmetric(Before)
  {
    hide Less;
    forall a, b | Before(a, b) ensures !Before(b, a) {
      LessTotal(a.domain, b.domain);
    }
  }

  lemma BeforeTransitive(a: Candidate, b: Candidate, c: Candidate)
    requires Before(a, b) && Before(b, c)
    ensures Before(a, c)
  {
    hide Less;
    if Less(a.domain, b.domain) && Less(b.domain, c.domain) {
      LessTransitive(a.domain, b.domain, c.domain);
    }
  }

  lemma BeforeTotal(a: Candidate, b: Candidate)
    requires a.domain != b.domain
    ensures Before(a, b) || Before(b, a)
  {
    hide Less;
    LessTotal(a.domain, b.domain);
  }

  // ---- Which candidates there are

  /** The recipient domains of the highest signature, each with whether the report names it. */
  type Recipients = set<(octets, bool)>

  predicate LinkedAt(linked: seq<bool>, i: nat) {
    i < |linked| && linked[i]
  }

  function RecipientSet(domains: seq<octets>, linked: seq<bool>): Recipients {
    set i | 0 <= i < |domains| :: (domains[i], LinkedAt(linked, i))
  }

  ghost predicate Matched(name: octets, recipients: Recipients) {
    exists r :: r in recipients && r.0 != [] && RelaxedMatch(name, r.0)
  }

  ghost predicate MatchedLinked(name: octets, recipients: Recipients) {
    exists r :: r in recipients && r.1 && r.0 != [] && RelaxedMatch(name, r.0)
  }

  /** The candidate of one matching name. */
  ghost predicate IsCandidate(c: Candidate, recipients: Recipients, preferred: octets) {
    && c.domain != [] && Matched(c.domain, recipients)
    && (c.linked <==> MatchedLinked(c.domain, recipients))
    && c.labels == Labels(c.domain) && c.preferred == (c.domain == preferred)
  }

  /** The complete candidate list: exactly the candidates, in strict order. */
  ghost predicate Complete(list: seq<Candidate>, recipients: Recipients, preferred: octets) {
    && SortedBy(list, Before)
    && forall c: Candidate :: c in list <==> IsCandidate(c, recipients, preferred)
  }

  /** What has been collected after some visits of a name with a linkage flag. */
  ghost predicate Collected(candidates: seq<Candidate>, positions: map<octets, nat>, visits: Recipients, preferred: octets) {
    && (forall i | 0 <= i < |candidates| ::
          candidates[i].domain in positions && positions[candidates[i].domain] == i)
    && (forall n | n in positions :: positions[n] < |candidates| && candidates[positions[n]].domain == n)
    && (forall n :: n in positions <==> (n, true) in visits || (n, false) in visits)
    && (forall i | 0 <= i < |candidates| ::
          && (candidates[i].linked <==> (candidates[i].domain, true) in visits)
          && candidates[i].labels == Labels(candidates[i].domain)
          && candidates[i].preferred == (candidates[i].domain == preferred))
  }

  method Visit(candidates: seq<Candidate>, positions: map<octets, nat>, name: octets, linked: bool, preferred: octets,
               ghost visits: Recipients)
    returns (candidates': seq<Candidate>, positions': map<octets, nat>)
    requires Collected(candidates, positions, visits, preferred)
    ensures Collected(candidates', positions', visits + {(name, linked)}, preferred)
  {
    hide Labels;
    candidates', positions' := candidates, positions;
    if name in positions {
      var position := positions[name];
      var seen := candidates[position];
      candidates' := candidates[position := seen.(linked := seen.linked || linked)];
      return;
    }
    var dots := CountDots(name);
    positions' := positions[name := |candidates|];
    candidates' := candidates + [Candidate(name, LabelsOf(name, dots), linked, name == preferred)];
  }

  function LabelsOf(name: octets, dots: nat): (r: nat)
    requires dots == Dots(name)
    ensures r == Labels(name)
  {
    dots + 1
  }

  /** The visits of one recipient domain. */
  function Visits(domain: octets, linked: bool): Recipients {
    set n | n in Chain(domain) :: (n, linked)
  }

  function AllVisits(domains: seq<octets>, linked: seq<bool>): Recipients {
    if domains == [] then {}
    else AllVisits(domains[..|domains| - 1], linked) + Visits(domains[|domains| - 1], LinkedAt(linked, |domains| - 1))
  }

  method CollectDomain(candidates: seq<Candidate>, positions: map<octets, nat>, domain: octets, linked: bool,
                       preferred: octets, ghost visits: Recipients)
    returns (candidates': seq<Candidate>, positions': map<octets, nat>)
    requires Collected(candidates, positions, visits, preferred)
    ensures Collected(candidates', positions', visits + Visits(domain, linked), preferred)
  {
    hide Collected, RelaxedMatch;
    candidates', positions' := candidates, positions;
    var name := domain;
    ghost var done := visits;
    while name != []
      invariant Collected(candidates', positions', done, preferred)
      invariant visits + Visits(domain, linked) == done + Visits(name, linked)
      invariant name != [] ==> name in Chain(domain)
      decreases |name|
    {
      ParentShorter(name);
      ChainIff(name, domain);
      VisitsStep(name, linked);
      if !RelaxedMatch(name, domain) {
        assert false; // every name on the chain matches
      }
      candidates', positions' := Visit(candidates', positions', name, linked, preferred, done);
      ChainNext(name, domain);
      done := done + {(name, linked)};
      name := Parent(name);
    }
    assert done + Visits(name, linked) == done;
  }

  lemma VisitsStep(name: octets, linked: bool)
    requires name != []
    ensures Visits(name, linked) == {(name, linked)} + Visits(Parent(name), linked)
  {
    ParentShorter(name);
  }

  lemma ChainNext(name: octets, domain: octets)
    requires name in Chain(domain)
    ensures Parent(name) != [] ==> Parent(name) in Chain(domain)
  {
    if Parent(name) != [] {
      ChainIff(name, domain);
      ParentMatches(name);
      MatchTransitive(Parent(name), name, domain);
      ChainIff(Parent(name), domain);
    }
  }

  method CollectCandidates(domains: seq<octets>, linked: seq<bool>, preferred: octets)
    returns (candidates: seq<Candidate>, positions: map<octets, nat>)
    ensures Collected(candidates, positions, AllVisits(domains, linked), preferred)
  {
    hide Labels, Chain;
    candidates, positions := [], map[];
    var i := 0;
    assert domains[..|domains|] == domains;
    while i < |domains|
      invariant 0 <= i <= |domains|
      invariant Collected(candidates, positions, AllVisits(domains[..i], linked), preferred)
    {
      assert domains[..i + 1][..i] == domains[..i];
      candidates, positions := CollectDomain(
        candidates, positions, domains[i], LinkedAt(linked, i), preferred, AllVisits(domains[..i], linked));
      i := i + 1;
    }
  }

  lemma {:induction false} AllVisitsIff(domains: seq<octets>, linked: seq<bool>, name: octets, flag: bool)
    ensures (name, flag) in AllVisits(domains, linked) <==>
      exists i :: 0 <= i < |domains| && name in Chain(domains[i]) && LinkedAt(linked, i) == flag
  {
    hide Chain, LinkedAt;
    if domains != [] {
      var init, last := domains[..|domains| - 1], |domains| - 1;
      AllVisitsIff(init, linked, name, flag);
      assert (name, flag) in Visits(domains[last], LinkedAt(linked, last))
        <==> name in Chain(domains[last]) && LinkedAt(linked, last) == flag;
      if (name, flag) in AllVisits(init, linked) {
        var i :| 0 <= i < |init| && name in Chain(init[i]) && LinkedAt(linked, i) == flag;
        assert domains[i] == init[i];
      }
      if exists i :: 0 <= i < |domains| && name in Chain(domains[i]) && LinkedAt(linked, i) == flag {
        var i :| 0 <= i < |domains| && name in Chain(domains[i]) && LinkedAt(linked, i) == flag;
        assert i == last || init[i] == domains[i];
      }
    }
  }

  /** A name is visited with a flag exactly when it matches a recipient with that flag. */
  lemma VisitsMatch(domains: seq<octets>, linked: seq<bool>, name: octets)
    ensures name != [] && MatchedLinked(name, RecipientSet(domains, linked)) <==> (name, true) in AllVisits(domains, linked)
    ensures name != [] && Matched(name, RecipientSet(domains, linked)) <==>
      (name, true) in AllVisits(domains, linked) || (name, false) in AllVisits(domains, linked)
  {
    hide Chain, RelaxedMatch, LinkedAt, AllVisits;
    AllVisitsIff(domains, linked, name, true);
    AllVisitsIff(domains, linked, name, false);
    var recipients := RecipientSet(domains, linked);
    forall i | 0 <= i < |domains|
      ensures (domains[i], LinkedAt(linked, i)) in recipients
      ensures name in Chain(domains[i]) <==> name != [] && domains[i] != [] && RelaxedMatch(name, domains[i])
    {
      ChainIff(name, domains[i]);
    }
  }

  lemma {:induction false} VisitedIsNonEmpty(domains: seq<octets>, linked: seq<bool>, name: octets, flag: bool)
    ensures (name, flag) in AllVisits(domains, linked) ==> name != []
  {
    hide AllVisits, Chain;
    AllVisitsIff(domains, linked, name, flag);
    if (name, flag) in AllVisits(domains, linked) {
      var i :| 0 <= i < |domains| && name in Chain(domains[i]) && LinkedAt(linked, i) == flag;
      ChainIff(name, domains[i]);
    }
  }

  /** The collected list holds exactly the candidates, once each. */
  lemma CollectedCandidates(candidates: seq<Candidate>, positions: map<octets, nat>, domains: seq<octets>,
                            linked: seq<bool>, preferred: octets)
    requires Collected(candidates, positions, AllVisits(domains, linked), preferred)
    ensures forall c: Candidate :: c in candidates <==> IsCandidate(c, RecipientSet(domains, linked), preferred)
    ensures forall i, j | 0 <= i < j < |candidates| :: candidates[i].domain != candidates[j].domain
  {
    hide AllVisits, Labels, Matched, MatchedLinked;
    forall c: Candidate ensures c in candidates <==> IsCandidate(c, RecipientSet(domains, linked), preferred) {
      VisitsMatch(domains, linked, c.domain);
      VisitedIsNonEmpty(domains, linked, c.domain, true);
      VisitedIsNonEmpty(domains, linked, c.domain, false);
      if IsCandidate(c, RecipientSet(domains, linked), preferred) {
        assert candidates[positions[c.domain]] == c;
      }
    }
  }

  lemma CandidatesOrdered(candidates: seq<Candidate>)
    requires forall i, j | 0 <= i < j < |candidates| :: candidates[i].domain != candidates[j].domain
    ensures Distinct(candidates) && Orders(candidates, Before)
  {
    hide Before;
    forall a, b | a in candidates && b in candidates && a != b ensures Before(a, b) || Before(b, a) {
      var i :| 0 <= i < |candidates| && candidates[i] == a;
      var j :| 0 <= j < |candidates| && candidates[j] == b;
      BeforeTotal(a, b);
    }
    forall a, b, c | a in candidates && b in candidates && c in candidates && Before(a, b) && Before(b, c)
      ensures Before(a, c)
    {
      BeforeTransitive(a, b, c);
    }
  }

  function Truncated(list: seq<Candidate>): (r: seq<Candidate>) {
    if |list| > MAX_CANDIDATES then list[..MAX_CANDIDATES] else list
  }

  /** The candidate list: the front of the complete list, and nothing for invalid evidence. */
  method SigningIdentityCandidates(valid: bool, domains: seq<octets>, linked: seq<bool>, preferred: octets)
    returns (r: seq<Candidate>, ghost all: seq<Candidate>)
    ensures valid ==> Complete(all, RecipientSet(domains, linked), preferred) && r == Truncated(all)
    ensures !valid ==> r == []
  {
    hide Before, Labels, IsCandidate, AllVisits, Collected;
    all := [];
    if !valid {
      return [], all;
    }
    var candidates, positions := CollectCandidates(domains, linked, preferred);
    CollectedCandidates(candidates, positions, domains, linked, preferred);
    CandidatesOrdered(candidates);
    var sorted := SortBy(candidates, Before);
    all := sorted;
    SameMembers(sorted, candidates);
    if |sorted| > MAX_CANDIDATES {
      return sorted[..MAX_CANDIDATES], all;
    }
    return sorted, all;
  }

  lemma SameMembers(a: seq<Candidate>, b: seq<Candidate>)
    requires multiset(a) == multiset(b)
    ensures forall c :: c in a <==> c in b
  {
    forall c ensures c in a <==> c in b {
      assert c in a <==> c in multiset(a);
      assert c in b <==> c in multiset(b);
    }
  }

  /** The candidate set and its order depend only on which recipients there are and which are linked, not on their
      order or repetition. */
  lemma CompleteUnique(a: seq<Candidate>, b: seq<Candidate>, recipients: Recipients, preferred: octets)
    requires Complete(a, recipients, preferred) && Complete(b, recipients, preferred)
    ensures a == b
  {
    hide Before, IsCandidate;
    BeforeAsymmetric();
    SortedOnce(a);
    SortedOnce(b);
    forall c: Candidate ensures multiset(a)[c] == multiset(b)[c] {
      assert c in a <==> IsCandidate(c, recipients, preferred);
      assert c in b <==> IsCandidate(c, recipients, preferred);
      assert c in multiset(a) <==> c in a;
      assert c in multiset(b) <==> c in b;
    }
    assert multiset(a) == multiset(b);
    SortedUnique(a, b, Before);
  }

  /** A strictly sorted list holds each element once. */
  lemma {:induction false} SortedOnce(s: seq<Candidate>)
    requires SortedBy(s, Before) && Asymmetric(Before)
    ensures forall c :: multiset(s)[c] <= 1
  {
    hide Before;
    if s != [] {
      var init, last := s[..|s| - 1], s[|s| - 1];
      assert s == init + [last];
      SortedOnce(init);
      forall i | 0 <= i < |init| ensures init[i] != last {
        assert Before(s[i], s[|s| - 1]);
      }
      assert last !in multiset(init);
    }
  }

  /** Truncation drops only candidates that rank below every kept one. */
  lemma TruncationDropsLower(all: seq<Candidate>, recipients: Recipients, preferred: octets, kept: Candidate, dropped: Candidate)
    requires Complete(all, recipients, preferred) && kept in Truncated(all)
    requires IsCandidate(dropped, recipients, preferred) && dropped !in Truncated(all)
    ensures Before(kept, dropped) && |Truncated(all)| == MAX_CANDIDATES
  {
    hide Before, IsCandidate;
    assert dropped in all;
    var i :| 0 <= i < |Truncated(all)| && Truncated(all)[i] == kept;
    var j :| 0 <= j < |all| && all[j] == dropped;
    forall k | 0 <= k < |Truncated(all)| ensures all[k] in Truncated(all) {
      assert Truncated(all)[k] == all[k];
    }
    assert |all| > MAX_CANDIDATES && j >= MAX_CANDIDATES;
    assert all[i] == kept;
  }

  lemma {:induction false} DotsConcat(a: octets, b: octets)
    ensures Dots(a + b) == Dots(a) + Dots(b)
  {
    if b == [] {
      assert a + b == a;
    } else {
      assert (a + b)[..|a + b| - 1] == a + b[..|b| - 1];
      DotsConcat(a, b[..|b| - 1]);
    }
  }

  lemma {:induction false} Dotless(name: octets)
    requires '.' !in name
    ensures Labels(name) == 1
  {
    if name != [] {
      Dotless(name[..|name| - 1]);
    }
  }

  /** Labels add up across a dot; a name without dots is one label. */
  lemma LabelsJoined(a: octets, b: octets)
    ensures Labels(a + "." + b) == Labels(a) + Labels(b)
    ensures '.' !in a ==> Labels(a) == 1
  {
    DotsConcat(a + ".", b);
    DotsConcat(a, ".");
    assert "."[..0] == [];
    if '.' !in a {
      Dotless(a);
    }
  }

  /** What the order of the complete list means: no unlinked candidate stands in front of a linked one; among equally
      linked ones the preferred one is first, then those with more labels, then the bytewise smaller. */
  lemma OrderMeaning(list: seq<Candidate>, recipients: Recipients, preferred: octets, i: nat, j: nat)
    requires Complete(list, recipients, preferred) && i < j < |list|
    ensures var a, b := list[i], list[j];
      && (MatchedLinked(b.domain, recipients) ==> MatchedLinked(a.domain, recipients))
      && (a.linked == b.linked ==> b.domain == preferred ==> a.domain == preferred)
      && (a.linked == b.linked && a.domain != preferred ==> Labels(a.domain) >= Labels(b.domain))
      && (a.linked == b.linked && a.domain != preferred && Labels(a.domain) == Labels(b.domain) ==> Less(a.domain, b.domain))
  {
    hide Less, Labels, Matched, MatchedLinked;
    assert list[i] in list && list[j] in list;
    assert Before(list[i], list[j]);
    assert IsCandidate(list[i], recipients, preferred) && IsCandidate(list[j], recipients, preferred);
  }

  /** A subdomain stands in front of its parent domain, unless the report names only the parent or the parent is
      preferred. */
  lemma SubdomainFirst(list: seq<Candidate>, recipients: Recipients, preferred: octets, i: nat, j: nat, sub: octets)
    requires Complete(list, recipients, preferred) && i < |list| && j < |list|
    requires list[i].domain == sub + "." + list[j].domain && list[i].linked == list[j].linked
    requires list[j].domain != preferred
    ensures i < j
  {
    hide Less, Labels, Matched, MatchedLinked, IsCandidate;
    LabelsJoined(sub, list[j].domain);
    LabelsPositive(sub);
    if j < i {
      OrderMeaning(list, recipients, preferred, j, i);
    }
  }

  lemma LabelsPositive(name: octets)
    ensures Labels(name) >= 1
  {
  }

  // ---- The walk

  /** What the profile source answers for a domain: an error, no profile, or a profile that may be unusable. */
  datatype Lookup = LookupError | NoProfile | Profile(usable: bool)

  datatype Resolution = Bound(domain: octets) | SigningDomainFailed | IdentityUnavailable | FromNotAuthentic

  /** The surroundings of one walk: From authenticity, the profile source, and cancellation before a candidate. */
  datatype Surroundings = Surroundings(authentic: octets -> bool, lookup: octets -> Lookup, cancelled: octets -> bool)

  /** The walk with skipped lookups. */
  function Walk(s: Surroundings, candidates: seq<Candidate>, profileFound: bool): Resolution {
    if candidates == [] then if profileFound then FromNotAuthentic else IdentityUnavailable
    else
      var domain, rest := candidates[0].domain, candidates[1..];
      if s.cancelled(domain) then SigningDomainFailed
      else if !s.authentic(domain) && profileFound then Walk(s, rest, profileFound)
      else match s.lookup(domain)
        case LookupError => SigningDomainFailed
        case NoProfile => Walk(s, rest, profileFound)
        case Profile(usable) =>
          if !usable then SigningDomainFailed
          else if s.authentic(domain) then Bound(domain)
          else Walk(s, rest, true)
  }

  method ResolveSigningIdentity(s: Surroundings, candidates: seq<Candidate>) returns (r: Resolution)
    ensures r == Walk(s, candidates, false)
  {
    var profileFound := false;
    var i := 0;
    assert candidates[0..] == candidates;
    while i < |candidates|
      invariant 0 <= i <= |candidates|
      invariant Walk(s, candidates, false) == Walk(s, candidates[i..], profileFound)
    {
      var domain := candidates[i].domain;
      assert candidates[i..][1..] == candidates[i + 1..];
      i := i + 1;
      if s.cancelled(domain) {
        return SigningDomainFailed;
      }
      var authentic := s.authentic(domain);
      if !authentic && profileFound {
        continue;
      }
      var profile := s.lookup(domain);
      if profile.LookupError? {
        return SigningDomainFailed;
      }
      if profile.NoProfile? {
        continue;
      }
      if !profile.usable {
        return SigningDomainFailed;
      }
      profileFound := true;
      if !authentic {
        continue;
      }
      return Bound(domain);
    }
    return if profileFound then FromNotAuthentic else IdentityUnavailable;
  }

  /** The plain search: the same loop without the skip, which asks the profile source about every candidate up to
      the first that binds. */
  function Plain(s: Surroundings, candidates: seq<Candidate>, profileFound: bool): Resolution {
    if candidates == [] then if profileFound then FromNotAuthentic else IdentityUnavailable
    else
      var domain, rest := candidates[0].domain, candidates[1..];
      if s.cancelled(domain) then SigningDomainFailed
      else match s.lookup(domain)
        case LookupError => SigningDomainFailed
        case NoProfile => Plain(s, rest, profileFound)
        case Profile(usable) =>
          if !usable then SigningDomainFailed
          else if s.authentic(domain) then Bound(domain)
          else Plain(s, rest, true)
  }

  /** The source fails for the candidate: an error, or a profile that cannot be used. */
  predicate Fails(s: Surroundings, c: Candidate) {
    s.lookup(c.domain) == LookupError || s.lookup(c.domain) == Profile(false)
  }

  predicate Usable(s: Surroundings, c: Candidate) {
    s.lookup(c.domain) == Profile(true) && s.authentic(c.domain)
  }

  /** No candidate before `i` binds. */
  predicate Reached(s: Surroundings, candidates: seq<Candidate>, i: nat) {
    i < |candidates| && forall j | 0 <= j < i :: !Usable(s, candidates[j])
  }

  /** The walk does not ask about a candidate that cannot bind once a profile is known. */
  predicate Skipped(s: Surroundings, candidates: seq<Candidate>, profileFound: bool, i: nat)
    requires i < |candidates|
  {
    !s.authentic(candidates[i].domain)
    && (profileFound || exists j :: 0 <= j < i && s.lookup(candidates[j].domain) == Profile(true))
  }

  /** A candidate before the first that binds stops the walk. */
  predicate OpenFailure(s: Surroundings, candidates: seq<Candidate>, profileFound: bool) {
    exists i :: 0 <= i < |candidates| && Reached(s, candidates, i)
      && (s.cancelled(candidates[i].domain) || (Fails(s, candidates[i]) && !Skipped(s, candidates, profileFound, i)))
  }

  /** The source fails for a candidate before the first that binds, and the walk does not ask about it. */
  predicate HiddenFailure(s: Surroundings, candidates: seq<Candidate>, profileFound: bool) {
    exists i :: 0 <= i < |candidates| && Reached(s, candidates, i) && Fails(s, candidates[i]) && Skipped(s, candidates, profileFound, i)
  }

  lemma ReachedNext(s: Surroundings, candidates: seq<Candidate>, i: nat)
    requires candidates != [] && !Usable(s, candidates[0])
    ensures Reached(s, candidates[1..], i) <==> Reached(s, candidates, i + 1)
  {
    var rest := candidates[1..];
    assert forall j | 0 <= j < |rest| :: rest[j] == candidates[j + 1];
    if Reached(s, rest, i) {
      forall j | 0 <= j < i + 1 ensures !Usable(s, candidates[j]) {
        assert j == 0 || candidates[j] == rest[j - 1];
      }
    }
  }

  lemma SkippedNext(s: Surroundings, candidates: seq<Candidate>, profileFound: bool, i: nat)
    requires i + 1 < |candidates|
    ensures Skipped(s, candidates[1..], profileFound || s.lookup(candidates[0].domain) == Profile(true), i)
       <==> Skipped(s, candidates, profileFound, i + 1)
  {
    var rest := candidates[1..];
    assert forall j | 0 <= j < |rest| :: rest[j] == candidates[j + 1];
    if exists j :: 0 <= j < i + 1 && s.lookup(candidates[j].domain) == Profile(true) {
      var j :| 0 <= j < i + 1 && s.lookup(candidates[j].domain) == Profile(true);
      assert j == 0 || s.lookup(rest[j - 1].domain) == Profile(true);
    }
    if exists j :: 0 <= j < i && s.lookup(rest[j].domain) == Profile(true) {
      var j :| 0 <= j < i && s.lookup(rest[j].domain) == Profile(true);
      assert s.lookup(candidates[j + 1].domain) == Profile(true);
    }
  }

  /** What the first candidate adds to the failures of the rest. */
  lemma FailuresStep(s: Surroundings, candidates: seq<Candidate>, profileFound: bool)
    requires candidates != [] && !Usable(s, candidates[0])
    ensures var c, rest := candidates[0], candidates[1..];
      var found := profileFound || s.lookup(c.domain) == Profile(true);
      && (OpenFailure(s, candidates, profileFound) <==>
            s.cancelled(c.domain) || (Fails(s, c) && (s.authentic(c.domain) || !profileFound))
            || OpenFailure(s, rest, found))
      && (HiddenFailure(s, candidates, profileFound) <==>
            (Fails(s, c) && !s.authentic(c.domain) && profileFound) || HiddenFailure(s, rest, found))
  {
    var rest := candidates[1..];
    var found := profileFound || s.lookup(candidates[0].domain) == Profile(true);
    hide Fails, Usable;
    assert forall j | 0 <= j < |rest| :: rest[j] == candidates[j + 1];
    assert Reached(s, candidates, 0);
    assert Skipped(s, candidates, profileFound, 0) <==> !s.authentic(candidates[0].domain) && profileFound;
    forall i: nat | i < |rest|
      ensures Reached(s, rest, i) <==> Reached(s, candidates, i + 1)
      ensures Skipped(s, rest, found, i) <==> Skipped(s, candidates, profileFound, i + 1)
    {
      ReachedNext(s, candidates, i);
      SkippedNext(s, candidates, profileFound, i);
    }
    hide Reached, Skipped;
    if OpenFailure(s, candidates, profileFound) {
      var i :| 0 <= i < |candidates| && Reached(s, candidates, i) && (s.cancelled(candidates[i].domain)
        || (Fails(s, candidates[i]) && !Skipped(s, candidates, profileFound, i)));
      assert i == 0 || Reached(s, rest, i - 1);
    }
    if HiddenFailure(s, candidates, profileFound) {
      var i :| 0 <= i < |candidates| && Reached(s, candidates, i) && Fails(s, candidates[i]) && Skipped(s, candidates, profileFound, i);
      assert i == 0 || Reached(s, rest, i - 1);
    }
    if OpenFailure(s, rest, found) {
      var i :| 0 <= i < |rest| && Reached(s, rest, i)
        && (s.cancelled(rest[i].domain) || (Fails(s, rest[i]) && !Skipped(s, rest, found, i)));
      assert Reached(s, candidates, i + 1);
    }
    if HiddenFailure(s, rest, found) {
      var i :| 0 <= i < |rest| && Reached(s, rest, i) && Fails(s, rest[i]) && Skipped(s, rest, found, i);
      assert Reached(s, candidates, i + 1);
    }
  }

  lemma {:induction false} WalkAndPlain(s: Surroundings, candidates: seq<Candidate>, profileFound: bool)
    ensures Walk(s, candidates, profileFound) == SigningDomainFailed <==> OpenFailure(s, candidates, profileFound)
    ensures Plain(s, candidates, profileFound) == SigningDomainFailed
       <==> OpenFailure(s, candidates, profileFound) || HiddenFailure(s, candidates, profileFound)
    ensures Plain(s, candidates, profileFound) != SigningDomainFailed
        ==> Plain(s, candidates, profileFound) == Walk(s, candidates, profileFound)
  {
    if candidates != [] {
      if Usable(s, candidates[0]) {
        BindsFirst(s, candidates, profileFound);
      } else {
        hide OpenFailure, HiddenFailure;
        FailuresStep(s, candidates, profileFound);
        WalkAndPlain(s, candidates[1..], profileFound);
        WalkAndPlain(s, candidates[1..], true);
      }
    }
  }

  lemma BindsFirst(s: Surroundings, candidates: seq<Candidate>, profileFound: bool)
    requires candidates != [] && Usable(s, candidates[0])
    ensures OpenFailure(s, candidates, profileFound) <==> s.cancelled(candidates[0].domain)
    ensures !HiddenFailure(s, candidates, profileFound)
  {
    assert Reached(s, candidates, 0);
  }

  /** Skipping lookups changes the outcome exactly when the source fails for a candidate the walk skips and nothing
      else stops the walk. */
  lemma WalkIsPlainIff(s: Surroundings, candidates: seq<Candidate>)
    ensures Walk(s, candidates, false) == Plain(s, candidates, false)
       <==> OpenFailure(s, candidates, false) || !HiddenFailure(s, candidates, false)
  {
    WalkAndPlain(s, candidates, false);
  }

  /** A source that answers with an unusable profile for one domain; only one domain makes the From Authentic. */
  function FailingFor(authentic: octets, failing: octets): Surroundings {
    Surroundings(d => d == authentic, d => if d == failing then Profile(false) else Profile(true), _ => false)
  }

  /** A failure the walk never meets: it binds the third candidate, where the plain search stops at the second. */
  lemma SkippedFailure(a: Candidate, b: Candidate, c: Candidate)
    requires a.domain != b.domain && a.domain != c.domain && b.domain != c.domain
    ensures var s := FailingFor(c.domain, b.domain);
      Walk(s, [a, b, c], false) == Bound(c.domain) && Plain(s, [a, b, c], false) == SigningDomainFailed
  {
    var s := FailingFor(c.domain, b.domain);
    assert [a, b, c][1..] == [b, c] && [b, c][1..] == [c];
    assert Walk(s, [c], true) == Bound(c.domain);
    assert Walk(s, [b, c], true) == Bound(c.domain) && Plain(s, [b, c], true) == SigningDomainFailed;
  }

  /** The first candidate with a profile and an Authentic From, or the stage that names what is missing. */
  ghost predicate Searched(s: Surroundings, candidates: seq<Candidate>, r: Resolution) {
    match r
    case Bound(domain) =>
      exists i :: 0 <= i < |candidates| && Reached(s, candidates, i) && Usable(s, candidates[i]) && candidates[i].domain == domain
    case FromNotAuthentic =>
      (forall i | 0 <= i < |candidates| :: !Usable(s, candidates[i]))
      && exists i :: 0 <= i < |candidates| && s.lookup(candidates[i].domain) == Profile(true)
    case IdentityUnavailable =>
      forall i | 0 <= i < |candidates| :: s.lookup(candidates[i].domain) != Profile(true)
    case SigningDomainFailed => false
  }

  lemma {:induction false} WalkFrom(s: Surroundings, candidates: seq<Candidate>, profileFound: bool)
    requires Walk(s, candidates, profileFound) != SigningDomainFailed
    ensures var r := Walk(s, candidates, profileFound);
      if profileFound && (forall i | 0 <= i < |candidates| :: !Usable(s, candidates[i])) then r == FromNotAuthentic
      else Searched(s, candidates, r)
  {
    if candidates != [] {
      var first, rest := candidates[0], candidates[1..];
      var r := Walk(s, candidates, profileFound);
      assert forall i | 0 <= i < |rest| :: rest[i] == candidates[i + 1];
      if Usable(s, first) {
        assert Reached(s, candidates, 0) && r == Bound(first.domain);
      } else {
        WalkFrom(s, rest, profileFound || s.lookup(first.domain) == Profile(true));
        SearchedStep(s, candidates, r);
      }
    }
  }

  lemma SearchedStep(s: Surroundings, candidates: seq<Candidate>, r: Resolution)
    requires candidates != [] && !Usable(s, candidates[0])
    ensures Searched(s, candidates[1..], r) && s.lookup(candidates[0].domain) != Profile(true) ==> Searched(s, candidates, r)
    ensures Searched(s, candidates[1..], r) && (r.Bound? || r.FromNotAuthentic?) ==> Searched(s, candidates, r)
  {
    var rest := candidates[1..];
    assert forall i | 0 <= i < |rest| :: rest[i] == candidates[i + 1];
    if Searched(s, rest, r) {
      match r
      case Bound(domain) =>
        var i :| 0 <= i < |rest| && Reached(s, rest, i) && Usable(s, rest[i]) && rest[i].domain == domain;
        ReachedNext(s, candidates, i);
        assert candidates[i + 1].domain == domain;
      case FromNotAuthentic =>
        var i :| 0 <= i < |rest| && s.lookup(rest[i].domain) == Profile(true);
        assert s.lookup(candidates[i + 1].domain) == Profile(true);
      case _ =>
    }
  }

  /** Unless it is stopped, the walk finds what it is specified to find, whatever the source would have answered for
      the candidates it skips; and it is stopped exactly by a failure it runs into before the first candidate that
      binds. */
  lemma WalkSearches(s: Surroundings, candidates: seq<Candidate>)
    ensures var r := Walk(s, candidates, false);
      if OpenFailure(s, candidates, false) then r == SigningDomainFailed else Searched(s, candidates, r)
  {
    WalkAndPlain(s, candidates, false);
    if Walk(s, candidates, false) != SigningDomainFailed {
      WalkFrom(s, candidates, false);
    }
  }

  /** Whatever the source answers, a bound identity has a usable profile, makes the From Authentic, and matches a
      recipient of the highest signature: the bound on the list never selects another domain. */
  lemma BoundMatches(s: Surroundings, all: seq<Candidate>, recipients: Recipients, preferred: octets)
    requires Complete(all, recipients, preferred) && Walk(s, Truncated(all), false).Bound?
    ensures var domain := Walk(s, Truncated(all), false).domain;
      s.lookup(domain) == Profile(true) && s.authentic(domain) && Matched(domain, recipients)
  {
    hide Before, Matched, MatchedLinked;
    var c := BoundCandidate(s, Truncated(all), false);
    assert c in all;
  }

  lemma {:induction false} BoundCandidate(s: Surroundings, candidates: seq<Candidate>, profileFound: bool) returns (c: Candidate)
    requires Walk(s, candidates, profileFound).Bound?
    ensures c in candidates && c.domain == Walk(s, candidates, profileFound).domain && Usable(s, c)
  {
    if Usable(s, candidates[0]) && Walk(s, candidates, profileFound) == Bound(candidates[0].domain) {
      c := candidates[0];
    } else {
      var found := profileFound || s.lookup(candidates[0].domain) == Profile(true);
      c := BoundCandidate(s, candidates[1..], found);
    }
  }
}
