/** Section 12.8 signature input (draft-ietf-dkim-dkim2-spec-09), as the verifier builds it from a completed
    header block and as the signer builds it before the new fields are inserted. */
module SignatureInput {
  import opened Octets
  import opened RawMessage
  import opened Sorting
  import HeaderHash
  import MessageParser

  type pos = n: nat | n > 0 witness 1

  /** The largest Go `int`. */
  const MAX_INT: nat := 0x7fff_ffff_ffff_ffff
  type goInt = n: nat | n <= MAX_INT

  const MAX_INSTANCES: nat := 128
  const MAX_SIGNATURES: nat := 128

  datatype Limits = Limits(maxFieldCount: goInt, maxFieldBytes: goInt, maxSignatureInputBytes: goInt)

  datatype Failure =
    | FieldCountLimit
    | FieldBytesLimit
    | InputBytesLimit
    | ParseFailed
    | SequenceInvalid
    | ReferencesInvalid
    | MissingTarget
    | AmbiguousSelection
    | RenderFailed

  /** What the protocol parsers read off an unfolded field value: m= of a Message-Instance, i= and m= of a
      DKIM2-Signature, and the value re-rendered with null signature strings. Both numbers are positive. */
  datatype Parsers = Parsers(
    instance: octets -> Option<pos>,
    sequence: octets -> Option<pos>,
    reference: octets -> nat,
    incomplete: octets -> Option<octets>)

  const INSTANCE: octets := HeaderHash.INSTANCE_NAME
  const SIGNATURE: octets := HeaderHash.SIGNATURE_NAME

  // ---- White-space deletion

  function DeleteWsp(value: octets): octets {
    if value == [] then []
    else (if IsWsp(value[0]) then [] else [value[0]]) + DeleteWsp(value[1..])
  }

  function CanonicalBytes(name: octets, value: octets): octets {
    name + [':'] + DeleteWsp(value) + CRLF
  }

  function FieldBytes(f: Field): octets {
    CanonicalBytes(f.Name(), f.Value())
  }

  method CanonicalizeField(name: octets, value: octets) returns (r: octets)
    ensures r == CanonicalBytes(name, value)
  {
    r := name + [':'];
    var i := 0;
    while i < |value|
      invariant 0 <= i <= |value|
      invariant r + DeleteWsp(value[i..]) == name + [':'] + DeleteWsp(value)
    {
      assert value[i..][1..] == value[i + 1..];
      if !IsWsp(value[i]) {
        r := r + [value[i]];
      }
      i := i + 1;
    }
    r := r + CRLF;
  }

  // ---- Extraction of the protocol fields

  /** A parsed protocol field: its header index and its number, m= or i=. */
  datatype Fact = Fact(index: nat, number: pos)

  function Facts(b: Block, name: octets, number: octets -> Option<pos>): (r: Result<seq<Fact>, Failure>) {
    if b == [] then Ok([])
    else
      var f := b[|b| - 1];
      match Facts(b[..|b| - 1], name, number)
      case Err(e) => Err(e)
      case Ok(facts) =>
        if f.Name() != name then Ok(facts)
        else match number(f.Value())
          case None => Err(ParseFailed)
          case Some(n) => Ok(facts + [Fact(|b| - 1, n)])
  }

  /** Pairwise distinct numbers that do not exceed their count: a listing of 1..n. */
  predicate Contiguous(facts: seq<Fact>) {
    && (forall i, j | 0 <= i < j < |facts| :: facts[i].number != facts[j].number)
    && (forall i | 0 <= i < |facts| :: facts[i].number <= |facts|)
  }

  method ParseFields(b: Block, name: octets, number: octets -> Option<pos>)
    returns (r: Result<seq<Fact>, Failure>)
    ensures r == Facts(b, name, number)
  {
    var facts := [];
    var i := 0;
    assert b[..|b|] == b;
    while i < |b|
      invariant 0 <= i <= |b|
      invariant Facts(b[..i], name, number) == Ok(facts)
    {
      assert b[..i + 1][..i] == b[..i];
      if b[i].Name() == name {
        match number(b[i].Value()) {
          case None =>
            FactsFail(b, name, number, i + 1);
            return Err(ParseFailed);
          case Some(n) =>
            facts := facts + [Fact(i, n)];
        }
      }
      i := i + 1;
    }
    return Ok(facts);
  }

  lemma {:induction false} FactsFail(b: Block, name: octets, number: octets -> Option<pos>, i: nat)
    requires i <= |b| && Facts(b[..i], name, number).Err?
    ensures Facts(b, name, number) == Facts(b[..i], name, number)
    decreases |b|
  {
    if i < |b| {
      assert b[..|b| - 1][..i] == b[..i];
      FactsFail(b[..|b| - 1], name, number, i);
    } else {
      assert b[..i] == b;
    }
  }

  /** The collection check: no duplicate, the origin present, and the maximum equal to the count. */
  method ValidateSequence(facts: seq<Fact>, hardMaximum: nat) returns (ok: bool)
    ensures ok <==> |facts| <= hardMaximum && Contiguous(facts)
  {
    if |facts| == 0 {
      return hardMaximum >= 0;
    }
    if |facts| > hardMaximum {
      return false;
    }
    var seen: map<nat, nat> := map[];
    var maximum: nat := 0;
    var i := 0;
    while i < |facts|
      invariant 0 <= i <= |facts|
      invariant forall k :: k in seen <==> exists j :: 0 <= j < i && facts[j].number == k
      invariant forall j, k | 0 <= j < k < i :: facts[j].number != facts[k].number
      invariant forall j | 0 <= j < i :: facts[j].number <= maximum
      invariant if i == 0 then maximum == 0 else exists j :: 0 <= j < i && facts[j].number == maximum
    {
      if facts[i].number in seen {
        ghost var j :| 0 <= j < i && facts[j].number == facts[i].number;
        return false;
      }
      seen := seen[facts[i].number := facts[i].index];
      if facts[i].number > maximum {
        maximum := facts[i].number;
      }
      i := i + 1;
    }
    if 1 !in seen {
      OriginPresent(facts);
      return false;
    }
    if maximum != |facts| {
      MaximumIsCount(facts);
      return false;
    }
    return true;
  }

  /** Numbers that list 1..n leave none of them out. */
  lemma {:induction false} ContiguousCovers(facts: seq<Fact>, k: pos) returns (i: nat)
    requires Contiguous(facts) && k <= |facts|
    ensures i < |facts| && facts[i].number == k
  {
    var numbers := set i | 0 <= i < |facts| :: facts[i].number as nat;
    NumbersCount(facts);
    var all := Below(|facts|);
    if k !in numbers {
      assert numbers <= all - {k};
      SubsetCount(numbers, all - {k as nat});
    }
    i :| 0 <= i < |facts| && facts[i].number == k;
  }

  function Below(n: nat): (r: set<nat>)
    ensures |r| == n && forall k: nat :: k in r <==> 1 <= k <= n
  {
    if n == 0 then {} else Below(n - 1) + {n}
  }

  lemma {:induction false} SubsetCount(a: set<nat>, b: set<nat>)
    requires a <= b
    ensures |a| <= |b|
  {
    if a != {} {
      var x :| x in a;
      SubsetCount(a - {x}, b - {x});
    }
  }

  lemma {:induction false} NumbersCount(facts: seq<Fact>)
    requires forall i, j | 0 <= i < j < |facts| :: facts[i].number != facts[j].number
    ensures |set i | 0 <= i < |facts| :: facts[i].number as nat| == |facts|
  {
    var numbers := set i | 0 <= i < |facts| :: facts[i].number as nat;
    if facts != [] {
      var init := facts[..|facts| - 1];
      NumbersCount(init);
      var before := set i | 0 <= i < |init| :: init[i].number as nat;
      var last := facts[|facts| - 1].number as nat;
      forall k ensures k in numbers <==> k in before + {last} {
        if k in numbers {
          var i :| 0 <= i < |facts| && facts[i].number == k;
          assert i < |init| ==> init[i].number == k;
        }
        if k in before {
          var i :| 0 <= i < |init| && init[i].number == k;
          assert facts[i].number == k;
        }
      }
      assert numbers == before + {last};
      assert last !in before;
    }
  }

  predicate Occurs(facts: seq<Fact>, k: nat) {
    exists i :: 0 <= i < |facts| && facts[i].number == k
  }

  /** Distinct numbers that cover exactly 1..n are n in number. */
  lemma CoverCount(facts: seq<Fact>, n: nat)
    requires forall i, j | 0 <= i < j < |facts| :: facts[i].number != facts[j].number
    requires forall i | 0 <= i < |facts| :: facts[i].number <= n
    requires forall k | 1 <= k <= n :: Occurs(facts, k)
    ensures |facts| == n
  {
    NumbersCount(facts);
    var numbers := set i | 0 <= i < |facts| :: facts[i].number as nat;
    forall k: nat | k in Below(n) ensures k in numbers {
      assert Occurs(facts, k);
    }
    assert numbers == Below(n);
  }

  lemma OriginPresent(facts: seq<Fact>)
    ensures Contiguous(facts) && facts != [] ==> exists i :: 0 <= i < |facts| && facts[i].number == 1
  {
    if Contiguous(facts) && facts != [] {
      var i := ContiguousCovers(facts, 1);
    }
  }

  lemma MaximumIsCount(facts: seq<Fact>)
    ensures Contiguous(facts) && facts != [] ==> exists i :: 0 <= i < |facts| && facts[i].number == |facts|
  {
    if Contiguous(facts) && facts != [] {
      var i := ContiguousCovers(facts, |facts|);
    }
  }

  /** The validated protocol fields of one block; `references[j]` is the m= of signature fact j. */
  datatype State = State(instances: seq<Fact>, signatures: seq<Fact>, references: seq<nat>)

  /** Nondecreasing references to existing instances along the sequence, the last to the highest instance. */
  ghost predicate ReferencesValid(s: State)
    requires |s.references| == |s.signatures|
  {
    && (s.instances == [] <==> s.signatures == [])
    && (forall i | 0 <= i < |s.references| :: 1 <= s.references[i] <= |s.instances|)
    && (forall i, j | 0 <= i < |s.signatures| && 0 <= j < |s.signatures|
          && s.signatures[i].number <= s.signatures[j].number :: s.references[i] <= s.references[j])
    && (forall i | 0 <= i < |s.signatures| && s.signatures[i].number == |s.signatures|
          :: s.references[i] == |s.instances|)
  }

  function References(p: Parsers, b: Block, facts: seq<Fact>): (r: seq<nat>)
    requires forall i | 0 <= i < |facts| :: facts[i].index < |b|
    ensures |r| == |facts|
    ensures forall i | 0 <= i < |facts| :: r[i] == p.reference(b[facts[i].index].Value())
  {
    seq<nat>(|facts|, i requires 0 <= i < |facts| => p.reference(b[facts[i].index].Value()))
  }

  lemma FactsStep(b: Block, name: octets, number: octets -> Option<pos>)
    requires b != [] && Facts(b, name, number).Ok?
    ensures var f, init := b[|b| - 1], b[..|b| - 1];
      && b == init + [f]
      && Facts(init, name, number).Ok?
      && var facts, before := Facts(b, name, number).value, Facts(init, name, number).value;
      && |before| == (if f.Name() == name then |facts| - 1 else |facts|)
      && facts[..|before|] == before
      && (f.Name() == name ==>
            var last := facts[|before|]; last.index == |init| && number(f.Value()) == Some(last.number))
  {
    hide Lower, Unfold;
  }

  ghost predicate FactAt(b: Block, name: octets, number: octets -> Option<pos>, fact: Fact) {
    fact.index < |b| && b[fact.index].Name() == name && number(b[fact.index].Value()) == Some(fact.number)
  }

  lemma {:induction false} FactsSound(b: Block, name: octets, number: octets -> Option<pos>)
    requires Facts(b, name, number).Ok?
    ensures var facts := Facts(b, name, number).value;
      && |facts| == |Named(b, name)|
      && (forall i | 0 <= i < |facts| :: FactAt(b, name, number, facts[i]))
      && (forall i, j | 0 <= i < j < |facts| :: facts[i].index < facts[j].index)
  {
    hide Lower, Unfold, Named, Facts;
    if b == [] {
      FactsEmpty(name, number);
    } else {
      var init := b[..|b| - 1];
      FactsStep(b, name, number);
      FactsSound(init, name, number);
      NamedSnoc(init, b[|b| - 1], name);
      var facts, before := Facts(b, name, number).value, Facts(init, name, number).value;
      forall i | 0 <= i < |before| ensures facts[i] == before[i] && b[before[i].index] == init[before[i].index] {
        assert facts[i] == facts[..|before|][i] && FactAt(init, name, number, before[i]);
      }
    }
  }

  lemma FactsEmpty(name: octets, number: octets -> Option<pos>)
    ensures Facts([], name, number) == Ok([]) && Named([], name) == []
  {
  }

  lemma {:induction false} FactOf(b: Block, name: octets, number: octets -> Option<pos>, k: nat) returns (i: nat)
    requires Facts(b, name, number).Ok? && k < |b| && b[k].Name() == name
    ensures i < |Facts(b, name, number).value| && Facts(b, name, number).value[i].index == k
  {
    hide Lower, Unfold, Facts;
    var init := b[..|b| - 1];
    FactsStep(b, name, number);
    if k < |init| {
      assert init[k] == b[k];
      i := FactOf(init, name, number, k);
      assert Facts(b, name, number).value[..|Facts(init, name, number).value|][i].index == k;
    } else {
      i := |Facts(init, name, number).value|;
    }
  }

  /** One fact per field of the name, in block order, bearing the field's number. */
  lemma FactsMeaning(b: Block, name: octets, number: octets -> Option<pos>)
    requires Facts(b, name, number).Ok?
    ensures var facts := Facts(b, name, number).value;
      && |facts| == |Named(b, name)|
      && (forall i | 0 <= i < |facts| :: facts[i].index < |b| && b[facts[i].index].Name() == name
            && number(b[facts[i].index].Value()) == Some(facts[i].number))
      && (forall i, j | 0 <= i < j < |facts| :: facts[i].index < facts[j].index)
      && (forall k | 0 <= k < |b| && b[k].Name() == name
            :: exists i :: 0 <= i < |facts| && facts[i].index == k)
  {
    hide Lower, Unfold, Named, Facts;
    FactsSound(b, name, number);
    var facts := Facts(b, name, number).value;
    forall i | 0 <= i < |facts|
      ensures facts[i].index < |b| && b[facts[i].index].Name() == name
      ensures number(b[facts[i].index].Value()) == Some(facts[i].number)
    {
      assert FactAt(b, name, number, facts[i]);
    }
    forall k | 0 <= k < |b| && b[k].Name() == name ensures exists i :: 0 <= i < |facts| && facts[i].index == k {
      var i := FactOf(b, name, number, k);
    }
  }

  lemma FactsInRange(b: Block, name: octets, number: octets -> Option<pos>)
    ensures Facts(b, name, number).Ok?
        ==> forall i | 0 <= i < |Facts(b, name, number).value| :: Facts(b, name, number).value[i].index < |b|
  {
    if Facts(b, name, number).Ok? {
      FactsMeaning(b, name, number);
    }
  }

  predicate SequenceValid(facts: seq<Fact>, hardMaximum: nat) {
    |facts| <= hardMaximum && Contiguous(facts)
  }

  /** The validated protocol fields of a block, or the first check they fail. */
  ghost function Extraction(p: Parsers, b: Block): Result<State, Failure> {
    match Facts(b, INSTANCE, p.instance)
    case Err(e) => Err(e)
    case Ok(instances) =>
      if !SequenceValid(instances, MAX_INSTANCES) then Err(SequenceInvalid)
      else match Facts(b, SIGNATURE, p.sequence)
        case Err(e) => Err(e)
        case Ok(signatures) =>
          if !SequenceValid(signatures, MAX_SIGNATURES) then Err(SequenceInvalid)
          else
            FactsInRange(b, SIGNATURE, p.sequence);
            var s := State(instances, signatures, References(p, b, signatures));
            if ReferencesValid(s) then Ok(s) else Err(ReferencesInvalid)
  }

  method Extract(p: Parsers, b: Block) returns (r: Result<State, Failure>)
    ensures r == Extraction(p, b)
  {
    var instances := ParseFields(b, INSTANCE, p.instance);
    if instances.Err? {
      return Err(instances.error);
    }
    var instancesValid := ValidateSequence(instances.value, MAX_INSTANCES);
    if !instancesValid {
      return Err(SequenceInvalid);
    }
    var signatures := ParseFields(b, SIGNATURE, p.sequence);
    if signatures.Err? {
      return Err(signatures.error);
    }
    var signaturesValid := ValidateSequence(signatures.value, MAX_SIGNATURES);
    if !signaturesValid {
      return Err(SequenceInvalid);
    }
    FactsInRange(b, SIGNATURE, p.sequence);
    var s := State(instances.value, signatures.value, References(p, b, signatures.value));
    var referencesValid := ValidateReferences(s);
    return if referencesValid then Ok(s) else Err(ReferencesInvalid);
  }

  /** The references of the signatures in sequence order. */
  method OrderReferences(s: State) returns (ordered: seq<nat>)
    requires |s.references| == |s.signatures| && Contiguous(s.signatures)
    ensures |ordered| == |s.signatures|
    ensures forall i | 0 <= i < |s.signatures| :: ordered[s.signatures[i].number - 1] == s.references[i]
  {
    ordered := seq<nat>(|s.signatures|, _ => 0);
    var i := 0;
    while i < |s.signatures|
      invariant 0 <= i <= |s.signatures|
      invariant |ordered| == |s.signatures|
      invariant forall j | 0 <= j < i :: ordered[s.signatures[j].number - 1] == s.references[j]
    {
      ordered := ordered[s.signatures[i].number - 1 := s.references[i]];
      i := i + 1;
    }
  }

  method ValidateReferences(s: State) returns (ok: bool)
    requires |s.references| == |s.signatures| && Contiguous(s.signatures) && Contiguous(s.instances)
    ensures ok <==> ReferencesValid(s)
  {
    if |s.instances| == 0 && |s.signatures| == 0 {
      return true;
    }
    if |s.instances| == 0 || |s.signatures| == 0 {
      return false;
    }
    var ordered := OrderReferences(s);
    var previous := 0;
    var k := 0;
    while k < |ordered|
      invariant 0 <= k <= |ordered|
      invariant forall j | 0 <= j < k :: 1 <= ordered[j] <= |s.instances|
      invariant forall i, j | 0 <= i <= j < k :: ordered[i] <= ordered[j]
      invariant previous == if k == 0 then 0 else ordered[k - 1]
    {
      if ordered[k] == 0 || ordered[k] > |s.instances| || ordered[k] < previous {
        OrderedReferences(s, ordered);
        return false;
      }
      previous := ordered[k];
      k := k + 1;
    }
    OrderedReferences(s, ordered);
    return previous == |s.instances|;
  }

  lemma OrderedReferences(s: State, ordered: seq<nat>)
    requires |s.references| == |s.signatures| == |ordered| && Contiguous(s.signatures)
    requires s.instances != [] && s.signatures != []
    requires forall i | 0 <= i < |s.signatures| :: ordered[s.signatures[i].number - 1] == s.references[i]
    ensures ReferencesValid(s) <==>
      && (forall j | 0 <= j < |ordered| :: 1 <= ordered[j] <= |s.instances|)
      && (forall i, j | 0 <= i <= j < |ordered| :: ordered[i] <= ordered[j])
      && ordered[|ordered| - 1] == |s.instances|
  {
    if ReferencesValid(s) {
      forall j | 0 <= j < |ordered| ensures 1 <= ordered[j] <= |s.instances| {
        var i := ContiguousCovers(s.signatures, j + 1);
        assert ordered[j] == s.references[i];
      }
      forall i, j | 0 <= i <= j < |ordered| ensures ordered[i] <= ordered[j] {
        var a := ContiguousCovers(s.signatures, i + 1);
        var c := ContiguousCovers(s.signatures, j + 1);
        assert ordered[i] == s.references[a] && ordered[j] == s.references[c];
      }
      var last := ContiguousCovers(s.signatures, |ordered|);
      assert ordered[|ordered| - 1] == s.references[last];
    }
  }

  /** The conditions under which extraction yields `s`. */
  lemma ExtractionParts(p: Parsers, b: Block, s: State)
    ensures Extraction(p, b) == Ok(s) <==>
      && Facts(b, INSTANCE, p.instance) == Ok(s.instances) && SequenceValid(s.instances, MAX_INSTANCES)
      && Facts(b, SIGNATURE, p.sequence) == Ok(s.signatures) && SequenceValid(s.signatures, MAX_SIGNATURES)
      && (forall i | 0 <= i < |s.signatures| :: s.signatures[i].index < |b|)
      && s.references == References(p, b, s.signatures)
      && ReferencesValid(s)
  {
    FactsInRange(b, SIGNATURE, p.sequence);
  }

  // ---- Selection by number

  predicate Bears(f: Field, name: octets, number: octets -> Option<pos>, k: nat) {
    f.Name() == name && number(f.Value()).Some? && number(f.Value()).value == k
  }

  /** The first field of `name` that bears number `k`. */
  function Lookup(b: Block, name: octets, number: octets -> Option<pos>, k: nat): (r: Option<Field>)
    ensures r.Some? ==> r.value in b && Bears(r.value, name, number, k)
    ensures r.None? ==> forall i | 0 <= i < |b| :: !Bears(b[i], name, number, k)
  {
    if b == [] then None
    else if Bears(b[0], name, number, k) then Some(b[0])
    else Lookup(b[1..], name, number, k)
  }

  /** The fields of `name` numbered 1..n, in that order. */
  function Listing(b: Block, name: octets, number: octets -> Option<pos>, n: nat): (r: seq<Field>)
    ensures |r| <= n
    ensures forall f | f in r :: f in b && f.Name() == name
  {
    if n == 0 then []
    else
      var before := Listing(b, name, number, n - 1);
      match Lookup(b, name, number, n) case None => before case Some(f) => before + [f]
  }

  /** In a contiguous collection a number names one field. */
  lemma LookupUnique(b: Block, name: octets, number: octets -> Option<pos>, facts: seq<Fact>, f: Field, k: pos)
    requires Facts(b, name, number) == Ok(facts) && Contiguous(facts)
    requires f in b && Bears(f, name, number, k)
    ensures Lookup(b, name, number, k) == Some(f) && k <= |facts|
  {
    FactsMeaning(b, name, number);
    var g := Lookup(b, name, number, k).value;
    var i :| 0 <= i < |b| && b[i] == f;
    var j :| 0 <= j < |b| && b[j] == g;
    var u :| 0 <= u < |facts| && facts[u].index == i;
    var w :| 0 <= w < |facts| && facts[w].index == j;
    assert facts[u].number == k == facts[w].number;
    assert u == w;
  }

  lemma LookupOfFact(b: Block, name: octets, number: octets -> Option<pos>, facts: seq<Fact>, i: nat)
    requires Facts(b, name, number) == Ok(facts) && Contiguous(facts) && i < |facts|
    ensures facts[i].index < |b|
    ensures Lookup(b, name, number, facts[i].number) == Some(b[facts[i].index])
  {
    FactsMeaning(b, name, number);
    LookupUnique(b, name, number, facts, b[facts[i].index], facts[i].number);
  }

  lemma LookupCovers(b: Block, name: octets, number: octets -> Option<pos>, facts: seq<Fact>, k: nat)
    requires Facts(b, name, number) == Ok(facts) && Contiguous(facts)
    ensures Lookup(b, name, number, k).Some? <==> 1 <= k <= |facts|
  {
    if 1 <= k <= |facts| {
      var i := ContiguousCovers(facts, k);
      LookupOfFact(b, name, number, facts, i);
    } else if Lookup(b, name, number, k).Some? {
      LookupUnique(b, name, number, facts, Lookup(b, name, number, k).value, k);
    }
  }

  // ---- The verifier's input

  predicate FieldsWithin(c: Limits, fields: seq<Field>) {
    forall i | 0 <= i < |fields| :: |FieldBytes(fields[i])| <= c.maxFieldBytes
  }

  function Joined(fields: seq<Field>): octets {
    if fields == [] then [] else Joined(fields[..|fields| - 1]) + FieldBytes(fields[|fields| - 1])
  }

  lemma JoinedSnoc(fields: seq<Field>, f: Field)
    ensures Joined(fields + [f]) == Joined(fields) + FieldBytes(f)
  {
    assert (fields + [f])[..|fields|] == fields;
  }

  lemma {:induction false} JoinedConcat(a: seq<Field>, b: seq<Field>)
    ensures Joined(a + b) == Joined(a) + Joined(b)
  {
    if b == [] {
      assert a + b == a;
    } else {
      var init, last := b[..|b| - 1], b[|b| - 1];
      JoinedConcat(a, init);
      JoinedSnoc(a + init, last);
      JoinedSnoc(init, last);
      assert b == init + [last] && a + b == (a + init) + [last];
      Associative(Joined(a), Joined(init), FieldBytes(last));
    }
  }

  lemma Associative(x: octets, y: octets, z: octets)
    ensures (x + y) + z == x + (y + z)
  {
  }

  function Bounded(c: Limits, total: octets): Result<octets, Failure> {
    if |total| > c.maxSignatureInputBytes then Err(InputBytesLimit) else Ok(total)
  }

  /** The input of target `t` once the block is extracted: instances 1..m, signatures 1..t-1, and the target
      with null signature strings. */
  function InputOf(c: Limits, p: Parsers, b: Block, t: nat): Result<octets, Failure> {
    match Lookup(b, SIGNATURE, p.sequence, t)
    case None => Err(MissingTarget)
    case Some(f) =>
      var fields := Listing(b, INSTANCE, p.instance, p.reference(f.Value()))
        + Listing(b, SIGNATURE, p.sequence, t - 1);
      if !FieldsWithin(c, fields) then Err(FieldBytesLimit)
      else match TargetResult(c, p, f)
        case Err(e) => Err(e)
        case Ok(last) => Bounded(c, Joined(fields) + last)
  }

  function TargetResult(c: Limits, p: Parsers, f: Field): Result<octets, Failure> {
    match p.incomplete(f.Value())
    case None => Err(AmbiguousSelection)
    case Some(value) =>
      var last := CanonicalBytes(SIGNATURE, value);
      if |last| > c.maxFieldBytes then Err(FieldBytesLimit) else Ok(last)
  }

  lemma InputOfSame(c: Limits, p: Parsers, a: Block, b: Block, t: pos, f: Field)
    requires Lookup(a, SIGNATURE, p.sequence, t) == Some(f) == Lookup(b, SIGNATURE, p.sequence, t)
    requires Listing(a, INSTANCE, p.instance, p.reference(f.Value())) == Listing(b, INSTANCE, p.instance, p.reference(f.Value()))
    requires Listing(a, SIGNATURE, p.sequence, t - 1) == Listing(b, SIGNATURE, p.sequence, t - 1)
    ensures InputOf(c, p, a, t) == InputOf(c, p, b, t)
  {
  }

  function ProtocolCount(b: Block): nat {
    |Named(b, INSTANCE)| + |Named(b, SIGNATURE)|
  }

  /** What a verifier signs off: the Section 12.8 input of target `t`, or the first failing check. */
  ghost function Input(c: Limits, p: Parsers, b: Block, t: nat): Result<octets, Failure> {
    if ProtocolCount(b) > c.maxFieldCount then Err(FieldCountLimit)
    else match Extraction(p, b)
      case Err(e) => Err(e)
      case Ok(_) => InputOf(c, p, b, t)
  }

  datatype Record = Record(number: nat, headerIndex: int, bytes: octets)

  predicate ByNumber(a: Record, b: Record) {
    a.number < b.number
  }

  function Bytes(records: seq<Record>): octets {
    if records == [] then [] else Bytes(records[..|records| - 1]) + records[|records| - 1].bytes
  }

  /** `records` render `fields` and are numbered 1, 2, 3 and so on. */
  ghost predicate Renders(records: seq<Record>, fields: seq<Field>) {
    && |records| == |fields|
    && forall i | 0 <= i < |records| :: records[i].number == i + 1 && records[i].bytes == FieldBytes(fields[i])
  }

  lemma {:induction false} RenderedBytes(records: seq<Record>, fields: seq<Field>)
    requires Renders(records, fields)
    ensures Bytes(records) == Joined(fields)
  {
    if records != [] {
      RenderedBytes(records[..|records| - 1], fields[..|fields| - 1]);
    }
  }

  method SortRecords(records: seq<Record>) returns (sorted: seq<Record>)
    requires forall i | 0 <= i < |records| :: records[i].number == i + 1
    ensures sorted == records
  {
    sorted := SortBy(records, ByNumber);
    SortedUnique(sorted, records, ByNumber);
  }

  function CheckedAdd(left: nat, right: nat): Option<nat> {
    if right > MAX_INT - left then None else Some(left + right)
  }

  method Append(output: octets, record: Record, limit: goInt) returns (r: Result<octets, Failure>)
    ensures |output| + |record.bytes| > limit ==> r == Err(InputBytesLimit)
    ensures |output| + |record.bytes| <= limit ==> r == Ok(output + record.bytes)
  {
    var total := CheckedAdd(|output|, |record.bytes|);
    if total.None? || total.value > limit {
      return Err(InputBytesLimit);
    }
    return Ok(output + record.bytes);
  }

  method AppendAll(output: octets, records: seq<Record>, limit: goInt) returns (r: Result<octets, Failure>)
    requires |output| <= limit
    ensures |output| + |Bytes(records)| > limit ==> r == Err(InputBytesLimit)
    ensures |output| + |Bytes(records)| <= limit ==> r == Ok(output + Bytes(records))
  {
    var canonical := output;
    var i := 0;
    assert records[..|records|] == records;
    while i < |records|
      invariant 0 <= i <= |records|
      invariant canonical == output + Bytes(records[..i]) && |canonical| <= limit
    {
      assert records[..i + 1][..i] == records[..i];
      var appended := Append(canonical, records[i], limit);
      if appended.Err? {
        BytesGrow(records, i + 1);
        return appended;
      }
      canonical := appended.value;
      i := i + 1;
    }
    return Ok(canonical);
  }

  lemma {:induction false} BytesGrow(records: seq<Record>, i: nat)
    requires i <= |records|
    ensures |Bytes(records[..i])| <= |Bytes(records)|
    decreases |records|
  {
    if i < |records| {
      assert records[..|records| - 1][..i] == records[..i];
      BytesGrow(records[..|records| - 1], i);
    } else {
      assert records[..i] == records;
    }
  }

  lemma {:induction false} ListingPrefix(b: Block, name: octets, number: octets -> Option<pos>, k: nat, n: nat)
    requires k <= n
    ensures Listing(b, name, number, k) <= Listing(b, name, number, n)
  {
    if k < n {
      ListingPrefix(b, name, number, k, n - 1);
    }
  }

  lemma OversizedListed(c: Limits, b: Block, name: octets, number: octets -> Option<pos>, k: nat, n: nat)
    requires k <= n && !FieldsWithin(c, Listing(b, name, number, k))
    ensures !FieldsWithin(c, Listing(b, name, number, n))
  {
    ListingPrefix(b, name, number, k, n);
    var i :| 0 <= i < |Listing(b, name, number, k)| && |FieldBytes(Listing(b, name, number, k)[i])| > c.maxFieldBytes;
    assert Listing(b, name, number, n)[i] == Listing(b, name, number, k)[i];
  }

  /** Index the collection by number. The source's duplicate check cannot fire after validation. */
  method IndexByNumber(facts: seq<Fact>) returns (byNumber: map<nat, nat>)
    requires Contiguous(facts)
    ensures forall i | 0 <= i < |facts| :: facts[i].number in byNumber && byNumber[facts[i].number] == i
    ensures forall k | k in byNumber :: byNumber[k] < |facts| && facts[byNumber[k]].number == k
  {
    byNumber := map[];
    var i := 0;
    while i < |facts|
      invariant 0 <= i <= |facts|
      invariant forall j | 0 <= j < i :: facts[j].number in byNumber && byNumber[facts[j].number] == j
      invariant forall k | k in byNumber :: byNumber[k] < i && facts[byNumber[k]].number == k
    {
      if facts[i].number in byNumber {
        assert false; // duplicate target
      }
      byNumber := byNumber[facts[i].number := i];
      i := i + 1;
    }
  }

  /** The record of number `k`. After validation the number is not missing, and the field found under its
      parsed header index bears the parsed name and number again, so only the size limit can fail. */
  method RecordAt(c: Limits, b: Block, name: octets, number: octets -> Option<pos>, facts: seq<Fact>,
                  byNumber: map<nat, nat>, k: pos)
    returns (r: Result<Record, Failure>)
    requires Facts(b, name, number) == Ok(facts) && Contiguous(facts) && k <= |facts|
    requires forall i | 0 <= i < |facts| :: facts[i].number in byNumber && byNumber[facts[i].number] == i
    requires forall n | n in byNumber :: byNumber[n] < |facts| && facts[byNumber[n]].number == n
    ensures Lookup(b, name, number, k).Some?
    ensures var f := Lookup(b, name, number, k).value;
      if |FieldBytes(f)| > c.maxFieldBytes then r == Err(FieldBytesLimit)
      else r.Ok? && r.value.number == k && r.value.bytes == FieldBytes(f)
  {
    ghost var i := ContiguousCovers(facts, k);
    FactsMeaning(b, name, number);
    LookupOfFact(b, name, number, facts, i);
    if k !in byNumber {
      assert false; // missing target
    }
    var index := facts[byNumber[k]].index;
    var f := b[index];
    if f.Name() != name || number(f.Value()) != Some(k) {
      assert false; // ambiguous selection
    }
    var canonical := CanonicalizeField(f.Name(), f.Value());
    if |canonical| > c.maxFieldBytes {
      return Err(FieldBytesLimit);
    }
    return Ok(Record(k, index, canonical));
  }

  lemma RendersSnoc(records: seq<Record>, fields: seq<Field>, record: Record, f: Field)
    requires Renders(records, fields) && record.number == |records| + 1 && record.bytes == FieldBytes(f)
    ensures Renders(records + [record], fields + [f])
  {
  }

  /** Records of the fields numbered 1..upTo. */
  method SelectRecords(c: Limits, b: Block, name: octets, number: octets -> Option<pos>, facts: seq<Fact>, upTo: nat)
    returns (r: Result<seq<Record>, Failure>)
    requires Facts(b, name, number) == Ok(facts) && Contiguous(facts) && upTo <= |facts|
    ensures FieldsWithin(c, Listing(b, name, number, upTo)) ==>
      r.Ok? && |r.value| == upTo && Renders(r.value, Listing(b, name, number, upTo))
    ensures !FieldsWithin(c, Listing(b, name, number, upTo)) ==> r == Err(FieldBytesLimit)
  {
    var byNumber := IndexByNumber(facts);
    var records := [];
    var k := 1;
    while k <= upTo
      invariant 1 <= k <= upTo + 1
      invariant |records| == k - 1 && Renders(records, Listing(b, name, number, k - 1))
      invariant FieldsWithin(c, Listing(b, name, number, k - 1))
    {
      var record := RecordAt(c, b, name, number, facts, byNumber, k);
      ghost var before := Listing(b, name, number, k - 1);
      assert Listing(b, name, number, k) == before + [Lookup(b, name, number, k).value];
      if record.Err? {
        assert Listing(b, name, number, k)[|before|] == Lookup(b, name, number, k).value;
        OversizedListed(c, b, name, number, k, upTo);
        return Err(record.error);
      }
      RendersSnoc(records, before, record.value, Lookup(b, name, number, k).value);
      records := records + [record.value];
      k := k + 1;
    }
    records := SortRecords(records);
    return Ok(records);
  }

  method SelectTarget(p: Parsers, b: Block, s: State, t: nat) returns (r: Result<nat, Failure>)
    requires Extraction(p, b) == Ok(s)
    ensures Lookup(b, SIGNATURE, p.sequence, t) == None ==> r == Err(MissingTarget)
    ensures Lookup(b, SIGNATURE, p.sequence, t).Some? ==>
      r.Ok? && r.value < |s.signatures| && s.signatures[r.value].number == t
  {
    LookupCovers(b, SIGNATURE, p.sequence, s.signatures, t);
    if t == 0 {
      return Err(MissingTarget);
    }
    var found: Option<nat> := None;
    var j := 0;
    while j < |s.signatures|
      invariant 0 <= j <= |s.signatures|
      invariant found.Some? ==> found.value < |s.signatures| && s.signatures[found.value].number == t
      invariant found.None? ==> forall k | 0 <= k < j :: s.signatures[k].number != t
    {
      if s.signatures[j].number == t {
        found := Some(j);
      }
      j := j + 1;
    }
    if found == None {
      if Lookup(b, SIGNATURE, p.sequence, t).Some? {
        ghost var i := ContiguousCovers(s.signatures, t);
      }
      return Err(MissingTarget);
    }
    return Ok(found.value);
  }

  method SignatureInput(c: Limits, p: Parsers, b: Block, t: nat) returns (r: Result<octets, Failure>)
    ensures r == Input(c, p, b, t)
  {
    if |Named(b, INSTANCE)| + |Named(b, SIGNATURE)| > c.maxFieldCount {
      return Err(FieldCountLimit);
    }
    var extracted := Extract(p, b);
    if extracted.Err? {
      return Err(extracted.error);
    }
    var s := extracted.value;
    var target := SelectTarget(p, b, s, t);
    if target.Err? {
      return Err(target.error);
    }
    r := Assemble(c, p, b, s, target.value);
  }

  /** Append the instance records, the signature records and the target, in this order. */
  method AppendParts(c: Limits, instances: seq<Record>, signatures: seq<Record>, target: Record)
    returns (r: Result<octets, Failure>)
    ensures r == Bounded(c, Bytes(instances) + Bytes(signatures) + target.bytes)
  {
    r := AppendAll([], instances, c.maxSignatureInputBytes);
    if r.Err? {
      return;
    }
    assert [] + Bytes(instances) == Bytes(instances);
    r := AppendAll(r.value, signatures, c.maxSignatureInputBytes);
    if r.Err? {
      return;
    }
    r := Append(r.value, target, c.maxSignatureInputBytes);
  }

  lemma PartsBytes(instances: seq<Record>, a: seq<Field>, signatures: seq<Record>, b: seq<Field>)
    requires Renders(instances, a) && Renders(signatures, b)
    ensures Bytes(instances) + Bytes(signatures) == Joined(a + b)
  {
    RenderedBytes(instances, a);
    RenderedBytes(signatures, b);
    JoinedConcat(a, b);
  }

  method TargetBytes(c: Limits, p: Parsers, f: Field) returns (r: Result<octets, Failure>)
    ensures r == TargetResult(c, p, f)
  {
    var incomplete := p.incomplete(f.Value());
    if incomplete == None {
      return Err(AmbiguousSelection);
    }
    var last := CanonicalizeField(SIGNATURE, incomplete.value);
    if |last| > c.maxFieldBytes {
      return Err(FieldBytesLimit);
    }
    return Ok(last);
  }

  lemma InputOfParts(c: Limits, p: Parsers, b: Block, t: pos, f: Field, a: seq<Field>, z: seq<Field>)
    requires Lookup(b, SIGNATURE, p.sequence, t) == Some(f)
    requires a == Listing(b, INSTANCE, p.instance, p.reference(f.Value()))
    requires z == Listing(b, SIGNATURE, p.sequence, t - 1)
    ensures InputOf(c, p, b, t) ==
      if !FieldsWithin(c, a) || !FieldsWithin(c, z) then Err(FieldBytesLimit)
      else match TargetResult(c, p, f)
        case Err(e) => Err(e)
        case Ok(last) => Bounded(c, Joined(a + z) + last)
  {
    WithinConcat(c, a, z);
  }

  method Assemble(c: Limits, p: Parsers, b: Block, s: State, j: nat) returns (r: Result<octets, Failure>)
    requires Extraction(p, b) == Ok(s) && j < |s.signatures|
    requires ProtocolCount(b) <= c.maxFieldCount
    ensures r == InputOf(c, p, b, s.signatures[j].number)
  {
    hide Extraction, InputOf, TargetResult, Joined, Bytes, FieldsWithin, Listing, Lookup, Named, Lower, Unfold, Facts;
    ExtractionParts(p, b, s);
    var t: nat := s.signatures[j].number;
    LookupOfFact(b, SIGNATURE, p.sequence, s.signatures, j);
    var f := b[s.signatures[j].index];
    ghost var a, z := Listing(b, INSTANCE, p.instance, s.references[j]), Listing(b, SIGNATURE, p.sequence, t - 1);
    InputOfParts(c, p, b, t, f, a, z);
    IncludedCount(p, b, s, j);
    var instances := SelectRecords(c, b, INSTANCE, p.instance, s.instances, s.references[j]);
    if instances.Err? {
      return Err(instances.error);
    }
    var signatures := SelectRecords(c, b, SIGNATURE, p.sequence, s.signatures, t - 1);
    if signatures.Err? {
      return Err(signatures.error);
    }
    PartsBytes(instances.value, a, signatures.value, z);
    var last := TargetBytes(c, p, f);
    if last.Err? {
      return Err(last.error);
    }
    if |instances.value| + |signatures.value| + 1 > c.maxFieldCount {
      assert false; // the included fields are among the counted ones
    }
    r := AppendParts(c, instances.value, signatures.value, Record(t, s.signatures[j].index, last.value));
  }

  lemma WithinConcat(c: Limits, a: seq<Field>, b: seq<Field>)
    ensures FieldsWithin(c, a + b) <==> FieldsWithin(c, a) && FieldsWithin(c, b)
  {
    if FieldsWithin(c, a + b) {
      forall i | 0 <= i < |a| ensures |FieldBytes(a[i])| <= c.maxFieldBytes {
        assert (a + b)[i] == a[i];
      }
      forall i | 0 <= i < |b| ensures |FieldBytes(b[i])| <= c.maxFieldBytes {
        assert (a + b)[|a| + i] == b[i];
      }
    }
  }

  lemma IncludedCount(p: Parsers, b: Block, s: State, j: nat)
    requires Extraction(p, b) == Ok(s) && j < |s.signatures|
    ensures s.references[j] + s.signatures[j].number <= ProtocolCount(b)
    ensures s.references[j] <= |s.instances| == |Named(b, INSTANCE)|
    ensures s.signatures[j].number <= |s.signatures| == |Named(b, SIGNATURE)|
  {
    FactsMeaning(b, INSTANCE, p.instance);
    FactsMeaning(b, SIGNATURE, p.sequence);
  }
}
