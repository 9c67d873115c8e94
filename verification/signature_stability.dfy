/** Signature input depends only on which protocol fields a block holds, not on their order or on anything
    between them, and a target's input survives every later hop. */
module SignatureStability {
  import opened Octets
  import opened RawMessage
  import opened SignatureInput

  /** The fields bear the numbers 1..n, each exactly once. */
  ghost predicate Numbered(fields: multiset<Field>, number: octets -> Option<pos>, n: nat) {
    && (forall f | f in fields :: fields[f] == 1 && number(f.Value()).Some? && number(f.Value()).value <= n)
    && (forall f, g | f in fields && g in fields && number(f.Value()) == number(g.Value()) :: f == g)
    && (forall k: pos | k <= n :: exists f :: f in fields && number(f.Value()) == Some(k))
  }

  /** Extraction, said of the protocol fields alone: m instances and n signatures whose references are in
      order. */
  ghost predicate Coherent(p: Parsers, instances: multiset<Field>, signatures: multiset<Field>, m: nat, n: nat) {
    && m <= MAX_INSTANCES && n <= MAX_SIGNATURES
    && Numbered(instances, p.instance, m) && Numbered(signatures, p.sequence, n)
    && (m == 0 <==> n == 0)
    && ReferencesCoherent(p, signatures, m, n)
  }

  function Sequence(p: Parsers, f: Field): nat {
    match p.sequence(f.Value()) case Some(k) => k case None => 0
  }

  function Fields(b: Block, name: octets): multiset<Field> {
    multiset(Named(b, name))
  }

  lemma NumberedHas(fields: multiset<Field>, number: octets -> Option<pos>, n: nat, k: pos) returns (f: Field)
    requires Numbered(fields, number, n) && k <= n
    ensures f in fields && number(f.Value()).Some? && number(f.Value()).value == k
  {
    var wanted := Some(k);
    assert exists g :: g in fields && number(g.Value()) == wanted;
    f :| f in fields && number(f.Value()) == Some(k);
  }

  // ---- Multiplicities

  lemma {:induction false} TwoOccurrences(b: Block, f: Field) returns (i: nat, j: nat)
    requires multiset(b)[f] >= 2
    ensures i < j < |b| && b[i] == b[j] == f
  {
    assert b == [b[0]] + b[1..];
    if b[0] == f {
      assert f in multiset(b[1..]);
      var k :| 0 <= k < |b[1..]| && b[1..][k] == f;
      return 0, k + 1;
    }
    i, j := TwoOccurrences(b[1..], f);
    i, j := i + 1, j + 1;
  }

  lemma RepeatedField(b: Block, i: nat, j: nat)
    requires i < j < |b| && b[i] == b[j]
    ensures multiset(b)[b[i]] >= 2
  {
    assert b == b[..j] + [b[j]] + b[j + 1..];
    assert b[..j][i] == b[i];
    assert b[i] in multiset(b[..j]);
  }

  lemma FieldIn(b: Block, name: octets, f: Field)
    ensures f in Fields(b, name) <==> f in b && f.Name() == name
  {
    assert f in Fields(b, name) <==> f in Named(b, name);
  }

  // ---- Extraction by fields

  lemma {:induction false} FactsParse(b: Block, name: octets, number: octets -> Option<pos>)
    ensures Facts(b, name, number).Ok? <==> forall i | 0 <= i < |b| && b[i].Name() == name :: number(b[i].Value()).Some?
  {
    if b != [] {
      var init := b[..|b| - 1];
      FactsParse(init, name, number);
      assert forall i | 0 <= i < |init| :: init[i] == b[i];
    }
  }

  lemma ContiguousNumbered(b: Block, name: octets, number: octets -> Option<pos>, facts: seq<Fact>)
    requires Facts(b, name, number) == Ok(facts) && Contiguous(facts)
    ensures Numbered(Fields(b, name), number, |facts|)
  {
    var fields := Fields(b, name);
    FactsMeaning(b, name, number);
    forall f | f in fields ensures fields[f] == 1 && number(f.Value()).Some? && number(f.Value()).value <= |facts| {
      FieldIn(b, name, f);
      var i :| 0 <= i < |b| && b[i] == f;
      var u :| 0 <= u < |facts| && facts[u].index == i;
      NamedMultiplicity(b, f);
      if fields[f] >= 2 {
        var x, y := TwoOccurrences(b, f);
        SameNumberSameIndex(b, name, number, facts, x, y);
      }
    }
    forall f, g | f in fields && g in fields && number(f.Value()) == number(g.Value()) ensures f == g {
      FieldIn(b, name, f);
      FieldIn(b, name, g);
      LookupUnique(b, name, number, facts, f, number(f.Value()).value);
      LookupUnique(b, name, number, facts, g, number(f.Value()).value);
    }
    forall k: pos | k <= |facts| ensures exists f :: f in fields && number(f.Value()) == Some(k) {
      var i := ContiguousCovers(facts, k);
      FieldIn(b, name, b[facts[i].index]);
    }
  }

  lemma SameNumberSameIndex(b: Block, name: octets, number: octets -> Option<pos>, facts: seq<Fact>, x: nat, y: nat)
    requires Facts(b, name, number) == Ok(facts) && Contiguous(facts)
    requires x < |b| && y < |b| && b[x].Name() == name == b[y].Name() && number(b[x].Value()) == number(b[y].Value())
    ensures x == y
  {
    hide Facts, Named, Lower, Unfold;
    FactsMeaning(b, name, number);
    var u :| 0 <= u < |facts| && facts[u].index == x;
    var w :| 0 <= w < |facts| && facts[w].index == y;
    assert facts[u].number == facts[w].number;
  }

  lemma NumberedFacts(b: Block, name: octets, number: octets -> Option<pos>, n: nat) returns (facts: seq<Fact>)
    requires Numbered(Fields(b, name), number, n)
    ensures Facts(b, name, number) == Ok(facts)
    ensures forall i | 0 <= i < |facts| :: facts[i].index < |b| && b[facts[i].index] in Fields(b, name)
    ensures forall i | 0 <= i < |facts| :: facts[i].number <= n
  {
    forall i | 0 <= i < |b| && b[i].Name() == name ensures b[i] in Fields(b, name) {
      FieldIn(b, name, b[i]);
    }
    FactsParse(b, name, number);
    FactsMeaning(b, name, number);
    facts := Facts(b, name, number).value;
  }

  lemma NumberedDistinct(b: Block, name: octets, number: octets -> Option<pos>, n: nat, facts: seq<Fact>)
    requires Numbered(Fields(b, name), number, n) && Facts(b, name, number) == Ok(facts)
    requires forall i | 0 <= i < |facts| :: facts[i].index < |b| && b[facts[i].index] in Fields(b, name)
    ensures forall i, j | 0 <= i < j < |facts| :: facts[i].number != facts[j].number
  {
    FactsMeaning(b, name, number);
    forall i, j | 0 <= i < j < |facts| ensures facts[i].number != facts[j].number {
      var f, g := b[facts[i].index], b[facts[j].index];
      if f == g {
        RepeatedField(b, facts[i].index, facts[j].index);
        NamedMultiplicity(b, f);
      } else {
        assert number(f.Value()) != number(g.Value());
      }
    }
  }

  lemma NumberedCovered(b: Block, name: octets, number: octets -> Option<pos>, n: nat, facts: seq<Fact>, k: pos)
    requires Numbered(Fields(b, name), number, n) && Facts(b, name, number) == Ok(facts) && k <= n
    ensures Occurs(facts, k)
  {
    hide Facts, Named, Lower, Unfold;
    FactsMeaning(b, name, number);
    var f :| f in Fields(b, name) && number(f.Value()) == Some(k);
    FieldIn(b, name, f);
    var i :| 0 <= i < |b| && b[i] == f;
    var u :| 0 <= u < |facts| && facts[u].index == i;
    assert facts[u].number == k;
  }

  lemma NumberedContiguous(b: Block, name: octets, number: octets -> Option<pos>, n: nat)
    requires Numbered(Fields(b, name), number, n)
    ensures Facts(b, name, number).Ok?
    ensures Contiguous(Facts(b, name, number).value) && |Facts(b, name, number).value| == n
  {
    var facts := NumberedFacts(b, name, number, n);
    NumberedDistinct(b, name, number, n, facts);
    forall k | 1 <= k <= n ensures Occurs(facts, k) {
      NumberedCovered(b, name, number, n, facts, k);
    }
    CoverCount(facts, n);
  }

  /** Extraction succeeds exactly on coherent protocol fields, whatever their order and surroundings. */
  lemma ExtractionIff(p: Parsers, b: Block, m: nat, n: nat)
    ensures (Extraction(p, b).Ok? && |Extraction(p, b).value.instances| == m && |Extraction(p, b).value.signatures| == n)
       <==> Coherent(p, Fields(b, INSTANCE), Fields(b, SIGNATURE), m, n)
  {
    if Extraction(p, b).Ok? {
      var s := Extraction(p, b).value;
      if |s.instances| == m && |s.signatures| == n {
        ExtractedCoherent(p, b, s);
      }
    }
    if Coherent(p, Fields(b, INSTANCE), Fields(b, SIGNATURE), m, n) {
      CoherentExtracts(p, b, m, n);
    }
  }

  lemma SignatureFact(p: Parsers, b: Block, facts: seq<Fact>, f: Field) returns (i: nat)
    requires Facts(b, SIGNATURE, p.sequence) == Ok(facts) && f in Fields(b, SIGNATURE)
    ensures i < |facts| && facts[i].index < |b| && b[facts[i].index] == f && facts[i].number == Sequence(p, f)
  {
    FactsMeaning(b, SIGNATURE, p.sequence);
    FieldIn(b, SIGNATURE, f);
    var k :| 0 <= k < |b| && b[k] == f;
    i :| 0 <= i < |facts| && facts[i].index == k;
  }

  ghost predicate ReferencesCoherent(p: Parsers, signatures: multiset<Field>, m: nat, n: nat) {
    && (forall f | f in signatures :: 1 <= p.reference(f.Value()) <= m)
    && (forall f, g | f in signatures && g in signatures && Sequence(p, f) <= Sequence(p, g)
          :: p.reference(f.Value()) <= p.reference(g.Value()))
    && (forall f | f in signatures && Sequence(p, f) == n :: p.reference(f.Value()) == m)
  }

  lemma ReferencesHold(p: Parsers, b: Block, s: State)
    requires Facts(b, SIGNATURE, p.sequence) == Ok(s.signatures)
    requires forall i | 0 <= i < |s.signatures| :: s.signatures[i].index < |b|
    requires s.references == References(p, b, s.signatures) && ReferencesValid(s)
    ensures ReferencesCoherent(p, Fields(b, SIGNATURE), |s.instances|, |s.signatures|)
  {
    hide Facts, Fields;
    var signatures := Fields(b, SIGNATURE);
    forall f | f in signatures
      ensures 1 <= p.reference(f.Value()) <= |s.instances|
      ensures Sequence(p, f) == |s.signatures| ==> p.reference(f.Value()) == |s.instances|
    {
      var i := SignatureFact(p, b, s.signatures, f);
    }
    forall f, g | f in signatures && g in signatures && Sequence(p, f) <= Sequence(p, g)
      ensures p.reference(f.Value()) <= p.reference(g.Value())
    {
      var i := SignatureFact(p, b, s.signatures, f);
      var j := SignatureFact(p, b, s.signatures, g);
      assert s.references[i] <= s.references[j];
    }
  }

  lemma ReferencesFollow(p: Parsers, b: Block, s: State)
    requires Facts(b, SIGNATURE, p.sequence) == Ok(s.signatures)
    requires forall i | 0 <= i < |s.signatures| :: s.signatures[i].index < |b|
    requires s.references == References(p, b, s.signatures)
    requires s.instances == [] <==> s.signatures == []
    requires ReferencesCoherent(p, Fields(b, SIGNATURE), |s.instances|, |s.signatures|)
    ensures ReferencesValid(s)
  {
    var signatures := Fields(b, SIGNATURE);
    FactsMeaning(b, SIGNATURE, p.sequence);
    forall i | 0 <= i < |s.signatures|
      ensures b[s.signatures[i].index] in signatures
      ensures Sequence(p, b[s.signatures[i].index]) == s.signatures[i].number
    {
      FieldIn(b, SIGNATURE, b[s.signatures[i].index]);
    }
    forall i | 0 <= i < |s.references| ensures 1 <= s.references[i] <= |s.instances| {
      assert b[s.signatures[i].index] in signatures;
    }
    forall i, j | 0 <= i < |s.signatures| && 0 <= j < |s.signatures| && s.signatures[i].number <= s.signatures[j].number
      ensures s.references[i] <= s.references[j]
    {
      assert b[s.signatures[i].index] in signatures && b[s.signatures[j].index] in signatures;
    }
  }

  lemma ExtractedCoherent(p: Parsers, b: Block, s: State)
    requires Extraction(p, b) == Ok(s)
    ensures Coherent(p, Fields(b, INSTANCE), Fields(b, SIGNATURE), |s.instances|, |s.signatures|)
  {
    ExtractionParts(p, b, s);
    ContiguousNumbered(b, INSTANCE, p.instance, s.instances);
    ContiguousNumbered(b, SIGNATURE, p.sequence, s.signatures);
    ReferencesHold(p, b, s);
  }

  lemma CoherentExtracts(p: Parsers, b: Block, m: nat, n: nat)
    requires Coherent(p, Fields(b, INSTANCE), Fields(b, SIGNATURE), m, n)
    ensures Extraction(p, b).Ok?
    ensures |Extraction(p, b).value.instances| == m && |Extraction(p, b).value.signatures| == n
  {
    NumberedContiguous(b, INSTANCE, p.instance, m);
    NumberedContiguous(b, SIGNATURE, p.sequence, n);
    var instances, signatures := Facts(b, INSTANCE, p.instance).value, Facts(b, SIGNATURE, p.sequence).value;
    FactsInRange(b, SIGNATURE, p.sequence);
    var s := State(instances, signatures, References(p, b, signatures));
    ReferencesFollow(p, b, s);
    ExtractionParts(p, b, s);
  }

  // ---- Stability

  ghost predicate Covered(small: Block, big: Block, name: octets) {
    forall f | f in small && f.Name() == name :: f in big
  }

  lemma SameLookup(small: Block, big: Block, name: octets, number: octets -> Option<pos>,
                   few: seq<Fact>, many: seq<Fact>, k: nat)
    requires Facts(small, name, number) == Ok(few) && Contiguous(few)
    requires Facts(big, name, number) == Ok(many) && Contiguous(many)
    requires Covered(small, big, name) && 1 <= k <= |few|
    ensures Lookup(small, name, number, k).Some? && Lookup(big, name, number, k) == Lookup(small, name, number, k)
    ensures k <= |many|
  {
    LookupCovers(small, name, number, few, k);
    LookupUnique(big, name, number, many, Lookup(small, name, number, k).value, k);
  }

  lemma {:induction false} SameListing(small: Block, big: Block, name: octets, number: octets -> Option<pos>,
                                       few: seq<Fact>, many: seq<Fact>, k: nat)
    requires Facts(small, name, number) == Ok(few) && Contiguous(few)
    requires Facts(big, name, number) == Ok(many) && Contiguous(many)
    requires Covered(small, big, name) && k <= |few|
    ensures Listing(big, name, number, k) == Listing(small, name, number, k) && k <= |many|
  {
    if k > 0 {
      SameLookup(small, big, name, number, few, many, k);
      SameListing(small, big, name, number, few, many, k - 1);
    }
  }

  lemma CoveredCounts(p: Parsers, small: Block, big: Block)
    requires Extraction(p, small).Ok? && Extraction(p, big).Ok?
    requires Covered(small, big, INSTANCE) && Covered(small, big, SIGNATURE)
    ensures ProtocolCount(small) <= ProtocolCount(big)
  {
    var s, z := Extraction(p, small).value, Extraction(p, big).value;
    SameListing(small, big, INSTANCE, p.instance, s.instances, z.instances, |s.instances|);
    SameListing(small, big, SIGNATURE, p.sequence, s.signatures, z.signatures, |s.signatures|);
    FactsMeaning(small, INSTANCE, p.instance);
    FactsMeaning(small, SIGNATURE, p.sequence);
    FactsMeaning(big, INSTANCE, p.instance);
    FactsMeaning(big, SIGNATURE, p.sequence);
  }

  lemma TargetReference(p: Parsers, b: Block, s: State, t: nat)
    requires Extraction(p, b) == Ok(s) && 1 <= t <= |s.signatures|
    ensures Lookup(b, SIGNATURE, p.sequence, t).Some?
    ensures 1 <= p.reference(Lookup(b, SIGNATURE, p.sequence, t).value.Value()) <= |s.instances|
  {
    ExtractionParts(p, b, s);
    LookupCovers(b, SIGNATURE, p.sequence, s.signatures, t);
    ExtractedCoherent(p, b, s);
    FieldIn(b, SIGNATURE, Lookup(b, SIGNATURE, p.sequence, t).value);
  }

  lemma SameSignatures(p: Parsers, small: Block, big: Block, t: nat)
    requires Extraction(p, small).Ok? && Extraction(p, big).Ok?
    requires Covered(small, big, SIGNATURE)
    requires 1 <= t <= |Extraction(p, small).value.signatures|
    ensures Lookup(big, SIGNATURE, p.sequence, t) == Lookup(small, SIGNATURE, p.sequence, t)
    ensures Listing(big, SIGNATURE, p.sequence, t - 1) == Listing(small, SIGNATURE, p.sequence, t - 1)
  {
    var s, z := Extraction(p, small).value, Extraction(p, big).value;
    ExtractionParts(p, small, s);
    ExtractionParts(p, big, z);
    SameLookup(small, big, SIGNATURE, p.sequence, s.signatures, z.signatures, t);
    SameListing(small, big, SIGNATURE, p.sequence, s.signatures, z.signatures, t - 1);
  }

  lemma SameInstances(p: Parsers, small: Block, big: Block, m: nat)
    requires Extraction(p, small).Ok? && Extraction(p, big).Ok?
    requires Covered(small, big, INSTANCE) && m <= |Extraction(p, small).value.instances|
    ensures Listing(big, INSTANCE, p.instance, m) == Listing(small, INSTANCE, p.instance, m)
  {
    var s, z := Extraction(p, small).value, Extraction(p, big).value;
    ExtractionParts(p, small, s);
    ExtractionParts(p, big, z);
    SameListing(small, big, INSTANCE, p.instance, s.instances, z.instances, m);
  }

  /** A target's input is the same in every block that extracts and still holds the fields up to it: later
      hops, reordering and foreign fields do not matter. */
  lemma InputStable(c: Limits, p: Parsers, small: Block, big: Block, t: nat)
    requires Extraction(p, small).Ok? && Extraction(p, big).Ok?
    requires Covered(small, big, INSTANCE) && Covered(small, big, SIGNATURE)
    requires 1 <= t <= |Extraction(p, small).value.signatures|
    ensures InputOf(c, p, big, t) == InputOf(c, p, small, t)
  {
    TargetReference(p, small, Extraction(p, small).value, t);
    var f := Lookup(small, SIGNATURE, p.sequence, t).value;
    SameSignatures(p, small, big, t);
    SameInstances(p, small, big, p.reference(f.Value()));
    InputOfSame(c, p, small, big, t, f);
  }

  /** The verifier's answer for a target can later change in one way only: too many protocol fields. */
  lemma LaterHopsKeepInput(c: Limits, p: Parsers, before: Block, after: Block, t: nat)
    requires Extraction(p, before).Ok? && Extraction(p, after).Ok?
    requires Covered(before, after, INSTANCE) && Covered(before, after, SIGNATURE)
    requires 1 <= t <= |Extraction(p, before).value.signatures|
    ensures ProtocolCount(before) <= ProtocolCount(after)
    ensures Input(c, p, after, t)
         == if ProtocolCount(after) > c.maxFieldCount then Err(FieldCountLimit) else Input(c, p, before, t)
  {
    CoveredCounts(p, before, after);
    InputStable(c, p, before, after, t);
  }
}
