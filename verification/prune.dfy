/** Section 16.3 pruning (draft-ietf-dkim-dkim2-spec-09): the header block below a run of local hops. */
module Prune {
  import opened Octets
  import opened RawMessage
  import opened SignatureInput
  import opened SignatureStability
  import HeaderHash

  /** The local run `lowest..completion` over the previous hop `lowest - 1`, which signs `previousInstance`. */
  datatype Run = Run(completion: nat, lowest: nat, previousInstance: nat) {
    predicate Valid() {
      1 < lowest <= completion
    }

    function Previous(): nat
      requires Valid()
    {
      lowest - 1
    }

    predicate Member(sequence: nat) {
      lowest <= sequence <= completion
    }
  }

  /** A field survives by its tag value if it is a protocol field, and otherwise by its position and name. */
  predicate Survives(p: Parsers, f: Field, index: int, previousIndex: int, run: Run) {
    if f.Name() == SIGNATURE then !run.Member(Sequence(p, f))
    else if f.Name() == INSTANCE then Number(p, f) <= run.previousInstance
    else index >= previousIndex || HeaderHash.Relevant(f.Name())
  }

  function Number(p: Parsers, f: Field): nat {
    match p.instance(f.Value()) case Some(k) => k case None => 0
  }

  /** The surviving fields in wire order. */
  function Survivors(p: Parsers, b: Block, previousIndex: int, run: Run): Block {
    if b == [] then []
    else
      Survivors(p, b[..|b| - 1], previousIndex, run)
      + if Survives(p, b[|b| - 1], |b| - 1, previousIndex, run) then [b[|b| - 1]] else []
  }

  /** The surviving protocol fields in wire order. */
  function Protocol(b: Block): Block {
    if b == [] then []
    else
      Protocol(b[..|b| - 1])
      + if IsProtocol(b[|b| - 1]) then [b[|b| - 1]] else []
  }

  predicate IsProtocol(f: Field) {
    f.Name() == SIGNATURE || f.Name() == INSTANCE
  }

  ghost predicate FactMap(m: map<nat, nat>, b: Block, name: octets, number: octets -> Option<pos>) {
    forall i | 0 <= i < |b| && b[i].Name() == name ::
      i in m && number(b[i].Value()).Some? && m[i] == number(b[i].Value()).value
  }

  method IndexFacts(b: Block, name: octets, number: octets -> Option<pos>, facts: seq<Fact>)
    returns (m: map<nat, nat>)
    requires Facts(b, name, number) == Ok(facts)
    ensures FactMap(m, b, name, number)
  {
    FactsIncrease(b, name, number);
    m := map[];
    var i := 0;
    while i < |facts|
      invariant 0 <= i <= |facts|
      invariant Indexed(m, facts, i)
    {
      hide Facts, Increasing, Indexed, FactMap;
      IndexedStep(m, facts, i);
      m := m[facts[i].index := facts[i].number];
      i := i + 1;
    }
    IndexedFactMap(b, name, number, facts, m);
  }

  ghost predicate Indexed(m: map<nat, nat>, facts: seq<Fact>, n: nat)
    requires n <= |facts|
  {
    forall i | 0 <= i < n :: facts[i].index in m && m[facts[i].index] == facts[i].number
  }

  lemma IndexedStep(m: map<nat, nat>, facts: seq<Fact>, i: nat)
    requires i < |facts| && Increasing(facts) && Indexed(m, facts, i)
    ensures Indexed(m[facts[i].index := facts[i].number], facts, i + 1)
  {
  }

  ghost predicate Increasing(facts: seq<Fact>) {
    forall i, j | 0 <= i < j < |facts| :: facts[i].index < facts[j].index
  }

  lemma FactsIncrease(b: Block, name: octets, number: octets -> Option<pos>)
    requires Facts(b, name, number).Ok?
    ensures Increasing(Facts(b, name, number).value)
  {
    FactsSound(b, name, number);
  }

  lemma IndexedFactMap(b: Block, name: octets, number: octets -> Option<pos>, facts: seq<Fact>, m: map<nat, nat>)
    requires Facts(b, name, number) == Ok(facts) && Indexed(m, facts, |facts|)
    ensures FactMap(m, b, name, number)
  {
    hide Facts, Named, Lower, Unfold;
    FactsMeaning(b, name, number);
    forall k | 0 <= k < |b| && b[k].Name() == name
      ensures k in m && number(b[k].Value()).Some? && m[k] == number(b[k].Value()).value
    {
      var i :| 0 <= i < |facts| && facts[i].index == k;
    }
  }

  /** The header index of the previous hop's signature, or a negative value. */
  method PreviousIndex(facts: seq<Fact>, previous: nat) returns (index: int)
    ensures index < 0 <==> forall i | 0 <= i < |facts| :: facts[i].number != previous
    ensures index >= 0 ==> exists i :: 0 <= i < |facts| && facts[i].number == previous && facts[i].index == index
  {
    index := -1;
    var i := 0;
    while i < |facts|
      invariant 0 <= i <= |facts|
      invariant index < 0 <==> forall j | 0 <= j < i :: facts[j].number != previous
      invariant index >= 0 ==> exists j :: 0 <= j < i && facts[j].number == previous && facts[j].index == index
    {
      if facts[i].number == previous {
        index := facts[i].index;
      }
      i := i + 1;
    }
  }

  datatype Pruned = Pruned(fields: Block, protocol: Block)

  /** Fails exactly when the chain holds no previous hop. */
  method PruneHeaderBlock(p: Parsers, b: Block, s: State, run: Run) returns (r: Option<Pruned>, ghost previousIndex: int)
    requires Extraction(p, b) == Ok(s) && run.Valid()
    ensures r.None? <==> run.Previous() > |s.signatures|
    ensures r.Some? ==> r.value.fields == Survivors(p, b, previousIndex, run)
    ensures r.Some? ==> r.value.protocol == Protocol(r.value.fields)
    ensures r.Some? ==> 0 <= previousIndex < |b| && Bears(b[previousIndex], SIGNATURE, p.sequence, run.Previous())
    ensures r.Some? ==> PrunedAround(b, previousIndex, r.value.fields) && ProtocolPruned(p, b, run, r.value.fields)
  {
    ExtractionParts(p, b, s);
    FactsMeaning(b, SIGNATURE, p.sequence);
    var sequences := IndexFacts(b, SIGNATURE, p.sequence, s.signatures);
    var index := PreviousIndex(s.signatures, run.Previous());
    var numbers := IndexFacts(b, INSTANCE, p.instance, s.instances);
    previousIndex := index;
    if run.Previous() <= |s.signatures| {
      ghost var i := ContiguousCovers(s.signatures, run.Previous());
    }
    if index < 0 {
      return None, previousIndex;
    }
    var pruned := PruneFields(p, b, sequences, numbers, index, run);
    SurvivorsAround(p, b, index, run);
    ProtocolSurvives(p, b, index, run);
    return Some(pruned), previousIndex;
  }

  method PruneFields(p: Parsers, b: Block, sequences: map<nat, nat>, numbers: map<nat, nat>, previousIndex: int, run: Run)
    returns (r: Pruned)
    requires FactMap(sequences, b, SIGNATURE, p.sequence) && FactMap(numbers, b, INSTANCE, p.instance)
    ensures r.fields == Survivors(p, b, previousIndex, run) && r.protocol == Protocol(r.fields)
  {
    var fields, protocol := [], [];
    var i := 0;
    assert b[..|b|] == b;
    while i < |b|
      invariant 0 <= i <= |b|
      invariant fields == Survivors(p, b[..i], previousIndex, run)
      invariant protocol == Protocol(fields)
    {
      hide Survivors, Protocol, Survives, IsProtocol;
      var f := b[i];
      SurvivorsSnoc(p, b, i, previousIndex, run);
      ProtocolSnoc(fields, f);
      var keep := Keep(p, b, i, sequences, numbers, previousIndex, run);
      if keep {
        if IsProtocol(f) {
          protocol := protocol + [f];
        }
        fields := fields + [f];
      }
      i := i + 1;
    }
    r := Pruned(fields, protocol);
  }

  /** Whether the field at an index survives, read off the two index maps. */
  method Keep(p: Parsers, b: Block, i: nat, sequences: map<nat, nat>, numbers: map<nat, nat>, previousIndex: int, run: Run)
    returns (keep: bool)
    requires FactMap(sequences, b, SIGNATURE, p.sequence) && FactMap(numbers, b, INSTANCE, p.instance)
    requires i < |b|
    ensures keep == Survives(p, b[i], i, previousIndex, run)
  {
    hide HeaderHash.Relevant, Lower, Unfold;
    var name := b[i].Name();
    keep := true;
    if name == SIGNATURE {
      if i !in sequences {
        assert false; // every signature field was extracted
      }
      keep := !run.Member(sequences[i]);
    } else if name == INSTANCE {
      if i !in numbers {
        assert false; // every instance field was extracted
      }
      keep := numbers[i] <= run.previousInstance;
    } else if i < previousIndex {
      keep := HeaderHash.Relevant(name);
    }
  }

  lemma SurvivorsSnoc(p: Parsers, b: Block, i: nat, previousIndex: int, run: Run)
    requires i < |b|
    ensures Survivors(p, b[..i + 1], previousIndex, run)
         == Survivors(p, b[..i], previousIndex, run) + if Survives(p, b[i], i, previousIndex, run) then [b[i]] else []
  {
    hide Survives;
    assert b[..i + 1][..i] == b[..i];
  }

  lemma ProtocolSnoc(fields: Block, f: Field)
    ensures Protocol(fields + [f]) == Protocol(fields) + if IsProtocol(f) then [f] else []
  {
    hide IsProtocol;
    assert (fields + [f])[..|fields|] == fields;
  }

  // ---- The shape of the result

  /** The fields that `keep` accepts, in order. */
  function Only(b: Block, keep: Field -> bool): Block {
    if b == [] then [] else Only(b[..|b| - 1], keep) + if keep(b[|b| - 1]) then [b[|b| - 1]] else []
  }

  predicate IsOrdinary(f: Field) {
    !IsProtocol(f)
  }

  predicate IsSigned(f: Field) {
    HeaderHash.Relevant(f.Name())
  }

  /** Below the previous hop's signature, at header index `k`, the signed fields stay and the other ordinary fields are
      removed; above it every ordinary field stays. The previous hop's signature itself stays between the two. */
  ghost predicate PrunedAround(b: Block, k: nat, fields: Block) {
    k < |b| && exists low: Block, high: Block ::
      && fields == low + [b[k]] + high
      && (forall f | f in low && IsOrdinary(f) :: IsSigned(f))
      && Only(low, IsSigned) == Only(b[..k], IsSigned)
      && Only(high, IsOrdinary) == Only(b[k + 1..], IsOrdinary)
  }

  /** The signatures outside the run stay, and the instances up to the one that the previous hop signs, in wire order. */
  ghost predicate ProtocolPruned(p: Parsers, b: Block, run: Run, fields: Block) {
    && Named(fields, SIGNATURE) == Only(Named(b, SIGNATURE), f => Sequence(p, f) < run.lowest || Sequence(p, f) > run.completion)
    && Named(fields, INSTANCE) == Only(Named(b, INSTANCE), f => Number(p, f) <= run.previousInstance)
  }

  lemma OnlySnoc(b: Block, f: Field, keep: Field -> bool)
    ensures Only(b + [f], keep) == Only(b, keep) + if keep(f) then [f] else []
  {
    assert (b + [f])[..|b|] == b;
  }

  lemma OnlyStep(b: Block, f: Field, stays: bool, keep: Field -> bool)
    ensures Only(b + if stays then [f] else [], keep) == Only(b, keep) + if stays && keep(f) then [f] else []
  {
    if stays {
      OnlySnoc(b, f, keep);
    } else {
      assert b + [] == b;
    }
  }

  /** The part below the previous hop. */
  lemma {:induction false} SurvivorsBelow(p: Parsers, b: Block, n: nat, previousIndex: nat, run: Run)
    requires n <= previousIndex <= |b|
    ensures var low := Survivors(p, b[..n], previousIndex, run);
      && (forall f | f in low && IsOrdinary(f) :: IsSigned(f))
      && Only(low, IsSigned) == Only(b[..n], IsSigned)
  {
    hide Survives, Survivors, Only, HeaderHash.Relevant, IsProtocol;
    if n == 0 {
      NoSurvivors(p, previousIndex, run);
      OnlyNone(IsSigned);
      assert b[..0] == [];
    } else {
      SurvivorsBelow(p, b, n - 1, previousIndex, run);
      SurvivorsSnoc(p, b, n - 1, previousIndex, run);
      var low, f := Survivors(p, b[..n - 1], previousIndex, run), b[n - 1];
      OnlyStep(low, f, Survives(p, f, n - 1, previousIndex, run), IsSigned);
      OnlySnoc(b[..n - 1], f, IsSigned);
      assert b[..n] == b[..n - 1] + [f];
      SurvivesBelow(p, f, n - 1, previousIndex, run);
    }
  }

  lemma NoSurvivors(p: Parsers, previousIndex: int, run: Run)
    ensures Survivors(p, [], previousIndex, run) == []
  {
  }

  lemma SurvivesBelow(p: Parsers, f: Field, index: int, previousIndex: int, run: Run)
    requires index < previousIndex
    ensures IsSigned(f) ==> Survives(p, f, index, previousIndex, run)
    ensures Survives(p, f, index, previousIndex, run) && IsOrdinary(f) ==> IsSigned(f)
  {
    ProtocolNamesExcluded();
  }

  /** The part above the previous hop. */
  lemma {:induction false} SurvivorsAbove(p: Parsers, b: Block, n: nat, k: nat, run: Run) returns (high: Block)
    requires k < n <= |b| && Survives(p, b[k], k, k, run)
    ensures Survivors(p, b[..n], k, run) == Survivors(p, b[..k], k, run) + [b[k]] + high
    ensures Only(high, IsOrdinary) == Only(b[k + 1..n], IsOrdinary)
  {
    hide Survives, Survivors, IsProtocol, Only;
    SurvivorsSnoc(p, b, n - 1, k, run);
    if n == k + 1 {
      high := [];
      assert b[k + 1..n] == [];
      NothingAdded(Survivors(p, b[..k], k, run) + [b[k]]);
    } else {
      var before := SurvivorsAbove(p, b, n - 1, k, run);
      var f := b[n - 1];
      high := before + if Survives(p, f, n - 1, k, run) then [f] else [];
      OnlyStep(before, f, Survives(p, f, n - 1, k, run), IsOrdinary);
      OnlySnoc(b[k + 1..n - 1], f, IsOrdinary);
      assert b[k + 1..n] == b[k + 1..n - 1] + [f];
      SurvivesAbove(p, f, n - 1, k, run);
    }
  }

  lemma SurvivesAbove(p: Parsers, f: Field, index: int, previousIndex: int, run: Run)
    requires previousIndex <= index
    ensures IsOrdinary(f) ==> Survives(p, f, index, previousIndex, run)
  {
  }

  lemma SurvivorsAround(p: Parsers, b: Block, k: nat, run: Run)
    requires run.Valid() && k < |b| && Bears(b[k], SIGNATURE, p.sequence, run.Previous())
    ensures PrunedAround(b, k, Survivors(p, b, k, run))
  {
    hide Survivors, Only, IsOrdinary, IsSigned;
    SurvivorsBelow(p, b, k, k, run);
    var high := SurvivorsAbove(p, b, |b|, k, run);
    assert b[..|b|] == b && b[k + 1..|b|] == b[k + 1..];
  }

  lemma {:induction false} SurvivorsOfName(p: Parsers, b: Block, previousIndex: int, run: Run, name: octets, keep: Field -> bool)
    requires forall f: Field, i: int | f.Name() == name :: Survives(p, f, i, previousIndex, run) == keep(f)
    ensures Named(Survivors(p, b, previousIndex, run), name) == Only(Named(b, name), keep)
  {
    hide Survives, Lower, Only;
    if b == [] {
      NoSurvivors(p, previousIndex, run);
      OnlyNone(keep);
    } else {
      var init, f := b[..|b| - 1], b[|b| - 1];
      SurvivorsOfName(p, init, previousIndex, run, name, keep);
      assert b == init + [f];
      NamedSnoc(init, f, name);
      NamedSnoc(Survivors(p, init, previousIndex, run), f, name);
      OnlySnoc(Named(init, name), f, keep);
      NothingAdded(Named(init, name));
      NothingAdded(Survivors(p, init, previousIndex, run));
      NothingAdded(Only(Named(init, name), keep));
    }
  }

  lemma NothingAdded(b: Block)
    ensures b + [] == b
  {
  }

  lemma OnlyNone(keep: Field -> bool)
    ensures Only([], keep) == []
  {
  }

  lemma ProtocolSurvives(p: Parsers, b: Block, previousIndex: int, run: Run)
    ensures ProtocolPruned(p, b, run, Survivors(p, b, previousIndex, run))
  {
    hide Survivors, Only, HeaderHash.Relevant;
    SurvivorsOfName(p, b, previousIndex, run, SIGNATURE,
      f => Sequence(p, f) < run.lowest || Sequence(p, f) > run.completion);
    SurvivorsOfName(p, b, previousIndex, run, INSTANCE, f => Number(p, f) <= run.previousInstance);
  }

  // ---- Hash neutrality

  lemma ProtocolNamesExcluded()
    ensures !HeaderHash.Relevant(SIGNATURE) && !HeaderHash.Relevant(INSTANCE)
  {
  }

  lemma RelevantSurvives(p: Parsers, f: Field, index: int, previousIndex: int, run: Run)
    requires HeaderHash.Relevant(f.Name())
    ensures Survives(p, f, index, previousIndex, run)
  {
    ProtocolNamesExcluded();
  }

  lemma {:induction false} SignedNamesSurvive(p: Parsers, b: Block, previousIndex: int, run: Run, name: octets)
    requires HeaderHash.Relevant(name)
    ensures Named(Survivors(p, b, previousIndex, run), name) == Named(b, name)
  {
    hide Lower;
    if b != [] {
      var init, f := b[..|b| - 1], b[|b| - 1];
      SignedNamesSurvive(p, init, previousIndex, run, name);
      NamedSnoc(init, f, name);
      assert b == init + [f];
      var kept := Survivors(p, init, previousIndex, run);
      NamedSnoc(kept, f, name);
      if f.Name() == name {
        RelevantSurvives(p, f, |b| - 1, previousIndex, run);
      } else {
        assert kept + [] == kept && Named(init, name) + [] == Named(init, name);
        assert Named(kept, name) + [] == Named(kept, name);
      }
    }
  }

  lemma {:induction false} SurvivorsBound(p: Parsers, b: Block, previousIndex: int, run: Run)
    ensures |Survivors(p, b, previousIndex, run)| <= |b|
    ensures forall f | f in Survivors(p, b, previousIndex, run) :: f in b
  {
    if b != [] {
      SurvivorsBound(p, b[..|b| - 1], previousIndex, run);
    }
  }

  /** Pruning leaves the Section 6.2 header hash input octet for octet, whatever the run. */
  lemma PruneKeepsHash(limits: HeaderHash.Limits, p: Parsers, b: Block, previousIndex: int, run: Run)
    requires HeaderHash.HashInput(limits, b).Ok?
    ensures HeaderHash.HashInput(limits, Survivors(p, b, previousIndex, run)) == HeaderHash.HashInput(limits, b)
  {
    var pruned := Survivors(p, b, previousIndex, run);
    SurvivorsBound(p, b, previousIndex, run);
    forall name | HeaderHash.Relevant(name) ensures HeaderHash.Values(b, name) == HeaderHash.Values(pruned, name) {
      SignedNamesSurvive(p, b, previousIndex, run, name);
      HeaderHash.SameNamedSameValues(b, pruned, name);
    }
    HeaderHash.SameValuesSameInput(limits, b, pruned);
  }

  // ---- The surviving chain

  lemma {:induction false} SurvivorsCount(p: Parsers, b: Block, previousIndex: int, run: Run, f: Field)
    requires IsProtocol(f)
    ensures multiset(Survivors(p, b, previousIndex, run))[f]
         == if Survives(p, f, 0, previousIndex, run) then multiset(b)[f] else 0
  {
    if b != [] {
      var init, last := b[..|b| - 1], b[|b| - 1];
      SurvivorsCount(p, init, previousIndex, run, f);
      assert b == init + [last];
      assert IsProtocol(last) ==>
        Survives(p, last, |b| - 1, previousIndex, run) == Survives(p, last, 0, previousIndex, run);
    }
  }

  lemma SurvivingFields(p: Parsers, b: Block, previousIndex: int, run: Run, name: octets, f: Field)
    requires name == SIGNATURE || name == INSTANCE
    ensures Fields(Survivors(p, b, previousIndex, run), name)[f]
         == if f.Name() == name && Survives(p, f, 0, previousIndex, run) then Fields(b, name)[f] else 0
  {
    var pruned := Survivors(p, b, previousIndex, run);
    if f.Name() == name {
      SurvivorsCount(p, b, previousIndex, run, f);
      NamedMultiplicity(b, f);
      NamedMultiplicity(pruned, f);
    } else {
      FieldIn(pruned, name, f);
      FieldIn(b, name, f);
    }
  }

  /** Dropping every number above k from 1..n leaves 1..k. */
  lemma NumberedRestricted(all: multiset<Field>, few: multiset<Field>, number: octets -> Option<pos>, n: nat, k: nat)
    requires Numbered(all, number, n) && k <= n
    requires forall f | f in all :: few[f] == if number(f.Value()).value <= k then all[f] else 0
    requires forall f | f in few :: f in all
    ensures Numbered(few, number, k)
  {
    forall i: pos | i <= k ensures exists f :: f in few && number(f.Value()) == Some(i) {
      var f :| f in all && number(f.Value()) == Some(i);
      assert f in few;
    }
  }

  /** The previous hop's signature decides the instances that survive. */
  ghost predicate PreviousHop(p: Parsers, b: Block, run: Run)
    requires run.Valid()
  {
    exists f :: f in Fields(b, SIGNATURE) && Sequence(p, f) == run.Previous()
      && p.reference(f.Value()) == run.previousInstance
  }

  lemma PrunedInstances(p: Parsers, b: Block, previousIndex: int, run: Run, m: nat)
    requires Numbered(Fields(b, INSTANCE), p.instance, m) && run.previousInstance <= m
    ensures Numbered(Fields(Survivors(p, b, previousIndex, run), INSTANCE), p.instance, run.previousInstance)
  {
    var all, few := Fields(b, INSTANCE), Fields(Survivors(p, b, previousIndex, run), INSTANCE);
    forall f
      ensures f in all ==> few[f] == if p.instance(f.Value()).value <= run.previousInstance then all[f] else 0
      ensures f in few ==> f in all
    {
      SurvivingFields(p, b, previousIndex, run, INSTANCE, f);
      FieldIn(b, INSTANCE, f);
    }
    NumberedRestricted(all, few, p.instance, m, run.previousInstance);
  }

  lemma PrunedSignature(p: Parsers, b: Block, previousIndex: int, run: Run, n: nat, f: Field)
    requires Numbered(Fields(b, SIGNATURE), p.sequence, n) && run.Valid() && run.completion == n
    ensures f in Fields(b, SIGNATURE) ==>
      Fields(Survivors(p, b, previousIndex, run), SIGNATURE)[f]
      == if p.sequence(f.Value()).value <= run.Previous() then Fields(b, SIGNATURE)[f] else 0
    ensures f in Fields(Survivors(p, b, previousIndex, run), SIGNATURE) ==>
      f in Fields(b, SIGNATURE) && Sequence(p, f) <= run.Previous()
  {
    SurvivingFields(p, b, previousIndex, run, SIGNATURE, f);
    FieldIn(b, SIGNATURE, f);
  }

  lemma PrunedSignatures(p: Parsers, b: Block, previousIndex: int, run: Run, n: nat)
    requires Numbered(Fields(b, SIGNATURE), p.sequence, n) && run.Valid() && run.completion == n
    ensures Numbered(Fields(Survivors(p, b, previousIndex, run), SIGNATURE), p.sequence, run.Previous())
    ensures forall f | f in Fields(Survivors(p, b, previousIndex, run), SIGNATURE)
              :: f in Fields(b, SIGNATURE) && Sequence(p, f) <= run.Previous()
  {
    var all, few := Fields(b, SIGNATURE), Fields(Survivors(p, b, previousIndex, run), SIGNATURE);
    forall f
      ensures f in all ==> few[f] == if p.sequence(f.Value()).value <= run.Previous() then all[f] else 0
      ensures f in few ==> f in all && Sequence(p, f) <= run.Previous()
    {
      PrunedSignature(p, b, previousIndex, run, n, f);
    }
    NumberedRestricted(all, few, p.sequence, n, run.Previous());
  }

  /** Pruning the whole run leaves a coherent chain that ends at the previous hop. */
  lemma PrunedCoherent(p: Parsers, b: Block, previousIndex: int, run: Run, m: nat, n: nat)
    requires Coherent(p, Fields(b, INSTANCE), Fields(b, SIGNATURE), m, n)
    requires run.Valid() && run.completion == n && PreviousHop(p, b, run)
    ensures var pruned := Survivors(p, b, previousIndex, run);
      Coherent(p, Fields(pruned, INSTANCE), Fields(pruned, SIGNATURE), run.previousInstance, run.Previous())
  {
    hide Fields, Survivors, Lower, Unfold, Numbered;
    var hop :| hop in Fields(b, SIGNATURE) && Sequence(p, hop) == run.Previous()
      && p.reference(hop.Value()) == run.previousInstance;
    PrunedInstances(p, b, previousIndex, run, m);
    PrunedSignatures(p, b, previousIndex, run, n);
    var few := Fields(Survivors(p, b, previousIndex, run), SIGNATURE);
    hide Numbered, ReferencesCoherent;
    ReferencesRestricted(p, Fields(b, SIGNATURE), few, hop, m, n);
  }

  /** The signatures up to one of them refer to no instance above the one it refers to. */
  lemma ReferencesRestricted(p: Parsers, all: multiset<Field>, few: multiset<Field>, hop: Field, m: nat, n: nat)
    requires ReferencesCoherent(p, all, m, n) && hop in all
    requires forall f | f in few :: f in all && Sequence(p, f) <= Sequence(p, hop)
    ensures ReferencesCoherent(p, few, p.reference(hop.Value()), Sequence(p, hop))
  {
  }

  /** Pruning a run that stops below the highest signature leaves a gap. */
  lemma PartialRunLeavesGap(p: Parsers, b: Block, previousIndex: int, run: Run, n: nat)
    requires Numbered(Fields(b, SIGNATURE), p.sequence, n)
    requires run.Valid() && run.completion < n
    ensures forall k :: !Numbered(Fields(Survivors(p, b, previousIndex, run), SIGNATURE), p.sequence, k)
  {
    var few := Fields(Survivors(p, b, previousIndex, run), SIGNATURE);
    var top := NumberedHas(Fields(b, SIGNATURE), p.sequence, n, n);
    SignatureSurvival(p, b, previousIndex, run, top);
    forall f | f in few ensures Sequence(p, f) != run.lowest {
      SignatureSurvival(p, b, previousIndex, run, f);
    }
    forall k ensures !Numbered(few, p.sequence, k) {
      NumberedHasNoGap(p, few, k, top, run.lowest);
    }
  }

  lemma NumberedHasNoGap(p: Parsers, fields: multiset<Field>, k: nat, top: Field, low: pos)
    requires top in fields && low <= Sequence(p, top)
    requires forall f | f in fields :: Sequence(p, f) != low
    ensures !Numbered(fields, p.sequence, k)
  {
    if Numbered(fields, p.sequence, k) {
      var f := NumberedHas(fields, p.sequence, k, low);
    }
  }

  lemma SignatureSurvival(p: Parsers, b: Block, previousIndex: int, run: Run, f: Field)
    ensures f in Fields(Survivors(p, b, previousIndex, run), SIGNATURE)
       <==> f in Fields(b, SIGNATURE) && !run.Member(Sequence(p, f))
  {
    SurvivingFields(p, b, previousIndex, run, SIGNATURE, f);
    FieldIn(b, SIGNATURE, f);
  }

  /** The pruned block extracts exactly when the run reaches the highest signature of the chain. */
  lemma PruneExtractsIff(p: Parsers, b: Block, previousIndex: int, run: Run)
    requires Extraction(p, b).Ok? && run.Valid() && run.completion <= |Extraction(p, b).value.signatures|
    requires PreviousHop(p, b, run)
    ensures Extraction(p, Survivors(p, b, previousIndex, run)).Ok?
       <==> run.completion == |Extraction(p, b).value.signatures|
  {
    var s := Extraction(p, b).value;
    var pruned := Survivors(p, b, previousIndex, run);
    ExtractedCoherent(p, b, s);
    if run.completion == |s.signatures| {
      PrunedCoherent(p, b, previousIndex, run, |s.instances|, |s.signatures|);
      CoherentExtracts(p, pruned, run.previousInstance, run.Previous());
    } else {
      PartialRunLeavesGap(p, b, previousIndex, run, |s.signatures|);
      if Extraction(p, pruned).Ok? {
        ExtractedCoherent(p, pruned, Extraction(p, pruned).value);
      }
    }
  }

  /** Every surviving signature keeps its Section 12.8 input octet for octet. */
  lemma PruneKeepsInput(c: Limits, p: Parsers, b: Block, previousIndex: int, run: Run, t: nat)
    requires Input(c, p, b, t).Ok? && run.Valid() && PreviousHop(p, b, run)
    requires run.completion == |Extraction(p, b).value.signatures| && 1 <= t <= run.Previous()
    ensures Input(c, p, Survivors(p, b, previousIndex, run), t) == Input(c, p, b, t)
  {
    var s := Extraction(p, b).value;
    var pruned := Survivors(p, b, previousIndex, run);
    ExtractedCoherent(p, b, s);
    PrunedCoherent(p, b, previousIndex, run, |s.instances|, |s.signatures|);
    CoherentExtracts(p, pruned, run.previousInstance, run.Previous());
    SurvivorsBound(p, b, previousIndex, run);
    LaterHopsKeepInput(c, p, pruned, b, t);
  }
}
