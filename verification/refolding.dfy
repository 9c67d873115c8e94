/** What a Section 12.8 input consists of, and why refolding a message in transit leaves it alone. */
module Refolding {
  import opened Octets
  import opened RawMessage
  import opened SignatureInput
  import opened Words
  import opened CanonicalValues
  import HeaderHash
  import MessageParser

  /** The octets of a value outside white space. */
  function Packed(value: octets): octets {
    Concat(WordsOf(value))
  }

  // ---- The input as a header block

  function PackedField(name: octets, value: octets): Field {
    Field(name, Packed(value))
  }

  function PackedFields(fields: seq<Field>): (h: Block)
    ensures |h| == |fields| && forall i | 0 <= i < |h| :: h[i] == PackedField(fields[i].Name(), fields[i].Value())
  {
    seq(|fields|, i requires 0 <= i < |fields| => PackedField(fields[i].Name(), fields[i].Value()))
  }

  lemma PackedBytes(name: octets, value: octets)
    ensures CanonicalBytes(name, value) == PackedField(name, value).Raw()
  {
    DeletedIsJoined(value);
  }

  lemma {:induction false} JoinedIsBlock(fields: seq<Field>)
    ensures Joined(fields) == MessageParser.RawBlock(PackedFields(fields))
  {
    hide Packed, CanonicalBytes, Field.Raw, PackedField;
    if fields != [] {
      var init, last := fields[..|fields| - 1], fields[|fields| - 1];
      JoinedIsBlock(init);
      PackedBytes(last.Name(), last.Value());
      assert PackedFields(fields) == PackedFields(init) + [PackedField(last.Name(), last.Value())];
      MessageParser.RawConcat(PackedFields(init), [PackedField(last.Name(), last.Value())]);
      BlockOfOne(PackedField(last.Name(), last.Value()));
    }
  }

  lemma BlockOfOne(f: Field)
    ensures MessageParser.RawBlock([f]) == f.Raw()
  {
    hide Field.Raw;
    assert [f][1..] == [];
    assert MessageParser.RawBlock([]) == [] && f.Raw() + [] == f.Raw();
  }

  /** A listing holds the fields numbered 1..n, in that order. */
  lemma {:induction false} ListingNumbered(b: Block, name: octets, number: octets -> Option<pos>, facts: seq<Fact>, n: nat)
    requires Facts(b, name, number) == Ok(facts) && Contiguous(facts) && n <= |facts|
    ensures |Listing(b, name, number, n)| == n
    ensures forall k | 1 <= k <= n :: Lookup(b, name, number, k) == Some(Listing(b, name, number, n)[k - 1])
  {
    hide Facts, Contiguous, Lookup;
    if n > 0 {
      ListingNumbered(b, name, number, facts, n - 1);
      LookupCovers(b, name, number, facts, n);
    }
  }

  /** The packed field numbered `k`. */
  ghost predicate Holds(b: Block, name: octets, number: octets -> Option<pos>, k: nat, packed: Field) {
    exists f :: f in b && Bears(f, name, number, k) && packed == Field(name, Packed(f.Value()))
  }

  /** The input is a header block: the instances 1 to the one that the target refers to, then the signatures below the
      target, then the target with its signature strings null, every value without white space. */
  ghost predicate Lists(p: Parsers, b: Block, t: nat, target: Field, h: Block) {
    var m := p.reference(target.Value());
    && target in b && Bears(target, SIGNATURE, p.sequence, t) && p.incomplete(target.Value()).Some?
    && t >= 1 && |h| == m + t
    && (forall i | 0 <= i < m :: Holds(b, INSTANCE, p.instance, i + 1, h[i]))
    && (forall j | m <= j < m + t - 1 :: Holds(b, SIGNATURE, p.sequence, j - m + 1, h[j]))
    && h[m + t - 1] == Field(SIGNATURE, Packed(p.incomplete(target.Value()).value))
  }

  lemma ListedHolds(b: Block, name: octets, number: octets -> Option<pos>, facts: seq<Fact>, n: nat, k: nat)
    requires Facts(b, name, number) == Ok(facts) && Contiguous(facts) && k < n <= |facts|
    ensures |Listing(b, name, number, n)| == n
    ensures Holds(b, name, number, k + 1, PackedFields(Listing(b, name, number, n))[k])
  {
    hide Facts, Contiguous, Packed, Listing, Lower, Unfold;
    ListingNumbered(b, name, number, facts, n);
    var f := Listing(b, name, number, n)[k];
    assert Lookup(b, name, number, k + 1) == Some(f);
  }

  /** Some field of the block is longer than the limit. */
  predicate SomeLong(c: Limits, h: Block) {
    exists i :: 0 <= i < |h| && |h[i].Raw()| > c.maxFieldBytes
  }

  lemma WithinPacked(c: Limits, fields: seq<Field>)
    ensures FieldsWithin(c, fields) <==> !SomeLong(c, PackedFields(fields))
  {
    hide Packed, CanonicalBytes, Field.Raw, PackedField;
    forall i | 0 <= i < |fields|
      ensures FieldBytes(fields[i]) == PackedFields(fields)[i].Raw()
    {
      PackedBytes(fields[i].Name(), fields[i].Value());
    }
  }

  lemma SomeLongJoined(c: Limits, a: Block, b: Block, last: Field)
    ensures SomeLong(c, a + b + [last]) <==> SomeLong(c, a) || SomeLong(c, b) || |last.Raw()| > c.maxFieldBytes
  {
    hide Field.Raw;
    var h := a + b + [last];
    if SomeLong(c, h) {
      var i :| 0 <= i < |h| && |h[i].Raw()| > c.maxFieldBytes;
      assert if i < |a| then a[i] == h[i] else if i < |a| + |b| then b[i - |a|] == h[i] else last == h[i];
    }
    forall i | 0 <= i < |a| ensures h[i] == a[i] {
    }
    forall i | 0 <= i < |b| ensures h[|a| + i] == b[i] {
    }
    assert h[|a| + |b|] == last;
  }

  /** A target that can be rendered has an input: the header block that lists the chain up to it, unless there are too
      many protocol fields, a field of that block is too long, or the block is. */
  lemma InputIsBlock(c: Limits, p: Parsers, b: Block, t: nat) returns (target: Field, h: Block)
    requires Extraction(p, b).Ok? && Lookup(b, SIGNATURE, p.sequence, t).Some?
    requires p.incomplete(Lookup(b, SIGNATURE, p.sequence, t).value.Value()).Some?
    ensures Lists(p, b, t, target, h)
    ensures Input(c, p, b, t) ==
      if ProtocolCount(b) > c.maxFieldCount then Err(FieldCountLimit)
      else if SomeLong(c, h) then Err(FieldBytesLimit)
      else if |MessageParser.RawBlock(h)| > c.maxSignatureInputBytes then Err(InputBytesLimit)
      else Ok(MessageParser.RawBlock(h))
  {
    hide Facts, Packed, Listing, Lower, Unfold, Joined, Named, CanonicalBytes, MessageParser.RawBlock, Contiguous;
    hide SomeLong, FieldsWithin, InputOf, PackedField, ProtocolCount;
    var s := Extraction(p, b).value;
    ExtractionParts(p, b, s);
    target := Lookup(b, SIGNATURE, p.sequence, t).value;
    LookupCovers(b, SIGNATURE, p.sequence, s.signatures, t);
    TargetReference(p, b, s, target, t);
    var last := p.incomplete(target.Value()).value;
    var x := Listing(b, INSTANCE, p.instance, p.reference(target.Value()));
    var y := Listing(b, SIGNATURE, p.sequence, t - 1);
    h := PackedFields(x) + PackedFields(y) + [PackedField(SIGNATURE, last)];
    PartsList(p, b, s, t, target, last, x, y);
    InputOfParts(c, p, b, t, target, x, y);
    PartsBounded(c, x, y, last);
  }

  lemma PartsBounded(c: Limits, x: seq<Field>, y: seq<Field>, last: octets)
    ensures var h := PackedFields(x) + PackedFields(y) + [PackedField(SIGNATURE, last)];
      && Joined(x + y) + CanonicalBytes(SIGNATURE, last) == MessageParser.RawBlock(h)
      && (SomeLong(c, h) <==> !FieldsWithin(c, x) || !FieldsWithin(c, y)
                              || |CanonicalBytes(SIGNATURE, last)| > c.maxFieldBytes)
  {
    hide Packed, Joined, CanonicalBytes, MessageParser.RawBlock, PackedField, PackedFields, SomeLong, FieldsWithin;
    BlockJoined(x, y, last);
    WithinPacked(c, x);
    WithinPacked(c, y);
    PackedBytes(SIGNATURE, last);
    SomeLongJoined(c, PackedFields(x), PackedFields(y), PackedField(SIGNATURE, last));
  }

  lemma PartsList(p: Parsers, b: Block, s: State, t: pos, target: Field, last: octets, x: seq<Field>, y: seq<Field>)
    requires Extraction(p, b) == Ok(s) && Lookup(b, SIGNATURE, p.sequence, t) == Some(target)
    requires p.incomplete(target.Value()) == Some(last)
    requires x == Listing(b, INSTANCE, p.instance, p.reference(target.Value()))
    requires y == Listing(b, SIGNATURE, p.sequence, t - 1)
    ensures Lists(p, b, t, target, PackedFields(x) + PackedFields(y) + [PackedField(SIGNATURE, last)])
  {
    hide Facts, Packed, Listing, Lower, Unfold, Named, Contiguous;
    ExtractionParts(p, b, s);
    TargetReference(p, b, s, target, t);
    var m := p.reference(target.Value());
    ListingNumbered(b, INSTANCE, p.instance, s.instances, m);
    ListingNumbered(b, SIGNATURE, p.sequence, s.signatures, t - 1);
    var h := PackedFields(x) + PackedFields(y) + [PackedField(SIGNATURE, last)];
    forall i | 0 <= i < m ensures Holds(b, INSTANCE, p.instance, i + 1, h[i]) {
      ListedHolds(b, INSTANCE, p.instance, s.instances, m, i);
    }
    forall j | m <= j < m + t - 1 ensures Holds(b, SIGNATURE, p.sequence, j - m + 1, h[j]) {
      ListedHolds(b, SIGNATURE, p.sequence, s.signatures, t - 1, j - m);
    }
  }

  /** Every other input of an extractable chain is refused by name: the target is not in the chain, or it cannot be
      rendered and nothing before it is too long. */
  lemma InputRefused(c: Limits, p: Parsers, b: Block, t: nat)
    requires Extraction(p, b).Ok? && ProtocolCount(b) <= c.maxFieldCount
    ensures Input(c, p, b, t) == Err(MissingTarget) <==> !(1 <= t <= |Extraction(p, b).value.signatures|)
    ensures Input(c, p, b, t) == Err(AmbiguousSelection) ==>
      && Lookup(b, SIGNATURE, p.sequence, t).Some?
      && p.incomplete(Lookup(b, SIGNATURE, p.sequence, t).value.Value()).None?
    ensures Input(c, p, b, t).Ok? ==>
      && Lookup(b, SIGNATURE, p.sequence, t).Some?
      && p.incomplete(Lookup(b, SIGNATURE, p.sequence, t).value.Value()).Some?
  {
    hide Facts, Listing, Joined, Named, CanonicalBytes, Contiguous, FieldsWithin, Lookup;
    ExtractionParts(p, b, Extraction(p, b).value);
    LookupCovers(b, SIGNATURE, p.sequence, Extraction(p, b).value.signatures, t);
  }

  lemma BlockJoined(x: seq<Field>, y: seq<Field>, last: octets)
    ensures Joined(x + y) + CanonicalBytes(SIGNATURE, last)
         == MessageParser.RawBlock(PackedFields(x) + PackedFields(y) + [PackedField(SIGNATURE, last)])
  {
    hide Packed, Joined, CanonicalBytes, MessageParser.RawBlock, PackedField, PackedFields;
    JoinedConcat(x, y);
    JoinedIsBlock(x);
    JoinedIsBlock(y);
    PackedBytes(SIGNATURE, last);
    MessageParser.RawConcat(PackedFields(x), PackedFields(y));
    MessageParser.RawConcat(PackedFields(x) + PackedFields(y), [PackedField(SIGNATURE, last)]);
    BlockOfOne(PackedField(SIGNATURE, last));
  }

  /** In an extracted chain a signature refers to an existing instance. */
  lemma TargetReference(p: Parsers, b: Block, s: State, target: Field, t: nat)
    requires Extraction(p, b) == Ok(s) && Lookup(b, SIGNATURE, p.sequence, t) == Some(target)
    ensures 1 <= t <= |s.signatures| && 1 <= p.reference(target.Value()) <= |s.instances|
  {
    hide Facts, Listing, Lower, Unfold, Named;
    ExtractionParts(p, b, s);
    LookupCovers(b, SIGNATURE, p.sequence, s.signatures, t);
    var i := ContiguousCovers(s.signatures, t);
    LookupOfFact(b, SIGNATURE, p.sequence, s.signatures, i);
    assert s.references[i] == p.reference(target.Value());
  }

  // ---- Refolding

  /** Equal up to white space. */
  predicate Alike(x: octets, y: octets) {
    Packed(x) == Packed(y)
  }

  /** Both fields are missing, or their values are equal up to white space. */
  predicate FieldsAlike(x: Option<Field>, y: Option<Field>) {
    match (x, y)
    case (None, None) => true
    case (Some(f), Some(g)) => Alike(f.Value(), g.Value())
    case _ => false
  }

  /** The null renderings of two targets are missing, or equal up to white space. */
  predicate RenderingsAlike(p: Parsers, x: Field, y: Field) {
    match (p.incomplete(x.Value()), p.incomplete(y.Value()))
    case (None, None) => true
    case (Some(v), Some(w)) => Alike(v, w)
    case _ => false
  }

  /** The protocol fields of two blocks are equal up to white space, number by number, and so are the renderings of
      the target, which refers to the same instance. */
  ghost predicate Refolded(p: Parsers, a: Block, b: Block, t: nat) {
    && (forall k: pos :: FieldsAlike(Lookup(a, INSTANCE, p.instance, k), Lookup(b, INSTANCE, p.instance, k)))
    && (forall k: pos :: FieldsAlike(Lookup(a, SIGNATURE, p.sequence, k), Lookup(b, SIGNATURE, p.sequence, k)))
    && match (Lookup(a, SIGNATURE, p.sequence, t), Lookup(b, SIGNATURE, p.sequence, t))
       case (None, None) => true
       case (Some(f), Some(g)) => p.reference(f.Value()) == p.reference(g.Value()) && RenderingsAlike(p, f, g)
       case _ => false
  }

  lemma AlikeBytes(name: octets, x: octets, y: octets)
    requires Alike(x, y)
    ensures CanonicalBytes(name, x) == CanonicalBytes(name, y)
  {
    DeletedIsJoined(x);
    DeletedIsJoined(y);
  }

  lemma {:induction false} AlikeListing(c: Limits, a: Block, b: Block, name: octets, number: octets -> Option<pos>, n: nat)
    requires forall k: pos :: FieldsAlike(Lookup(a, name, number, k), Lookup(b, name, number, k))
    ensures Joined(Listing(a, name, number, n)) == Joined(Listing(b, name, number, n))
    ensures FieldsWithin(c, Listing(a, name, number, n)) <==> FieldsWithin(c, Listing(b, name, number, n))
  {
    hide Lookup, Listing, FieldsAlike, Joined, FieldsWithin;
    if n == 0 {
      ListingNone(a, name, number);
      ListingNone(b, name, number);
    } else {
      AlikeListing(c, a, b, name, number, n - 1);
      assert FieldsAlike(Lookup(a, name, number, n), Lookup(b, name, number, n));
      AlikeStep(c, a, b, name, number, n);
    }
  }

  lemma ListingNone(b: Block, name: octets, number: octets -> Option<pos>)
    ensures Listing(b, name, number, 0) == []
  {
  }

  lemma AlikeStep(c: Limits, a: Block, b: Block, name: octets, number: octets -> Option<pos>, n: pos)
    requires FieldsAlike(Lookup(a, name, number, n), Lookup(b, name, number, n))
    requires Joined(Listing(a, name, number, n - 1)) == Joined(Listing(b, name, number, n - 1))
    requires FieldsWithin(c, Listing(a, name, number, n - 1)) <==> FieldsWithin(c, Listing(b, name, number, n - 1))
    ensures Joined(Listing(a, name, number, n)) == Joined(Listing(b, name, number, n))
    ensures FieldsWithin(c, Listing(a, name, number, n)) <==> FieldsWithin(c, Listing(b, name, number, n))
  {
    hide Lookup, Listing, Alike, CanonicalBytes, Joined, FieldsWithin, Lower, Unfold;
    match (Lookup(a, name, number, n), Lookup(b, name, number, n)) {
      case (None, None) =>
        ListingSkip(a, name, number, n);
        ListingSkip(b, name, number, n);
      case (Some(f), Some(g)) =>
        AlikeBytes(name, f.Value(), g.Value());
        ListingStep(c, a, name, number, n, f);
        ListingStep(c, b, name, number, n, g);
      case _ =>
    }
  }

  lemma ListingSkip(b: Block, name: octets, number: octets -> Option<pos>, n: pos)
    requires Lookup(b, name, number, n).None?
    ensures Listing(b, name, number, n) == Listing(b, name, number, n - 1)
  {
    hide Lookup;
  }

  lemma ListingStep(c: Limits, b: Block, name: octets, number: octets -> Option<pos>, n: pos, f: Field)
    requires Lookup(b, name, number, n) == Some(f)
    ensures Joined(Listing(b, name, number, n)) == Joined(Listing(b, name, number, n - 1)) + CanonicalBytes(name, f.Value())
    ensures FieldsWithin(c, Listing(b, name, number, n))
       <==> FieldsWithin(c, Listing(b, name, number, n - 1)) && |CanonicalBytes(name, f.Value())| <= c.maxFieldBytes
  {
    hide CanonicalBytes, Lower, Unfold, Lookup;
    var before := Listing(b, name, number, n - 1);
    JoinedSnoc(before, f);
    WithinConcat(c, before, [f]);
    assert FieldBytes(f) == CanonicalBytes(name, f.Value());
    assert [f][0] == f;
  }

  lemma SameCounts(p: Parsers, a: Block, b: Block, name: octets, number: octets -> Option<pos>, x: seq<Fact>, y: seq<Fact>)
    requires Facts(a, name, number) == Ok(x) && Contiguous(x) && Facts(b, name, number) == Ok(y) && Contiguous(y)
    requires forall k: pos :: FieldsAlike(Lookup(a, name, number, k), Lookup(b, name, number, k))
    ensures |Named(a, name)| == |Named(b, name)|
  {
    hide Facts, Contiguous, Lookup, Alike, Named;
    FactsMeaning(a, name, number);
    FactsMeaning(b, name, number);
    var k := if |x| < |y| then |y| else |x|;
    if |x| != |y| {
      LookupCovers(a, name, number, x, k);
      LookupCovers(b, name, number, y, k);
    }
  }

  lemma AlikeTargets(c: Limits, p: Parsers, f: Field, g: Field)
    requires RenderingsAlike(p, f, g)
    ensures TargetResult(c, p, f) == TargetResult(c, p, g)
  {
    hide Alike, CanonicalBytes;
    if p.incomplete(f.Value()).Some? {
      AlikeBytes(SIGNATURE, p.incomplete(f.Value()).value, p.incomplete(g.Value()).value);
    }
  }

  /** The same parts give the same input. */
  lemma AlikeParts(c: Limits, p: Parsers, a: Block, b: Block, t: pos, f: Field, g: Field,
                   x: seq<Field>, y: seq<Field>, z: seq<Field>, w: seq<Field>)
    requires Lookup(a, SIGNATURE, p.sequence, t) == Some(f) && Lookup(b, SIGNATURE, p.sequence, t) == Some(g)
    requires x == Listing(a, INSTANCE, p.instance, p.reference(f.Value())) && y == Listing(a, SIGNATURE, p.sequence, t - 1)
    requires z == Listing(b, INSTANCE, p.instance, p.reference(g.Value())) && w == Listing(b, SIGNATURE, p.sequence, t - 1)
    requires Joined(x) == Joined(z) && Joined(y) == Joined(w) && RenderingsAlike(p, f, g)
    requires (FieldsWithin(c, x) <==> FieldsWithin(c, z)) && (FieldsWithin(c, y) <==> FieldsWithin(c, w))
    ensures InputOf(c, p, a, t) == InputOf(c, p, b, t)
  {
    hide Lookup, RenderingsAlike, Listing, Joined, FieldsWithin, TargetResult, InputOf;
    AlikeTargets(c, p, f, g);
    InputOfParts(c, p, a, t, f, x, y);
    InputOfParts(c, p, b, t, g, z, w);
    JoinedConcat(x, y);
    JoinedConcat(z, w);
  }

  lemma RefoldedParts(c: Limits, p: Parsers, a: Block, b: Block, t: pos, f: Field, g: Field)
    requires Refolded(p, a, b, t)
    requires Lookup(a, SIGNATURE, p.sequence, t) == Some(f) && Lookup(b, SIGNATURE, p.sequence, t) == Some(g)
    ensures InputOf(c, p, a, t) == InputOf(c, p, b, t)
  {
    hide Lookup, FieldsAlike, RenderingsAlike, Listing, Joined, FieldsWithin, InputOf;
    var m := p.reference(f.Value());
    AlikeListing(c, a, b, INSTANCE, p.instance, m);
    AlikeListing(c, a, b, SIGNATURE, p.sequence, t - 1);
    AlikeParts(c, p, a, b, t, f, g,
               Listing(a, INSTANCE, p.instance, m), Listing(a, SIGNATURE, p.sequence, t - 1),
               Listing(b, INSTANCE, p.instance, m), Listing(b, SIGNATURE, p.sequence, t - 1));
  }

  lemma RefoldedCounts(p: Parsers, a: Block, b: Block, t: nat)
    requires Extraction(p, a).Ok? && Extraction(p, b).Ok? && Refolded(p, a, b, t)
    ensures ProtocolCount(a) == ProtocolCount(b)
    ensures Lookup(a, SIGNATURE, p.sequence, t).Some? <==> Lookup(b, SIGNATURE, p.sequence, t).Some?
    ensures Lookup(a, SIGNATURE, p.sequence, t).Some? ==> t >= 1
  {
    hide Facts, Contiguous, Lookup, FieldsAlike, RenderingsAlike, Named, Lower, Unfold;
    var s, z := Extraction(p, a).value, Extraction(p, b).value;
    ExtractionParts(p, a, s);
    ExtractionParts(p, b, z);
    SameCounts(p, a, b, INSTANCE, p.instance, s.instances, z.instances);
    SameCounts(p, a, b, SIGNATURE, p.sequence, s.signatures, z.signatures);
    LookupCovers(a, SIGNATURE, p.sequence, s.signatures, t);
  }

  /** Refolding in transit keeps the input: two extractable blocks whose protocol fields are equal up to white space
      have the same input octet for octet, or the same failure. */
  lemma RefoldedSameInput(c: Limits, p: Parsers, a: Block, b: Block, t: nat)
    requires Extraction(p, a).Ok? && Extraction(p, b).Ok? && Refolded(p, a, b, t)
    ensures Input(c, p, a, t) == Input(c, p, b, t)
  {
    hide Extraction, Lookup, Refolded, Listing, Joined, FieldsWithin, ProtocolCount, TargetResult;
    RefoldedCounts(p, a, b, t);
    var f, g := Lookup(a, SIGNATURE, p.sequence, t), Lookup(b, SIGNATURE, p.sequence, t);
    if f.Some? {
      RefoldedParts(c, p, a, b, t, f.value, g.value);
    }
  }
}
