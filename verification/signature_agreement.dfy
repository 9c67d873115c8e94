/** The signer signs what every verifier recomputes. */
module SignatureAgreement {
  import opened Octets
  import opened RawMessage
  import opened SignatureInput
  import opened SigningInput
  import opened SignatureStability

  /** The new instance, if any, and the new signature as they appear in the completed message. */
  datatype Added = Added(instances: seq<Field>, signature: Field)

  /** `b` holds the inherited protocol fields plus the added ones, anywhere and in any order. */
  ghost predicate Inserted(sel: Selection, added: Added, b: Block) {
    && Fields(b, INSTANCE) == Fields(sel.headers, INSTANCE) + multiset(added.instances)
    && Fields(b, SIGNATURE) == Fields(sel.headers, SIGNATURE) + multiset{added.signature}
  }

  /** The added fields are the ones the signer rendered: the standalone parse yields the instance and its
      number, and the completed signature keeps i= and m= and, with its signature strings nulled, agrees with
      the unsigned target up to white space. */
  ghost predicate Completes(p: Parsers, sel: Selection, added: Added) {
    && Standalone(sel.target.bytes, SIGNATURE).Ok?
    && p.sequence(added.signature.Value()).Some?
    && p.sequence(added.signature.Value()).value == sel.target.sequence
    && p.reference(added.signature.Value()) == sel.target.instance
    && p.incomplete(added.signature.Value()).Some?
    && DeleteWsp(p.incomplete(added.signature.Value()).value)
       == DeleteWsp(Standalone(sel.target.bytes, SIGNATURE).value.Value())
    && if !sel.hasGenerated then added.instances == []
       else
         && sel.generatedField.Some? && Standalone(sel.generatedField.value, INSTANCE).Ok?
         && added.instances == [Standalone(sel.generatedField.value, INSTANCE).value]
         && p.instance(added.instances[0].Value()).Some?
         && p.instance(added.instances[0].Value()).value == sel.generatedNumber
  }

  lemma NumberedExtended(fields: multiset<Field>, number: octets -> Option<pos>, n: nat, f: Field)
    requires Numbered(fields, number, n)
    requires number(f.Value()).Some? && number(f.Value()).value == n + 1
    ensures Numbered(fields + multiset{f}, number, n + 1)
  {
    var all := fields + multiset{f};
    assert f !in fields;
    forall g, h | g in all && h in all && number(g.Value()) == number(h.Value()) ensures g == h {
      assert g in fields || g == f;
      assert h in fields || h == f;
    }
    forall k: pos | k <= n + 1 ensures exists g :: g in all && number(g.Value()) == Some(k) {
      if k <= n {
        var g :| g in fields && number(g.Value()) == Some(k);
        assert g in all;
      } else {
        assert f in all && number(f.Value()) == Some(k);
      }
    }
  }

  lemma ReferencesExtended(p: Parsers, signatures: multiset<Field>, m: nat, m': nat, n: nat, f: Field)
    requires Numbered(signatures, p.sequence, n) && ReferencesCoherent(p, signatures, m, n)
    requires Sequence(p, f) == n + 1 && p.reference(f.Value()) == m' && 1 <= m' && m <= m'
    ensures ReferencesCoherent(p, signatures + multiset{f}, m', n + 1)
  {
    var all := signatures + multiset{f};
    forall g | g in all ensures g in signatures || g == f {
    }
    forall g | g in signatures ensures Sequence(p, g) <= n && 1 <= p.reference(g.Value()) <= m {
    }
  }

  lemma CompletedNumbered(p: Parsers, sel: Selection, added: Added, b: Block, m: nat, n: nat)
    requires Numbered(Fields(sel.headers, INSTANCE), p.instance, m)
    requires Numbered(Fields(sel.headers, SIGNATURE), p.sequence, n)
    requires Continues(sel, m, n) && Completes(p, sel, added) && Inserted(sel, added, b)
    ensures Numbered(Fields(b, INSTANCE), p.instance, sel.target.instance)
    ensures Numbered(Fields(b, SIGNATURE), p.sequence, n + 1)
  {
    NumberedExtended(Fields(sel.headers, SIGNATURE), p.sequence, n, added.signature);
    if sel.hasGenerated {
      NumberedExtended(Fields(sel.headers, INSTANCE), p.instance, m, added.instances[0]);
      assert multiset(added.instances) == multiset{added.instances[0]};
    } else {
      assert Fields(b, INSTANCE) == Fields(sel.headers, INSTANCE);
    }
  }

  /** The completed block extracts to the inherited collections plus the added fields. */
  lemma CompletedCoherent(p: Parsers, sel: Selection, added: Added, b: Block, m: nat, n: nat)
    requires Coherent(p, Fields(sel.headers, INSTANCE), Fields(sel.headers, SIGNATURE), m, n)
    requires Continues(sel, m, n) && Completes(p, sel, added) && Inserted(sel, added, b)
    requires sel.target.instance <= MAX_INSTANCES && n + 1 <= MAX_SIGNATURES
    ensures Coherent(p, Fields(b, INSTANCE), Fields(b, SIGNATURE), sel.target.instance, n + 1)
  {
    CompletedNumbered(p, sel, added, b, m, n);
    ReferencesExtended(p, Fields(sel.headers, SIGNATURE), m, sel.target.instance, n, added.signature);
  }

  lemma OverflowedInvalid(p: Parsers, b: Block, m: nat, n: nat)
    requires Numbered(Fields(b, INSTANCE), p.instance, m) && Numbered(Fields(b, SIGNATURE), p.sequence, n)
    requires m > MAX_INSTANCES || n > MAX_SIGNATURES
    ensures Extraction(p, b) == Err(SequenceInvalid)
  {
    NumberedContiguous(b, INSTANCE, p.instance, m);
    NumberedContiguous(b, SIGNATURE, p.sequence, n);
  }

  lemma FieldCount(p: Parsers, sel: Selection, added: Added, b: Block)
    requires Inserted(sel, added, b) && Completes(p, sel, added)
    ensures ProtocolCount(b) == ProtocolCount(sel.headers) + AddedCount(sel)
  {
    assert |Named(b, INSTANCE)| == |Fields(b, INSTANCE)| && |Named(b, SIGNATURE)| == |Fields(b, SIGNATURE)|;
    assert |Named(sel.headers, INSTANCE)| == |Fields(sel.headers, INSTANCE)|;
    assert |Named(sel.headers, SIGNATURE)| == |Fields(sel.headers, SIGNATURE)|;
    assert |multiset(added.instances)| == |added.instances|;
  }

  lemma InheritedCovered(sel: Selection, added: Added, b: Block)
    requires Inserted(sel, added, b)
    ensures Covered(sel.headers, b, INSTANCE) && Covered(sel.headers, b, SIGNATURE)
    ensures added.signature in b && added.signature.Name() == SIGNATURE
    ensures forall f | f in added.instances :: f in b && f.Name() == INSTANCE
  {
    forall f ensures f in sel.headers && f.Name() == INSTANCE ==> f in b {
      FieldIn(sel.headers, INSTANCE, f);
      FieldIn(b, INSTANCE, f);
    }
    forall f ensures f in sel.headers && f.Name() == SIGNATURE ==> f in b {
      FieldIn(sel.headers, SIGNATURE, f);
      FieldIn(b, SIGNATURE, f);
    }
    FieldIn(b, SIGNATURE, added.signature);
    forall f | f in added.instances ensures f in b && f.Name() == INSTANCE {
      assert f in multiset(added.instances);
      FieldIn(b, INSTANCE, f);
    }
  }

  /** The completed block lists the inherited fields first and the added ones last. */
  lemma CompletedListings(p: Parsers, sel: Selection, added: Added, b: Block)
    requires Extraction(p, sel.headers).Ok? && Extraction(p, b).Ok?
    requires Completes(p, sel, added) && Inserted(sel, added, b)
    requires var s := Extraction(p, sel.headers).value; Continues(sel, |s.instances|, |s.signatures|)
    ensures var s := Extraction(p, sel.headers).value;
      && Lookup(b, SIGNATURE, p.sequence, sel.target.sequence) == Some(added.signature)
      && Listing(b, SIGNATURE, p.sequence, |s.signatures|) == Listing(sel.headers, SIGNATURE, p.sequence, |s.signatures|)
      && Listing(b, INSTANCE, p.instance, sel.target.instance)
         == Listing(sel.headers, INSTANCE, p.instance, |s.instances|) + added.instances
  {
    var s, z := Extraction(p, sel.headers).value, Extraction(p, b).value;
    InheritedCovered(sel, added, b);
    ExtractionParts(p, sel.headers, s);
    ExtractionParts(p, b, z);
    LookupUnique(b, SIGNATURE, p.sequence, z.signatures, added.signature, sel.target.sequence);
    SameListing(sel.headers, b, SIGNATURE, p.sequence, s.signatures, z.signatures, |s.signatures|);
    SameListing(sel.headers, b, INSTANCE, p.instance, s.instances, z.instances, |s.instances|);
    var inherited := Listing(sel.headers, INSTANCE, p.instance, |s.instances|);
    if sel.hasGenerated {
      LookupUnique(b, INSTANCE, p.instance, z.instances, added.instances[0], sel.target.instance);
      assert [added.instances[0]] == added.instances;
    } else {
      assert inherited + [] == inherited;
    }
  }

  /** The parts of a successful signing input. */
  lemma SigningParts(c: Limits, p: Parsers, sel: Selection, m: nat, n: nat) returns (generated: seq<Field>, last: Field)
    requires SigningOf(c, p, sel, m, n).Ok?
    ensures GeneratedFields(c, sel) == Ok(generated) && StandaloneWithin(c, sel.target.bytes, SIGNATURE) == Ok(last)
    ensures var a, z := Listing(sel.headers, INSTANCE, p.instance, m), Listing(sel.headers, SIGNATURE, p.sequence, n);
      && FieldsWithin(c, a) && FieldsWithin(c, z)
      && SigningOf(c, p, sel, m, n) == Bounded(c, Joined(a + generated) + Joined(z) + FieldBytes(last))
  {
    generated := GeneratedFields(c, sel).value;
    last := StandaloneWithin(c, sel.target.bytes, SIGNATURE).value;
  }

  lemma AddedAsRendered(c: Limits, p: Parsers, sel: Selection, added: Added, generated: seq<Field>, last: Field)
    requires Completes(p, sel, added)
    requires GeneratedFields(c, sel) == Ok(generated) && StandaloneWithin(c, sel.target.bytes, SIGNATURE) == Ok(last)
    ensures added.instances == generated && FieldsWithin(c, generated)
    ensures TargetResult(c, p, added.signature) == Ok(FieldBytes(last))
  {
    StandaloneNamed(sel.target.bytes, SIGNATURE);
  }

  /** The two constructions agree once the completed block extracts. */
  lemma SameInput(c: Limits, p: Parsers, sel: Selection, added: Added, b: Block)
    requires Extraction(p, sel.headers).Ok? && Extraction(p, b).Ok?
    requires Completes(p, sel, added) && Inserted(sel, added, b)
    requires var s := Extraction(p, sel.headers).value;
      && Continues(sel, |s.instances|, |s.signatures|)
      && SigningOf(c, p, sel, |s.instances|, |s.signatures|).Ok?
    ensures var s := Extraction(p, sel.headers).value;
      InputOf(c, p, b, sel.target.sequence) == SigningOf(c, p, sel, |s.instances|, |s.signatures|)
  {
    var s := Extraction(p, sel.headers).value;
    CompletedListings(p, sel, added, b);
    var generated, last := SigningParts(c, p, sel, |s.instances|, |s.signatures|);
    AddedAsRendered(c, p, sel, added, generated, last);
    var a, z := Listing(b, INSTANCE, p.instance, sel.target.instance), Listing(b, SIGNATURE, p.sequence, |s.signatures|);
    WithinConcat(c, Listing(sel.headers, INSTANCE, p.instance, |s.instances|), generated);
    InputOfParts(c, p, b, sel.target.sequence, added.signature, a, z);
    JoinedConcat(a, z);
  }

  lemma StandaloneNamed(bytes: octets, name: octets)
    requires Standalone(bytes, name).Ok?
    ensures Standalone(bytes, name).value.Name() == name
  {
    var message := MessageParser.Parse(bytes + CRLF, MessageParser.DEFAULTS).value;
    assert Named(message.headers, name)[0] in message.headers;
  }

  lemma SigningSteps(c: Limits, p: Parsers, sel: Selection) returns (s: State)
    requires Signing(c, p, sel).Ok?
    ensures Extraction(p, sel.headers) == Ok(s) && Continues(sel, |s.instances|, |s.signatures|)
    ensures Signing(c, p, sel) == SigningOf(c, p, sel, |s.instances|, |s.signatures|)
    ensures ProtocolCount(sel.headers) + AddedCount(sel) <= c.maxFieldCount
  {
    s := Extraction(p, sel.headers).value;
  }

  lemma CompletedExtracts(p: Parsers, sel: Selection, added: Added, b: Block, s: State)
    requires Extraction(p, sel.headers) == Ok(s) && Continues(sel, |s.instances|, |s.signatures|)
    requires Completes(p, sel, added) && Inserted(sel, added, b)
    ensures if sel.target.instance <= MAX_INSTANCES && sel.target.sequence <= MAX_SIGNATURES
            then Extraction(p, b).Ok? && |Extraction(p, b).value.signatures| == sel.target.sequence
            else Extraction(p, b) == Err(SequenceInvalid)
  {
    ExtractedCoherent(p, sel.headers, s);
    if sel.target.instance <= MAX_INSTANCES && sel.target.sequence <= MAX_SIGNATURES {
      CompletedWithin(p, sel, added, b, |s.instances|, |s.signatures|);
    } else {
      CompletedBeyond(p, sel, added, b, |s.instances|, |s.signatures|);
    }
  }

  lemma CompletedWithin(p: Parsers, sel: Selection, added: Added, b: Block, m: nat, n: nat)
    requires Coherent(p, Fields(sel.headers, INSTANCE), Fields(sel.headers, SIGNATURE), m, n)
    requires Continues(sel, m, n) && Completes(p, sel, added) && Inserted(sel, added, b)
    requires sel.target.instance <= MAX_INSTANCES && n + 1 <= MAX_SIGNATURES
    ensures Extraction(p, b).Ok? && |Extraction(p, b).value.signatures| == n + 1
  {
    CompletedCoherent(p, sel, added, b, m, n);
    CoherentExtracts(p, b, sel.target.instance, n + 1);
  }

  lemma CompletedBeyond(p: Parsers, sel: Selection, added: Added, b: Block, m: nat, n: nat)
    requires Numbered(Fields(sel.headers, INSTANCE), p.instance, m)
    requires Numbered(Fields(sel.headers, SIGNATURE), p.sequence, n)
    requires Continues(sel, m, n) && Completes(p, sel, added) && Inserted(sel, added, b)
    requires sel.target.instance > MAX_INSTANCES || n + 1 > MAX_SIGNATURES
    ensures Extraction(p, b) == Err(SequenceInvalid)
  {
    CompletedNumbered(p, sel, added, b, m, n);
    OverflowedInvalid(p, b, sel.target.instance, n + 1);
  }

  /** Whatever the signer signs, a verifier of the completed message recomputes, wherever the new fields were
      inserted; the only exception is a chain beyond the hard collection bounds, which extraction refuses. */
  lemma SignerVerifierAgree(c: Limits, p: Parsers, sel: Selection, added: Added, b: Block)
    requires Signing(c, p, sel).Ok? && Completes(p, sel, added) && Inserted(sel, added, b)
    ensures Input(c, p, b, sel.target.sequence)
         == if sel.target.instance <= MAX_INSTANCES && sel.target.sequence <= MAX_SIGNATURES
            then Signing(c, p, sel) else Err(SequenceInvalid)
  {
    var s := SigningSteps(c, p, sel);
    FieldCount(p, sel, added, b);
    CompletedExtracts(p, sel, added, b, s);
    if sel.target.instance <= MAX_INSTANCES && sel.target.sequence <= MAX_SIGNATURES {
      SameInput(c, p, sel, added, b);
    }
  }

  /** The agreement outlives the message: after any later hops, and in any order of the header fields, a block
      that still extracts yields the signed octets, unless it holds more protocol fields than the limit. */
  lemma AgreementOutlivesLaterHops(c: Limits, p: Parsers, sel: Selection, added: Added, b: Block, later: Block)
    requires Signing(c, p, sel).Ok? && Completes(p, sel, added) && Inserted(sel, added, b)
    requires sel.target.instance <= MAX_INSTANCES && sel.target.sequence <= MAX_SIGNATURES
    requires Extraction(p, later).Ok? && Covered(b, later, INSTANCE) && Covered(b, later, SIGNATURE)
    ensures Input(c, p, later, sel.target.sequence)
         == if ProtocolCount(later) > c.maxFieldCount then Err(FieldCountLimit) else Signing(c, p, sel)
  {
    var s := SigningSteps(c, p, sel);
    CompletedExtracts(p, sel, added, b, s);
    SignerVerifierAgree(c, p, sel, added, b);
    LaterHopsKeepInput(c, p, b, later, sel.target.sequence);
  }
}
