/** Concrete chains of any length with readable tags, and what two of the constructions do on them: the signer goes
    beyond the collection bounds, and pruning leaves a gap below a signature it was not told about. */
module SampleChain {
  import opened Octets
  import opened RawMessage
  import opened SignatureInput
  import opened SigningInput
  import opened SignatureStability
  import opened SignatureAgreement
  import opened Prune
  import MessageParser
  import TextLines

  // ---- Decimal numbers

  function Decimal(n: nat): (r: octets)
    ensures 1 <= |r| <= n + 1
    ensures forall i | 0 <= i < |r| :: '0' <= r[i] <= '9'
  {
    if n < 10 then [Digit(n)] else Decimal(n / 10) + [Digit(n % 10)]
  }

  function Value(s: octets): nat
    requires forall i | 0 <= i < |s| :: '0' <= s[i] <= '9'
  {
    if s == [] then 0 else 10 * Value(s[..|s| - 1]) + (s[|s| - 1] - '0') as nat
  }

  function Read(s: octets): Option<pos> {
    if (forall i | 0 <= i < |s| :: '0' <= s[i] <= '9') && Value(s) > 0 then Some(Value(s)) else None
  }

  lemma {:induction false} ReadDecimal(n: nat)
    ensures Value(Decimal(n)) == n && (n > 0 ==> Read(Decimal(n)) == Some(n))
  {
    var s := Decimal(n);
    if n < 10 {
      assert s[..0] == [];
    } else {
      ReadDecimal(n / 10);
      assert s[..|s| - 1] == Decimal(n / 10);
    }
  }

  // ---- Tags

  function InstanceTag(k: nat): octets {
    " m=" + Decimal(k)
  }

  function SignatureTag(i: nat, m: nat): octets {
    " i=" + Decimal(i) + [';'] + InstanceTag(m)
  }

  /** The text behind ` x=`. */
  function Behind(tag: octets): octets {
    if |tag| < 3 then [] else tag[3..]
  }

  /** Reads the two kinds of value above; the signatures are already null. */
  function TagParsers(): Parsers {
    Parsers(
      v => Read(Behind(v)),
      v => match IndexByte(v, ';') case None => None case Some(k) => Read(Behind(v[..k])),
      v => match IndexByte(v, ';')
           case None => 0
           case Some(k) => (match Read(Behind(v[k + 1..])) case None => 0 case Some(m) => m),
      v => Some(v))
  }

  lemma InstanceTagRead(k: pos)
    ensures TagParsers().instance(InstanceTag(k)) == Some(k)
  {
    ReadDecimal(k);
    assert InstanceTag(k)[3..] == Decimal(k);
  }

  lemma SignatureTagCut(i: nat, m: nat)
    ensures IndexByte(SignatureTag(i, m), ';') == Some(|Decimal(i)| + 3)
    ensures SignatureTag(i, m)[..|Decimal(i)| + 3] == " i=" + Decimal(i)
    ensures SignatureTag(i, m)[|Decimal(i)| + 4..] == InstanceTag(m)
  {
    IndexByteAt(" i=" + Decimal(i), ';', InstanceTag(m));
  }

  lemma BehindTag(k: nat)
    ensures Behind(" i=" + Decimal(k)) == Decimal(k) && Behind(InstanceTag(k)) == Decimal(k)
  {
  }

  lemma SignatureTagRead(i: pos, m: pos)
    ensures TagParsers().sequence(SignatureTag(i, m)) == Some(i)
    ensures TagParsers().reference(SignatureTag(i, m)) == m
  {
    hide SignatureTag, InstanceTag, Decimal, Value, Behind;
    ReadDecimal(i);
    ReadDecimal(m);
    SignatureTagCut(i, m);
    BehindTag(i);
    BehindTag(m);
  }

  // ---- Fields and chains

  function InstanceField(k: nat): Field {
    Field(INSTANCE, InstanceTag(k))
  }

  function SignatureField(i: nat, m: nat): Field {
    Field(SIGNATURE, SignatureTag(i, m))
  }

  lemma TagPlain(i: nat, m: nat)
    ensures NoLineEnd(InstanceTag(m)) && NoLineEnd(SignatureTag(i, m))
    ensures |InstanceTag(m)| <= m + 4 && |SignatureTag(i, m)| <= i + m + 9
  {
    var tag := SignatureTag(i, m);
    forall k | 0 <= k < |tag| ensures tag[k] != '\r' && tag[k] != '\n' {
      assert k < 3 || k - 3 < |Decimal(i)| || k < |Decimal(i)| + 7 || '0' <= tag[k] <= '9';
    }
  }

  lemma Names()
    ensures Lower(INSTANCE) == INSTANCE && Lower(SIGNATURE) == SIGNATURE && INSTANCE != SIGNATURE
    ensures ValidName(INSTANCE) && ValidName(SIGNATURE) && |INSTANCE| == 16 && |SIGNATURE| == 15
  {
    assert INSTANCE == "message-instance" && SIGNATURE == "dkim2-signature";
    assert Lower(INSTANCE) == INSTANCE;
    assert Lower(SIGNATURE) == SIGNATURE;
  }

  lemma FieldsRead(i: nat, m: nat)
    ensures InstanceField(m).Name() == INSTANCE && InstanceField(m).Value() == InstanceTag(m)
    ensures SignatureField(i, m).Name() == SIGNATURE && SignatureField(i, m).Value() == SignatureTag(i, m)
    ensures InstanceField(m).Valid() && SignatureField(i, m).Valid()
  {
    hide Decimal;
    Names();
    TagPlain(i, m);
    UnfoldPlain(InstanceTag(m));
    UnfoldPlain(SignatureTag(i, m));
  }

  function Instances(m: nat): Block {
    if m == 0 then [] else Instances(m - 1) + [InstanceField(m)]
  }

  /** The first `k` of `n` signatures: the last of the chain refers to instance `m`, the others to the first. */
  function Signatures(k: nat, m: nat, n: nat): Block {
    if k == 0 then [] else Signatures(k - 1, m, n) + [SignatureField(k, if k == n then m else 1)]
  }

  function Chain(m: nat, n: nat): Block {
    Instances(m) + Signatures(n, m, n)
  }

  function Numbering(from: nat, n: nat): (r: seq<Fact>)
    ensures |r| == n && forall i | 0 <= i < n :: r[i] == Fact(from + i, i + 1)
  {
    seq<Fact>(n, i requires 0 <= i < n => Fact(from + i, i + 1))
  }

  lemma FactsSnoc(b: Block, f: Field, name: octets, number: octets -> Option<pos>, facts: seq<Fact>)
    requires Facts(b, name, number) == Ok(facts)
    ensures Facts(b + [f], name, number) ==
      if f.Name() != name then Ok(facts)
      else match number(f.Value())
        case None => Err(ParseFailed)
        case Some(n) => Ok(facts + [Fact(|b|, n)])
  {
    hide Lower, Unfold;
    assert (b + [f])[..|b|] == b;
  }

  lemma InstanceSnoc(b: Block, k: pos, facts: seq<Fact>)
    requires Facts(b, INSTANCE, TagParsers().instance) == Ok(facts)
    requires Facts(b, SIGNATURE, TagParsers().sequence) == Ok([])
    ensures Facts(b + [InstanceField(k)], INSTANCE, TagParsers().instance) == Ok(facts + [Fact(|b|, k)])
    ensures Facts(b + [InstanceField(k)], SIGNATURE, TagParsers().sequence) == Ok([])
  {
    hide Facts, TagParsers, InstanceField, InstanceTag;
    FieldsRead(1, k);
    InstanceTagRead(k);
    Names();
    FactsSnoc(b, InstanceField(k), INSTANCE, TagParsers().instance, facts);
    FactsSnoc(b, InstanceField(k), SIGNATURE, TagParsers().sequence, []);
  }

  lemma SignatureSnoc(b: Block, i: pos, m: pos, instances: seq<Fact>, signatures: seq<Fact>)
    requires Facts(b, INSTANCE, TagParsers().instance) == Ok(instances)
    requires Facts(b, SIGNATURE, TagParsers().sequence) == Ok(signatures)
    ensures Facts(b + [SignatureField(i, m)], INSTANCE, TagParsers().instance) == Ok(instances)
    ensures Facts(b + [SignatureField(i, m)], SIGNATURE, TagParsers().sequence) == Ok(signatures + [Fact(|b|, i)])
  {
    hide Facts, TagParsers, SignatureField, SignatureTag;
    FieldsRead(i, m);
    SignatureTagRead(i, m);
    Names();
    FactsSnoc(b, SignatureField(i, m), INSTANCE, TagParsers().instance, instances);
    FactsSnoc(b, SignatureField(i, m), SIGNATURE, TagParsers().sequence, signatures);
  }

  lemma {:induction false} InstanceFacts(m: nat)
    ensures |Instances(m)| == m
    ensures Facts(Instances(m), INSTANCE, TagParsers().instance) == Ok(Numbering(0, m))
    ensures Facts(Instances(m), SIGNATURE, TagParsers().sequence) == Ok([])
  {
    hide InstanceField, TagParsers, Facts;
    if m == 0 {
      FactsEmpty(INSTANCE, TagParsers().instance);
      FactsEmpty(SIGNATURE, TagParsers().sequence);
      assert Numbering(0, 0) == [];
    } else {
      InstanceFacts(m - 1);
      InstanceSnoc(Instances(m - 1), m, Numbering(0, m - 1));
      assert Numbering(0, m) == Numbering(0, m - 1) + [Fact(m - 1, m)];
    }
  }

  lemma {:induction false} SignatureFacts(k: nat, m: pos, n: nat)
    ensures |Signatures(k, m, n)| == k
    ensures var b := Instances(m) + Signatures(k, m, n);
      && |Instances(m)| == m
      && Facts(b, INSTANCE, TagParsers().instance) == Ok(Numbering(0, m))
      && Facts(b, SIGNATURE, TagParsers().sequence) == Ok(Numbering(m, k))
  {
    hide SignatureField, InstanceField, TagParsers, Facts, Instances;
    InstanceFacts(m);
    if k == 0 {
      assert Instances(m) + [] == Instances(m) && Numbering(m, 0) == [];
    } else {
      var init, reference := Instances(m) + Signatures(k - 1, m, n), if k == n then m else 1;
      SignatureFacts(k - 1, m, n);
      SignatureSnoc(init, k, reference, Numbering(0, m), Numbering(m, k - 1));
      assert Instances(m) + Signatures(k, m, n) == init + [SignatureField(k, reference)];
      assert Numbering(m, k) == Numbering(m, k - 1) + [Fact(m + k - 1, k)];
    }
  }

  lemma {:induction false} SignatureAt(k: nat, m: nat, n: nat, i: nat)
    requires i < k
    ensures |Signatures(k, m, n)| == k
    ensures Signatures(k, m, n)[i] == SignatureField(i + 1, if i + 1 == n then m else 1)
  {
    if i < k - 1 {
      SignatureAt(k - 1, m, n, i);
    } else if k > 1 {
      SignatureAt(k - 1, m, n, 0);
    }
  }

  function Reference(i: nat, m: nat, n: nat): nat {
    if i + 1 == n then m else 1
  }

  lemma ChainSignature(m: pos, n: pos, i: nat)
    requires i < n
    ensures |Chain(m, n)| == m + n && Chain(m, n)[m + i] == SignatureField(i + 1, Reference(i, m, n))
    ensures TagParsers().reference(Chain(m, n)[m + i].Value()) == Reference(i, m, n)
  {
    hide SignatureField, TagParsers, Instances, Facts;
    SignatureFacts(n, m, n);
    SignatureAt(n, m, n, i);
    FieldsRead(i + 1, Reference(i, m, n));
    SignatureTagRead(i + 1, Reference(i, m, n));
  }

  lemma ChainReferences(m: pos, n: pos)
    requires forall i | 0 <= i < n :: Numbering(m, n)[i].index < |Chain(m, n)|
    ensures var references := References(TagParsers(), Chain(m, n), Numbering(m, n));
      forall i | 0 <= i < n :: references[i] == Reference(i, m, n)
  {
    hide SignatureField, TagParsers, Chain, References;
    var references := References(TagParsers(), Chain(m, n), Numbering(m, n));
    forall i | 0 <= i < n ensures references[i] == Reference(i, m, n) {
      ChainSignature(m, n, i);
    }
  }

  /** Every chain within the bounds extracts. */
  lemma ChainExtracts(m: pos, n: pos)
    requires m <= MAX_INSTANCES && n <= MAX_SIGNATURES
    ensures Extraction(TagParsers(), Chain(m, n)).Ok?
    ensures var s := Extraction(TagParsers(), Chain(m, n)).value;
      s.instances == Numbering(0, m) && s.signatures == Numbering(m, n)
  {
    hide Chain, Facts, References, TagParsers;
    ChainParts(m, n);
    SignatureFacts(n, m, n);
    ChainReferences(m, n);
    FactsInRange(Chain(m, n), SIGNATURE, TagParsers().sequence);
  }

  lemma ChainParts(m: pos, n: pos)
    ensures Chain(m, n) == Instances(m) + Signatures(n, m, n)
  {
  }

  // ---- A pruned run that stops below the highest signature

  /** Pruning only the second of three signatures: a valid run with a previous hop, and what is left does not
      extract. */
  lemma PartialRunBreaks(previousIndex: int)
    ensures var p, b, run := TagParsers(), Chain(1, 3), Run(2, 2, 1);
      && Extraction(p, b).Ok? && run.Valid() && PreviousHop(p, b, run)
      && run.completion < |Extraction(p, b).value.signatures|
      && Extraction(p, Survivors(p, b, previousIndex, run)).Err?
  {
    hide Chain, Extraction, TagParsers, Survivors;
    var p, b, run := TagParsers(), Chain(1, 3), Run(2, 2, 1);
    ChainExtracts(1, 3);
    FirstIsPreviousHop();
    PruneExtractsIff(p, b, previousIndex, run);
  }

  lemma FirstIsPreviousHop()
    ensures PreviousHop(TagParsers(), Chain(1, 3), Run(2, 2, 1))
  {
    hide Chain, TagParsers, SignatureField;
    ChainSignature(1, 3, 0);
    var f := SignatureField(1, 1);
    assert Chain(1, 3)[1] == f;
    FieldsRead(1, 1);
    SignatureTagRead(1, 1);
    FieldIn(Chain(1, 3), SIGNATURE, f);
  }

  // ---- A signer beyond the collection bounds

  /** The canonicalizer's default limits. */
  const DEFAULT_LIMITS := Limits(4000, 131072, 2097152)

  /** The next hop after a chain: a new instance and a new signature that refers to it. */
  function NextHop(m: nat, n: nat): Selection {
    var rendered := InstanceField(m + 1).Raw();
    Selection(Chain(m, n), true, m + 1, Some(rendered), Some(rendered),
              UnsignedTarget(true, n + 1, m + 1, SignatureField(n + 1, m + 1).Raw()))
  }

  function AddedHop(m: nat, n: nat): Added {
    Added([InstanceField(m + 1)], SignatureField(n + 1, m + 1))
  }

  function Completed(m: nat, n: nat): Block {
    Chain(m, n) + [InstanceField(m + 1)] + [SignatureField(n + 1, m + 1)]
  }

  lemma RawOne(f: Field)
    ensures MessageParser.RawBlock([f]) == f.Raw()
  {
    hide Field.Raw;
    assert [f][1..] == [];
    assert MessageParser.RawBlock([]) == [] && f.Raw() + [] == f.Raw();
  }

  lemma LineWithin(f: Field)
    requires NoLineEnd(MessageParser.FieldText(f)) && |f.Raw()| <= 998
    ensures MessageParser.FieldWithin(f, MessageParser.DEFAULTS)
  {
    var text := MessageParser.FieldText(f);
    TextLines.LineLined(text);
    TextLines.WithinJoin(text, [], MessageParser.DEFAULTS.maxHeaderLineBytes, 0);
    assert f.Raw() == text + CRLF + [];
  }

  lemma StandaloneRaw(f: Field, name: octets)
    requires f.Valid() && f.Name() == name && NoLineEnd(MessageParser.FieldText(f)) && |f.Raw()| <= 998
    ensures Standalone(f.Raw(), name) == Ok(f)
  {
    hide MessageParser.Parse, Field.Raw, MessageParser.FieldText, MessageParser.FieldWithin, Lower;
    LineWithin(f);
    RawOne(f);
    NoBody();
    MessageParser.ParseOfWritten([f], [], MessageParser.DEFAULTS);
    assert f.Raw() + CRLF + [] == f.Raw() + CRLF;
    assert Named([f], name) == [f] by {
      assert [f][1..] == [];
    }
  }

  lemma NoBody()
    ensures MessageParser.StrictCrlf([]) && MessageParser.BodyWithin([], MessageParser.DEFAULTS)
  {
  }

  lemma {:induction false} DeletedShorter(value: octets)
    ensures |DeleteWsp(value)| <= |value|
  {
    if value != [] {
      DeletedShorter(value[1..]);
    }
  }

  /** The sizes of the fields of a chain. */
  lemma FieldSizes(i: nat, m: nat)
    requires i <= 129 && m <= 129
    ensures |FieldBytes(InstanceField(m))| <= 300 && |FieldBytes(SignatureField(i, m))| <= 300
    ensures |InstanceField(m).Raw()| <= 300 && |SignatureField(i, m).Raw()| <= 300
    ensures NoLineEnd(MessageParser.FieldText(InstanceField(m)))
    ensures NoLineEnd(MessageParser.FieldText(SignatureField(i, m)))
  {
    hide InstanceTag, SignatureTag, Lower, Unfold, DeleteWsp;
    TagPlain(i, m);
    Names();
    FieldsRead(i, m);
    DeletedShorter(InstanceTag(m));
    DeletedShorter(SignatureTag(i, m));
    NameHasNoMark(INSTANCE, '\r');
    NameHasNoMark(INSTANCE, '\n');
    NameHasNoMark(SIGNATURE, '\r');
    NameHasNoMark(SIGNATURE, '\n');
  }

  lemma {:induction false} JoinedSize(fields: seq<Field>)
    requires forall f | f in fields :: |FieldBytes(f)| <= 300
    ensures |Joined(fields)| <= 300 * |fields|
  {
    hide FieldBytes;
    if fields != [] {
      JoinedSize(fields[..|fields| - 1]);
    }
  }

  lemma {:induction false} InstanceIn(m: nat, f: Field) returns (k: nat)
    requires f in Instances(m)
    ensures 1 <= k <= m && f == InstanceField(k)
  {
    if f in Instances(m - 1) {
      k := InstanceIn(m - 1, f);
    } else {
      k := m;
    }
  }

  lemma {:induction false} SignatureIn(k: nat, m: nat, n: nat, f: Field) returns (i: nat)
    requires f in Signatures(k, m, n)
    ensures i < k && f == SignatureField(i + 1, Reference(i, m, n))
  {
    if f in Signatures(k - 1, m, n) {
      i := SignatureIn(k - 1, m, n, f);
    } else {
      i := k - 1;
    }
  }

  lemma ChainFieldSize(m: pos, n: pos, f: Field)
    requires m <= 128 && n <= 128 && f in Chain(m, n)
    ensures |FieldBytes(f)| <= 300
  {
    hide FieldBytes, InstanceField, SignatureField, Instances, Signatures;
    if f in Instances(m) {
      var k := InstanceIn(m, f);
      FieldSizes(1, k);
    } else {
      var i := SignatureIn(n, m, n, f);
      FieldSizes(i + 1, Reference(i, m, n));
    }
  }

  lemma ChainSizes(m: pos, n: pos)
    requires m <= 128 && n <= 128
    ensures forall f | f in Chain(m, n) :: |FieldBytes(f)| <= 300
  {
    hide FieldBytes, Chain;
    forall f | f in Chain(m, n) ensures |FieldBytes(f)| <= 300 {
      ChainFieldSize(m, n, f);
    }
  }

  lemma NextHopParts(m: pos, n: pos)
    requires m <= 128 && n <= 128
    ensures var sel := NextHop(m, n);
      && GeneratedFields(DEFAULT_LIMITS, sel) == Ok([InstanceField(m + 1)])
      && Standalone(sel.generatedField.value, INSTANCE) == Ok(InstanceField(m + 1))
      && Standalone(sel.target.bytes, SIGNATURE) == Ok(SignatureField(n + 1, m + 1))
      && StandaloneWithin(DEFAULT_LIMITS, sel.target.bytes, SIGNATURE) == Ok(SignatureField(n + 1, m + 1))
  {
    hide InstanceField, SignatureField, Standalone, FieldBytes, Chain, Lower, MessageParser.FieldText, Field.Raw;
    FieldsRead(n + 1, m + 1);
    FieldSizes(n + 1, m + 1);
    StandaloneRaw(InstanceField(m + 1), INSTANCE);
    StandaloneRaw(SignatureField(n + 1, m + 1), SIGNATURE);
  }

  lemma ListedSizes(m: pos, n: pos, number: octets -> Option<pos>, name: octets, k: nat)
    requires m <= 128 && n <= 128
    ensures var fields := Listing(Chain(m, n), name, number, k);
      |fields| <= k && FieldsWithin(DEFAULT_LIMITS, fields) && |Joined(fields)| <= 300 * k
  {
    hide FieldBytes, Chain, Joined;
    ChainSizes(m, n);
    JoinedSize(Listing(Chain(m, n), name, number, k));
  }

  lemma ChainCount(m: pos, n: pos)
    requires m <= 128 && n <= 128
    ensures ProtocolCount(Chain(m, n)) == m + n
  {
    hide Chain, Facts, Named, TagParsers, FactAt;
    ChainParts(m, n);
    SignatureFacts(n, m, n);
    FactsSound(Chain(m, n), INSTANCE, TagParsers().instance);
    FactsSound(Chain(m, n), SIGNATURE, TagParsers().sequence);
  }

  lemma NextHopSigned(m: pos, n: pos)
    requires m <= 128 && n <= 128
    ensures Signing(DEFAULT_LIMITS, TagParsers(), NextHop(m, n)).Ok?
  {
    hide InstanceField, SignatureField, Standalone, StandaloneWithin, FieldBytes, Chain, Extraction, GeneratedFields;
    hide TagParsers, Listing, Joined, Field.Raw, ProtocolCount, FieldsWithin;
    var p := TagParsers();
    ChainExtracts(m, n);
    ChainCount(m, n);
    NextHopParts(m, n);
    FieldSizes(n + 1, m + 1);
    ListedSizes(m, n, p.instance, INSTANCE, m);
    ListedSizes(m, n, p.sequence, SIGNATURE, n);
    JoinedSnoc(Listing(Chain(m, n), INSTANCE, p.instance, m), InstanceField(m + 1));
  }

  /** A chain at a collection bound: the signer's construction succeeds beyond it, and no verifier extracts the
      completed message. */
  lemma BeyondTheBounds(m: pos, n: pos)
    requires m <= MAX_INSTANCES && n <= MAX_SIGNATURES && (m == MAX_INSTANCES || n == MAX_SIGNATURES)
    ensures NextHop(m, n).target.instance == m + 1 && NextHop(m, n).target.sequence == n + 1
    ensures Signing(DEFAULT_LIMITS, TagParsers(), NextHop(m, n)).Ok?
    ensures Completes(TagParsers(), NextHop(m, n), AddedHop(m, n))
    ensures Inserted(NextHop(m, n), AddedHop(m, n), Completed(m, n))
    ensures Input(DEFAULT_LIMITS, TagParsers(), Completed(m, n), n + 1) == Err(SequenceInvalid)
  {
    hide InstanceField, SignatureField, Standalone, FieldBytes, Chain, Signing, TagParsers, Input, Lower, Unfold;
    NextHopSigned(m, n);
    NextHopParts(m, n);
    NextHopCompletes(m, n);
    NextHopInserted(m, n);
    SignerVerifierAgree(DEFAULT_LIMITS, TagParsers(), NextHop(m, n), AddedHop(m, n), Completed(m, n));
  }

  lemma NextHopCompletes(m: pos, n: pos)
    requires m <= 128 && n <= 128
    ensures Completes(TagParsers(), NextHop(m, n), AddedHop(m, n))
  {
    hide InstanceField, SignatureField, Standalone, Chain, TagParsers, Lower, Unfold, DeleteWsp, Field.Raw;
    NextHopParts(m, n);
    FieldsRead(n + 1, m + 1);
    InstanceTagRead(m + 1);
    SignatureTagRead(n + 1, m + 1);
    NullAlready(SignatureTag(n + 1, m + 1));
  }

  lemma NullAlready(value: octets)
    ensures TagParsers().incomplete(value) == Some(value)
  {
  }

  lemma NextHopInserted(m: nat, n: nat)
    ensures Inserted(NextHop(m, n), AddedHop(m, n), Completed(m, n))
  {
    hide InstanceField, SignatureField, Chain, Lower, Unfold;
    FieldsRead(n + 1, m + 1);
    Names();
    var f, g := InstanceField(m + 1), SignatureField(n + 1, m + 1);
    NamedSnoc(Chain(m, n), f, INSTANCE);
    NamedSnoc(Chain(m, n), f, SIGNATURE);
    NamedSnoc(Chain(m, n) + [f], g, INSTANCE);
    NamedSnoc(Chain(m, n) + [f], g, SIGNATURE);
  }
}
