/** The signer's construction of Section 12.8 input, from inherited headers and the fields about to be added,
    without inserting an incomplete field into a message. */
module SigningInput {
  import opened Octets
  import opened RawMessage
  import opened SignatureInput
  import MessageParser

  /** The new DKIM2-Signature with every signature string empty. */
  datatype UnsignedTarget = UnsignedTarget(valid: bool, sequence: nat, instance: nat, bytes: octets)

  /** Inherited headers, the optional next Message-Instance with its rendering and the planner's octets for it,
      and the target. */
  datatype Selection = Selection(
    headers: Block,
    hasGenerated: bool,
    generatedNumber: nat,
    generatedRendering: Option<octets>,
    generatedField: Option<octets>,
    target: UnsignedTarget)

  /** Parses one generated field on its own; it must be the only field and bear the expected name. */
  function Standalone(field: octets, name: octets): Result<Field, Failure> {
    match MessageParser.Parse(field + CRLF, MessageParser.DEFAULTS)
    case None => Err(ParseFailed)
    case Some(message) =>
      if |Named(message.headers, name)| == 1 && |message.headers| == 1 then Ok(message.headers[0])
      else Err(MissingTarget)
  }

  function StandaloneWithin(c: Limits, field: octets, name: octets): Result<Field, Failure> {
    match Standalone(field, name)
    case Err(e) => Err(e)
    case Ok(f) => if |FieldBytes(f)| > c.maxFieldBytes then Err(FieldBytesLimit) else Ok(f)
  }

  predicate Malformed(sel: Selection) {
    !sel.target.valid || (!sel.hasGenerated && (sel.generatedNumber != 0 || sel.generatedField.Some?))
  }

  /** The target continues m instances and n signatures. */
  predicate Continues(sel: Selection, m: nat, n: nat) {
    && sel.target.sequence == n + 1
    && if sel.hasGenerated then sel.generatedNumber == m + 1 == sel.target.instance
       else sel.target.instance == m > 0
  }

  function GeneratedFields(c: Limits, sel: Selection): Result<seq<Field>, Failure> {
    if !sel.hasGenerated then Ok([])
    else match sel.generatedRendering
      case None => Err(RenderFailed)
      case Some(rendered) =>
        var supplied := match sel.generatedField case Some(bytes) => bytes case None => [];
        if rendered != supplied then Err(MissingTarget)
        else match StandaloneWithin(c, supplied, INSTANCE)
          case Err(e) => Err(e)
          case Ok(f) => Ok([f])
  }

  function SigningOf(c: Limits, p: Parsers, sel: Selection, m: nat, n: nat): Result<octets, Failure> {
    var inherited := Listing(sel.headers, INSTANCE, p.instance, m);
    if !FieldsWithin(c, inherited) then Err(FieldBytesLimit)
    else match GeneratedFields(c, sel)
      case Err(e) => Err(e)
      case Ok(generated) =>
        var signatures := Listing(sel.headers, SIGNATURE, p.sequence, n);
        if !FieldsWithin(c, signatures) then Err(FieldBytesLimit)
        else match StandaloneWithin(c, sel.target.bytes, SIGNATURE)
          case Err(e) => Err(e)
          case Ok(last) => Bounded(c, Joined(inherited + generated) + Joined(signatures) + FieldBytes(last))
  }

  function AddedCount(sel: Selection): nat {
    if sel.hasGenerated then 2 else 1
  }

  /** What a signer signs, or the first failing check. */
  ghost function Signing(c: Limits, p: Parsers, sel: Selection): Result<octets, Failure> {
    if Malformed(sel) then Err(MissingTarget)
    else if ProtocolCount(sel.headers) + AddedCount(sel) > c.maxFieldCount then Err(FieldCountLimit)
    else match Extraction(p, sel.headers)
      case Err(e) => Err(e)
      case Ok(s) =>
        if !Continues(sel, |s.instances|, |s.signatures|) then Err(MissingTarget)
        else SigningOf(c, p, sel, |s.instances|, |s.signatures|)
  }

  /** The number of protocol fields once the new ones are added, unless it overflows. */
  method CountFields(sel: Selection) returns (count: Option<nat>)
    ensures count.None? ==> ProtocolCount(sel.headers) + AddedCount(sel) > MAX_INT
    ensures count.Some? ==> count.value == ProtocolCount(sel.headers) + AddedCount(sel)
  {
    count := CheckedAdd(|Named(sel.headers, INSTANCE)|, |Named(sel.headers, SIGNATURE)|);
    if count.None? {
      return;
    }
    count := CheckedAdd(count.value, 1);
    if count.None? {
      return;
    }
    if sel.hasGenerated {
      count := CheckedAdd(count.value, 1);
    }
  }

  method InheritedRecords(c: Limits, p: Parsers, h: Block, s: State) returns (r: Result<seq<Record>, Failure>)
    requires Extraction(p, h) == Ok(s)
    ensures var inherited := Listing(h, INSTANCE, p.instance, |s.instances|);
      if !FieldsWithin(c, inherited) then r == Err(FieldBytesLimit)
      else r.Ok? && |r.value| == |s.instances| && Renders(r.value, inherited)
  {
    ExtractionParts(p, h, s);
    if |s.instances| > 0 {
      r := SelectRecords(c, h, INSTANCE, p.instance, s.instances, |s.instances|);
    } else {
      r := Ok([]);
    }
  }

  method GeneratedField(c: Limits, sel: Selection) returns (r: Result<Field, Failure>)
    requires sel.hasGenerated
    ensures match r case Err(e) => GeneratedFields(c, sel) == Err(e) case Ok(f) => GeneratedFields(c, sel) == Ok([f])
  {
    if sel.generatedRendering == None {
      return Err(RenderFailed);
    }
    var supplied := match sel.generatedField case Some(bytes) => bytes case None => [];
    if sel.generatedRendering.value != supplied {
      return Err(MissingTarget);
    }
    r := StandaloneWithin(c, supplied, INSTANCE);
  }

  /** The inherited instance records followed by the generated one. */
  method InstanceRecords(c: Limits, p: Parsers, sel: Selection, s: State) returns (r: Result<seq<Record>, Failure>)
    requires Extraction(p, sel.headers) == Ok(s) && Continues(sel, |s.instances|, |s.signatures|)
    ensures var inherited := Listing(sel.headers, INSTANCE, p.instance, |s.instances|);
      if !FieldsWithin(c, inherited) then r == Err(FieldBytesLimit)
      else match GeneratedFields(c, sel)
        case Err(e) => r == Err(e)
        case Ok(generated) => r.Ok? && Bytes(r.value) == Joined(inherited + generated)
  {
    ghost var inherited := Listing(sel.headers, INSTANCE, p.instance, |s.instances|);
    r := InheritedRecords(c, p, sel.headers, s);
    if r.Err? {
      return;
    }
    var records := r.value;
    if sel.hasGenerated {
      var field := GeneratedField(c, sel);
      if field.Err? {
        return Err(field.error);
      }
      RendersSnoc(records, inherited, Record(sel.generatedNumber, -1, FieldBytes(field.value)), field.value);
      records := records + [Record(sel.generatedNumber, -1, FieldBytes(field.value))];
      RenderedBytes(records, inherited + [field.value]);
    } else {
      assert inherited + [] == inherited;
      RenderedBytes(records, inherited);
    }
    records := SortRecords(records);
    return Ok(records);
  }

  method SigningInput(c: Limits, p: Parsers, sel: Selection) returns (r: Result<octets, Failure>)
    ensures r == Signing(c, p, sel)
  {
    if Malformed(sel) {
      return Err(MissingTarget);
    }
    var count := CountFields(sel);
    if count.None? || count.value > c.maxFieldCount {
      return Err(FieldCountLimit);
    }
    var extracted := Extract(p, sel.headers);
    if extracted.Err? {
      return Err(extracted.error);
    }
    var s := extracted.value;
    if !Continues(sel, |s.instances|, |s.signatures|) {
      return Err(MissingTarget);
    }
    r := Assemble(c, p, sel, s);
  }

  method Assemble(c: Limits, p: Parsers, sel: Selection, s: State) returns (r: Result<octets, Failure>)
    requires Extraction(p, sel.headers) == Ok(s) && Continues(sel, |s.instances|, |s.signatures|)
    ensures r == SigningOf(c, p, sel, |s.instances|, |s.signatures|)
  {
    var instances := InstanceRecords(c, p, sel, s);
    if instances.Err? {
      return Err(instances.error);
    }
    ExtractionParts(p, sel.headers, s);
    var signatures := SelectRecords(c, sel.headers, SIGNATURE, p.sequence, s.signatures, |s.signatures|);
    if signatures.Err? {
      return Err(signatures.error);
    }
    RenderedBytes(signatures.value, Listing(sel.headers, SIGNATURE, p.sequence, |s.signatures|));
    var target := StandaloneWithin(c, sel.target.bytes, SIGNATURE);
    if target.Err? {
      return Err(target.error);
    }
    r := AppendParts(c, instances.value, signatures.value, Record(sel.target.sequence, -1, FieldBytes(target.value)));
  }
}
