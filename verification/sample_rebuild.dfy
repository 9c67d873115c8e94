/** An eligible evaluation whose rebuild is refused by its own self-check: the received report uses the whole line
    limit with little framing, the run removes one line, and the printer's framing needs six more. */
module SampleRebuild {
  import opened Octets
  import opened RawMessage
  import opened SignatureInput
  import opened SignatureStability
  import opened Prune
  import opened Restore
  import opened Rebuild
  import opened SampleChain
  import opened SampleReport
  import opened TextLines
  import Boundary
  import EligibleRebuild
  import Identity
  import MachinePart
  import MessageParser
  import PropagationReport
  import Received
  import RebuildRender
  import ReportParser
  import StatusGroup
  import StatusReport

  // ---- The original

  const BODY_LINES := 2097130

  /** One instance, two signatures, and a body of empty lines. */
  function LongMessage(): Content {
    Content(Chain(1, 2), Some(Blank(BODY_LINES)), Delimited)
  }

  function LongText(): octets {
    LongMessage().Text()
  }

  function LongReport(): octets {
    TerseReport(LongText())
  }

  lemma ShortChains()
    ensures Chain(1, 2) == [InstanceField(1), SignatureField(1, 1), SignatureField(2, 1)]
    ensures Chain(1, 1) == [InstanceField(1), SignatureField(1, 1)]
  {
    hide InstanceField, SignatureField;
    assert Instances(0) == [] && Instances(1) == Instances(0) + [InstanceField(1)];
    assert Signatures(0, 1, 2) == [] && Signatures(1, 1, 2) == Signatures(0, 1, 2) + [SignatureField(1, 1)];
    assert Signatures(2, 1, 2) == Signatures(1, 1, 2) + [SignatureField(2, 1)];
    assert Signatures(0, 1, 1) == [] && Signatures(1, 1, 1) == Signatures(0, 1, 1) + [SignatureField(1, 1)];
  }

  predicate PlainField(f: Field) {
    && f.Valid() && |f.Raw()| <= 300
    && NoLineEnd(MessageParser.FieldText(f)) && Unmarked(MessageParser.FieldText(f))
  }

  lemma UnmarkedTag(i: nat, m: nat)
    ensures Unmarked(InstanceTag(m)) && Unmarked(SignatureTag(i, m))
  {
    var tag := SignatureTag(i, m);
    forall k | 0 <= k < |tag| ensures tag[k] != 'Z' {
      assert k < 3 || k - 3 < |Decimal(i)| || k < |Decimal(i)| + 7 || '0' <= tag[k] <= '9';
    }
  }

  lemma UnmarkedNames()
    ensures Unmarked(INSTANCE) && Unmarked(SIGNATURE) && Unmarked([':'])
  {
  }

  lemma ChainFieldsPlain(i: nat, m: nat)
    requires i <= 129 && m <= 129
    ensures PlainField(InstanceField(m)) && PlainField(SignatureField(i, m))
  {
    hide Unmarked, InstanceTag, SignatureTag, Field.Valid, Field.Raw;
    FieldsRead(i, m);
    FieldSizes(i, m);
    UnmarkedTag(i, m);
    UnmarkedNames();
    UnmarkedConcat(INSTANCE, [':']);
    UnmarkedConcat(INSTANCE + [':'], InstanceTag(m));
    UnmarkedConcat(SIGNATURE, [':']);
    UnmarkedConcat(SIGNATURE + [':'], SignatureTag(i, m));
  }

  lemma {:induction false} PlainBlock(b: Block)
    requires forall f | f in b :: PlainField(f)
    ensures ValidBlock(b) && forall f | f in b :: MessageParser.FieldWithin(f, MessageParser.DEFAULTS)
    ensures Tidy(MessageParser.RawBlock(b)) && LineEnds(MessageParser.RawBlock(b)) == |b|
    ensures |MessageParser.RawBlock(b)| <= 300 * |b| && Unmarked(MessageParser.RawBlock(b))
  {
    hide Tidy, LineEnds, Unmarked, MessageParser.FieldText, MessageParser.FieldWithin, Field.Valid, NoLineEnd;
    if b == [] {
      LinedEmpty();
      UnmarkedText([]);
    } else {
      var text, rest := MessageParser.FieldText(b[0]), MessageParser.RawBlock(b[1..]);
      assert b == [b[0]] + b[1..] && PlainField(b[0]);
      PlainBlock(b[1..]);
      PlainSplit(b);
      LineWithin(b[0]);
      LineLined(text);
      TidyJoin(text, rest);
      UnmarkedText(CRLF);
      UnmarkedConcat(text, CRLF);
      UnmarkedConcat(text + CRLF, rest);
    }
  }

  lemma PlainSplit(b: Block)
    requires b != []
    ensures var text, rest := MessageParser.FieldText(b[0]), MessageParser.RawBlock(b[1..]);
      MessageParser.RawBlock(b) == text + CRLF + rest && |MessageParser.RawBlock(b)| == |b[0].Raw()| + |rest|
      && |text| <= |b[0].Raw()|
  {
    assert b[0].Raw() == MessageParser.FieldText(b[0]) + CRLF;
  }

  /** A message of plain fields and empty lines: it parses to itself, and its lines can be counted. */
  lemma PlainMessage(b: Block, n: nat)
    requires b != [] && |b| <= 100 && (forall f | f in b :: PlainField(f)) && n <= 2097152
    ensures var c := Content(b, Some(Blank(n)), Delimited);
      && c.Valid() && c.Within() && ContentOf(c.Text()) == Some(c)
      && Tidy(c.Text()) && LineEnds(c.Text()) == |b| + 1 + n && Unmarked(c.Text())
      && |c.Text()| <= 30002 + 2 * n
  {
    hide Tidy, LineEnds, Unmarked, MessageParser.Parse, MessageParser.RawBlock, MessageParser.StrictCrlf;
    hide MessageParser.LinesWithin, MessageParser.LineCount, PlainField, MessageParser.FieldWithin, Blank;
    PlainBlock(b);
    BlankLined(n);
    BlankUnmarked(n);
    var head, body := MessageParser.RawBlock(b), Blank(n);
    var c := Content(b, Some(body), Delimited);
    assert c.Text() == head + (CRLF + body) == head + CRLF + body;
    TidyJoin(head, body);
    UnmarkedText(CRLF);
    UnmarkedConcat(head, CRLF);
    UnmarkedConcat(head + CRLF, body);
    TidyStrict(body);
    MessageParser.ParseOfWritten(b, body, MessageParser.DEFAULTS);
  }

  lemma TidyStrict(text: octets)
    requires Tidy(text)
    ensures MessageParser.StrictCrlf(text) && MessageParser.LinesWithin(text, 998, 0)
  {
  }

  lemma {:induction false} BlankUnmarked(n: nat)
    ensures Unmarked(Blank(n))
  {
    if n > 0 {
      BlankUnmarked(n - 1);
    }
  }

  lemma LongMessageRead()
    ensures LongMessage().Valid() && LongMessage().Within() && ContentOf(LongText()) == Some(LongMessage())
    ensures Tidy(LongText()) && LineEnds(LongText()) == BODY_LINES + 4 && Unmarked(LongText())
    ensures |LongText()| <= 5000000
  {
    hide Tidy, LineEnds, Unmarked, PlainField, Blank, Chain, InstanceField, SignatureField, ContentOf;
    hide Content.Valid, Content.Within, Content.Text;
    ShortChains();
    ChainFieldsPlain(1, 1);
    ChainFieldsPlain(2, 1);
    PlainMessage(Chain(1, 2), BODY_LINES);
  }

  // ---- The surroundings

  const PATH: octets := "<" + RECIPIENT + ">"
  const BACK: octets := "<" + "back@example" + ">"
  const LOCAL: octets := "<" + "hop@example" + ">"
  const DOMAIN: octets := "example"

  function Known(path: octets): bool {
    path == PATH || path == BACK || path == LOCAL
  }

  /** The completion signature alone, above the first signature. */
  const SAMPLE_RUN := Received.LocalRun(2, 2, Some(Received.PreviousHop(1, 1, false, false, BACK, [PATH])), true)

  /** Everyone answers as for a forwarded message that verifies; the verifier extracts only this original. */
  function SampleWorld(): Received.World {
    Received.World(
      ReportParser.DEFAULT_OPTIONS,
      StatusReport.Oracles(path => if Known(path) then Some(path) else None, _ => None),
      _ => Some(Received.OuterRoles(DOMAIN, 1)),
      (original, headersOnly, time) => Received.TargetPass(2),
      original => original == LongText(),
      (original, target) => Some(Received.Completion(2, 1, 1, DOMAIN)),
      true,
      domain => domain == DOMAIN,
      domain => Received.AuthorityLocal,
      (original, target, recipient) => Some(Received.Evidence([DOMAIN], [PATH])),
      (original, target) => if target == 2 then Received.Detected(SAMPLE_RUN) else Received.DetectionUnsupported,
      (original, run) => Received.MembersVerified,
      (original, number) => true,
      path => if Known(path) then Some(DOMAIN) else None,
      stage => false)
  }

  lemma PlainBracketed(inner: octets)
    requires 1 <= |inner| <= 100 && forall i | 0 <= i < |inner| :: 'a' <= inner[i] <= 'z' || inner[i] == '@'
    requires inner[0] != '@'
    ensures var path := "<" + inner + ">";
      RebuildRender.Bracketed(path) && RebuildRender.Inner(path) == inner && !SourceRouted(path)
  {
    var path := "<" + inner + ">";
    assert path[1..|path| - 1] == inner;
  }

  lemma PathsBracketed()
    ensures RebuildRender.Bracketed(PATH) && RebuildRender.Bracketed(BACK) && RebuildRender.Bracketed(LOCAL)
    ensures RebuildRender.Inner(PATH) == RECIPIENT
    ensures !SourceRouted(PATH) && !SourceRouted(BACK)
  {
    hide RebuildRender.Bracketed, RebuildRender.Inner, SourceRouted;
    PlainBracketed(RECIPIENT);
    PlainBracketed("back@example");
    PlainBracketed("hop@example");
  }

  lemma DomainsNamed()
    ensures RebuildRender.DomainName(DOMAIN) && RebuildRender.DomainName("mx.example")
  {
  }

  lemma SampleRules()
    ensures RebuildRender.WorldRules(SampleWorld(), Known)
  {
    hide RebuildRender.Bracketed, RebuildRender.DomainName;
    PathsBracketed();
    DomainsNamed();
  }

  // ---- The evaluation is eligible

  lemma SampleReadable()
    ensures MachinePart.MachineReadable(SampleWorld().status, STATED)
    ensures StatusReport.FinalPath(SampleWorld().status, "rfc822; " + RECIPIENT) == Some(PATH)
  {
    hide RebuildRender.Bracketed, RebuildRender.DomainName, StatusReport.FinalPath, Trim;
    PathsBracketed();
    DomainsNamed();
    RebuildRender.PathReads(SampleWorld().status, PATH);
    RebuildRender.DomainReads("mx.example");
  }

  lemma SampleStatus()
    ensures StatusReport.ParseBody(SampleWorld().status, MachinePart.MachineText(STATED), StatusGroup.Received)
         == Some(StatusReport.Report(None, None, [StatusReport.Recipient(1, PATH, None, [], "failed", "5.0.0")]))
  {
    hide StatusReport.ParseBody, MachinePart.MachineText, StatusReport.AllInForm, StatusReport.FinalPath;
    hide MachinePart.Valid, MachinePart.Ordinary, MachinePart.MachineReadable;
    SampleReadable();
    StatedValid();
    MachinePart.MachineIff(SampleWorld().status, STATED);
    StatusReport.StrictBodyIff(SampleWorld().status, MachinePart.MachineText(STATED));
  }

  lemma SampleStructure()
    ensures Received.StructurePasses(SampleWorld(), LongReport())
    ensures Received.EmbeddedOriginal(SampleWorld(), LongReport()) == LongText()
    ensures !Received.HeadersOnly(SampleWorld(), LongReport())
    ensures Received.RolesOf(SampleWorld(), LongReport()) == Received.OuterRoles(DOMAIN, 1)
    ensures Received.StatusOf(SampleWorld(), LongReport())
         == StatusReport.Report(None, None, [StatusReport.Recipient(1, PATH, None, [], "failed", "5.0.0")])
  {
    hide ReportParser.Parse, StatusReport.ParseBody, MessageParser.Parse, MachinePart.MachineText, TerseReport;
    hide Tidy, LineEnds, Unmarked, LongText;
    LongMessageRead();
    TerseRead(LongText());
    SampleStatus();
    LongTextParsed();
    TypesDiffer();
  }

  lemma TypesDiffer()
    ensures ReportParser.RFC822 != ReportParser.RFC822_HEADERS
  {
    assert |ReportParser.RFC822| != |ReportParser.RFC822_HEADERS|;
  }

  lemma LongTextParsed()
    ensures MessageParser.Parse(LongText(), MessageParser.DEFAULTS).Some?
    ensures MessageParser.Parse(LongText(), MessageParser.DEFAULTS).value.headers == Chain(1, 2)
  {
    hide MessageParser.Parse, LongText, Chain, Blank, Content.Valid, Content.Within, MessageParser.RawBlock;
    LongMessageRead();
  }

  lemma ChainSigned()
    ensures Named(Chain(1, 2), SIGNATURE) != []
  {
    hide Chain, SignatureField;
    ChainSignature(1, 2, 0);
    FieldsRead(1, 1);
    assert SignatureField(1, 1) in Chain(1, 2);
    assert SignatureField(1, 1) in Named(Chain(1, 2), SIGNATURE);
  }

  lemma SampleEmbedded()
    ensures Received.EmbeddedPasses(SampleWorld(), LongText(), false, Received.OuterRoles(DOMAIN, 1))
  {
    hide MessageParser.Parse, LongText, Chain, Named, Received.HeaderFraming;
    LongTextParsed();
    ChainSigned();
  }

  lemma SampleHop()
    ensures var w := SampleWorld();
      && Received.HopPasses(w, LongText(), 2, LOCAL) && Received.RunVerified(w, LongText(), 2)
      && Received.AlignedWith(DOMAIN, [DOMAIN])
      && Received.HopEligible(w, LongText(), SAMPLE_RUN, DOMAIN)
  {
    hide LongText;
    assert Identity.RelaxedMatch(DOMAIN, [DOMAIN][0]);
  }

  lemma SampleLinked()
    ensures var g := StatusReport.Recipient(1, PATH, None, [], "failed", "5.0.0");
      Received.Links(g, [PATH]) && Received.Failed(g)
  {
  }

  /** Every condition of eligibility holds of the long report. */
  lemma SampleEligible()
    ensures Received.AllClear(SampleWorld(), LongReport(), LOCAL)
  {
    hide LongText, LongReport, Received.StructurePasses, Received.EmbeddedPasses, Received.HopPasses;
    hide Received.RunVerified, Received.Links, Received.Failed, Received.AlignedWith, Received.HopEligible;
    hide Received.EmbeddedOriginal, Received.HeadersOnly, Received.RolesOf, Received.StatusOf;
    SampleStructure();
    SampleEmbedded();
    SampleHop();
    SampleLinked();
    var g := StatusReport.Recipient(1, PATH, None, [], "failed", "5.0.0");
    assert g in Received.StatusOf(SampleWorld(), LongReport()).recipients;
    LongReportPresent();
  }

  lemma LongReportPresent()
    ensures LongReport() != []
  {
    hide LongText;
  }

  /** The verifier's answers are those of its rules. */
  lemma SampleVerifies()
    ensures EligibleRebuild.VerifierRules(SampleWorld(), TagParsers())
  {
    hide LongText, Chain, Extraction, TagParsers, Named, MessageParser.Parse;
    LongTextParsed();
    ChainExtracts(1, 2);
    FirstBelow();
  }

  lemma FirstBelow()
    ensures exists f :: f in Fields(Chain(1, 2), SIGNATURE) && Sequence(TagParsers(), f) == 1
              && TagParsers().reference(f.Value()) == 1
  {
    hide Chain, TagParsers, SignatureField, Fields;
    ChainSignature(1, 2, 0);
    var f := SignatureField(1, 1);
    assert f in Chain(1, 2);
    FieldsRead(1, 1);
    SignatureTagRead(1, 1);
    FieldIn(Chain(1, 2), SIGNATURE, f);
  }

  // ---- The floor

  lemma KeptFields(previousIndex: int)
    ensures var p, run := TagParsers(), Run(2, 2, 1);
      && Survives(p, InstanceField(1), 0, previousIndex, run) && Survives(p, SignatureField(1, 1), 1, previousIndex, run)
      && !Survives(p, SignatureField(2, 1), 2, previousIndex, run)
  {
    hide TagParsers, InstanceField, SignatureField, InstanceTag, SignatureTag;
    SampleChain.Names();
    FieldsRead(1, 1);
    FieldsRead(2, 1);
    InstanceTagRead(1);
    SignatureTagRead(1, 1);
    SignatureTagRead(2, 1);
  }

  lemma SurvivorsSnoc(p: Parsers, b: Block, f: Field, previousIndex: int, run: Run)
    ensures Survivors(p, b + [f], previousIndex, run)
         == Survivors(p, b, previousIndex, run) + if Survives(p, f, |b|, previousIndex, run) then [f] else []
  {
    hide Survives;
    assert (b + [f])[..|b|] == b;
  }

  /** Pruning removes the completion signature alone. */
  lemma SamplePruned(previousIndex: int)
    ensures Survivors(TagParsers(), Chain(1, 2), previousIndex, Run(2, 2, 1)) == Chain(1, 1)
  {
    hide TagParsers, InstanceField, SignatureField, Chain, Survives, Survivors;
    var p, run := TagParsers(), Run(2, 2, 1);
    var a, b, c := InstanceField(1), SignatureField(1, 1), SignatureField(2, 1);
    ShortChains();
    KeptFields(previousIndex);
    NoSurvivors(p, previousIndex, run);
    SurvivorsSnoc(p, [], a, previousIndex, run);
    SurvivorsSnoc(p, [a], b, previousIndex, run);
    SurvivorsSnoc(p, [a, b], c, previousIndex, run);
    assert [] + [a] == [a] && [a] + [b] == [a, b] && [a, b] + [c] == [a, b, c];
  }

  lemma {:induction false} AllUntouched(b: Block)
    ensures Untouched(b, {}) == b
  {
    if b != [] {
      AllUntouched(b[..|b| - 1]);
      assert b == b[..|b| - 1] + [b[|b| - 1]];
    }
  }

  /** Without a rewritten name, restoring the wire order changes nothing. */
  lemma RestoredSame(b: Block)
    ensures UntouchedGroupsAgree(b, b, {}) && Restored(b, b, {}) == b
  {
    RestoredUntouched(b, b, {});
    AllUntouched(b);
    AllUntouched(Restored(b, b, {}));
  }

  /** What the rebuild of the long original keeps: there is no recipe between the two signatures. */
  function SampleFloor(previousIndex: int): Content {
    var pruned := Survivors(TagParsers(), LongMessage().headers, previousIndex, Run(2, 2, 1));
    LongMessage().(headers := Restored(pruned, pruned, {}))
  }

  lemma SampleFloorRead(previousIndex: int)
    ensures var floor := SampleFloor(previousIndex);
      && floor.headers == Chain(1, 1) && floor.Valid() && floor.Within() && floor.headers != []
      && LineEnds(floor.Text()) == BODY_LINES + 3
      && RebuildRender.Serialized(floor, false) == Some(floor.Text())
  {
    hide Tidy, LineEnds, Unmarked, PlainField, Blank, Chain, InstanceField, SignatureField, ContentOf, Survivors;
    hide Content.Valid, Content.Within, Content.Text, Restored, TagParsers;
    SamplePruned(previousIndex);
    RestoredSame(Chain(1, 1));
    ShortChains();
    ChainFieldsPlain(1, 1);
    PlainMessage(Chain(1, 1), BODY_LINES);
  }

  /** The protocol check passes: every surviving protocol field is in the floor, in order. */
  predicate ProtocolPreserved(previousIndex: int) {
    var pruned := Survivors(TagParsers(), LongMessage().headers, previousIndex, Run(2, 2, 1));
    && Named(Protocol(pruned), SIGNATURE) == Named(SampleFloor(previousIndex).headers, SIGNATURE)
    && Named(Protocol(pruned), INSTANCE) == Named(SampleFloor(previousIndex).headers, INSTANCE)
  }

  lemma SampleProtocolPreserved(previousIndex: int)
    ensures ProtocolPreserved(previousIndex)
  {
    hide Survivors, Restored, TagParsers, Protocol, Chain;
    SamplePruned(previousIndex);
    RestoredSame(Chain(1, 1));
    ProtocolNamed(Chain(1, 1), SIGNATURE);
    ProtocolNamed(Chain(1, 1), INSTANCE);
  }

  // ---- The refusal

  function SampleStart(): Received.RebuildStart {
    Received.NewRebuildState(Known, SAMPLE_RUN)
  }

  ghost function SampleOutcome(): Result<Received.Evaluation, Received.Failure> {
    Received.Evaluated(SampleWorld(), LongReport(), LOCAL)
  }

  /** The long report comes out eligible, with its original and run, and its rebuild starts. */
  lemma SampleStarts()
    ensures SampleOutcome().Ok? && SampleOutcome().value.propagation == Received.Eligible
    ensures var e := SampleOutcome().value;
      && EligibleRebuild.HeadersOf(e.original) == LongMessage().headers && ContentOf(e.original) == Some(LongMessage())
      && e.run == SAMPLE_RUN && EligibleRebuild.RemovedRun(e) == Run(2, 2, 1)
      && RebuildRender.Started(SampleWorld(), Known, LongReport(), e, SampleStart())
  {
    hide LongText, LongReport, Received.AllClear, Received.Evaluated, RebuildRender.WorldRules, Chain, Blank;
    hide Received.StructurePasses, Received.EmbeddedPasses, Received.EmbeddedOriginal, Received.HeadersOnly;
    hide Received.RolesOf, Received.ReadyToRebuild, Received.Recorded, Received.IdentityAligned, MessageParser.Parse;
    hide SourceRouted, ContentOf;
    SampleEligible();
    Received.EligibleIff(SampleWorld(), LongReport(), LOCAL);
    Received.EligibleCarries(SampleWorld(), LongReport(), LOCAL);
    SampleStructure();
    SampleRules();
    PathsBracketed();
    LongTextParsed();
    LongMessageRead();
  }

  lemma SampleReady(request: RebuildRender.Request, previousIndex: int)
    requires RebuildRender.RequestOk(request)
    ensures SampleOutcome().Ok?
    ensures SampleStart().Started? && |SampleStart().recipient| >= 2 && SampleOutcome().value.completion.Some?
    ensures RebuildRender.Serialized(SampleFloor(previousIndex), false).Some?
  {
    hide RebuildRender.RenderInput, SampleFloor, SampleWorld, SampleStart, SampleOutcome, LongReport;
    hide RebuildRender.Serialized, RebuildRender.RequestOk, RebuildRender.Started, Content.Valid;
    SampleStarts();
    SampleFloorRead(previousIndex);
    RebuildRender.RenderInputReadable(
      SampleWorld(), Known, LongReport(), SampleOutcome().value, SampleStart(), request, SampleFloor(previousIndex), false);
  }

  /** What the rebuild hands to the printer. */
  ghost function SampleInput(request: RebuildRender.Request, previousIndex: int): MachinePart.Input
    requires RebuildRender.RequestOk(request)
  {
    SampleReady(request, previousIndex);
    RebuildRender.RenderInput(
      SampleWorld().status, SampleOutcome().value, SampleStart(), request, SampleFloor(previousIndex), false)
  }

  lemma SampleTooLong(request: RebuildRender.Request, previousIndex: int, date: PropagationReport.DateText,
                      boundary: octets)
    requires RebuildRender.RequestOk(request)
    ensures !RebuildRender.Fits(SampleInput(request, previousIndex), date, boundary)
  {
    hide RebuildRender.RenderInput, SampleFloor, SampleWorld, SampleStart, LineEnds, PropagationReport.Original;
    hide PropagationReport.ReportText, RebuildRender.Serialized, Content.Text, Content.Valid, Content.Within;
    hide SampleOutcome, RebuildRender.RequestOk;
    SampleReady(request, previousIndex);
    SampleFloorRead(previousIndex);
    RebuildRender.RenderedOriginal(
      SampleWorld().status, SampleOutcome().value, SampleStart(), request, SampleFloor(previousIndex), false);
  }

  lemma SampleRefused(hash: octets -> Boundary.HexDigest, date: PropagationReport.DateText,
                      request: RebuildRender.Request, previousIndex: int, boundary: octets)
    requires RebuildRender.RequestOk(request)
    requires Boundary.Derived(hash, PropagationReport.Parts(SampleInput(request, previousIndex)), boundary)
    ensures var input := SampleInput(request, previousIndex);
      !PropagationReport.Proves(SampleWorld().status, input, PropagationReport.ReportText(input, date, boundary))
  {
    hide RebuildRender.RenderInput, SampleFloor, SampleWorld, SampleStart, SampleOutcome, LongReport;
    hide PropagationReport.ReportText, PropagationReport.Parts, RebuildRender.Serialized, Boundary.Derived;
    hide RebuildRender.Fits, PropagationReport.Proves, RebuildRender.RequestOk, RebuildRender.Started, Content.Valid;
    SampleStarts();
    SampleReady(request, previousIndex);
    SampleFloorRead(previousIndex);
    SampleTooLong(request, previousIndex, date, boundary);
    RebuildRender.RebuiltSelfCheckIff(
      SampleWorld(), Known, hash, date, LongReport(), SampleOutcome().value, SampleStart(), request,
      SampleFloor(previousIndex), false, boundary);
  }

  lemma NeverFits(hash: octets -> Boundary.HexDigest, input: MachinePart.Input, date: PropagationReport.DateText,
                  received: nat, r: Result<PropagationReport.Rendered, RebuildRender.RenderFailure>)
    requires forall boundary :: !RebuildRender.Fits(input, date, boundary)
    ensures RebuildRender.Ends(hash, input, date, received, r) ==> r == Err(RebuildRender.InternalFailure)
  {
    hide RebuildRender.Fits, Boundary.Derived, PropagationReport.RenderedAs, PropagationReport.ReportText;
  }

  /** The received report comes out eligible, and the rebuild starts from that evaluation. */
  ghost predicate EligibleAndStarted() {
    && SampleOutcome().Ok? && SampleOutcome().value.propagation == Received.Eligible
    && RebuildRender.Started(SampleWorld(), Known, LongReport(), SampleOutcome().value, SampleStart())
  }

  /** The printed report fails its self-check behind any boundary, and the last step can only end in an internal
      failure. */
  ghost predicate Refused(hash: octets -> Boundary.HexDigest, date: PropagationReport.DateText, input: MachinePart.Input) {
    && (forall boundary | Boundary.Derived(hash, PropagationReport.Parts(input), boundary) ::
          !PropagationReport.Proves(SampleWorld().status, input, PropagationReport.ReportText(input, date, boundary)))
    && (forall r | RebuildRender.Ends(hash, input, date, |LongReport()|, r) :: r == Err(RebuildRender.InternalFailure))
  }

  lemma SampleInputRefused(hash: octets -> Boundary.HexDigest, date: PropagationReport.DateText,
                           request: RebuildRender.Request, previousIndex: int)
    requires RebuildRender.RequestOk(request)
    ensures Refused(hash, date, SampleInput(request, previousIndex))
  {
    hide SampleWorld, LongReport, SampleInput, PropagationReport.ReportText, PropagationReport.Parts, Boundary.Derived;
    hide RebuildRender.Fits, PropagationReport.Proves, RebuildRender.RequestOk, RebuildRender.Ends;
    var input := SampleInput(request, previousIndex);
    forall boundary | Boundary.Derived(hash, PropagationReport.Parts(input), boundary)
      ensures !PropagationReport.Proves(SampleWorld().status, input, PropagationReport.ReportText(input, date, boundary))
    {
      SampleRefused(hash, date, request, previousIndex, boundary);
    }
    forall boundary ensures !RebuildRender.Fits(input, date, boundary) {
      SampleTooLong(request, previousIndex, date, boundary);
    }
    forall r | RebuildRender.Ends(hash, input, date, |LongReport()|, r) ensures r == Err(RebuildRender.InternalFailure) {
      NeverFits(hash, input, date, |LongReport()|, r);
    }
  }

  /** The self-check of a rebuild does fail. The received report is accepted and eligible, and the surviving protocol
      fields are preserved; but with any valid request, hash and boundary the printed report is refused, because its
      framing has more lines than the received one had. */
  lemma EligibleRebuildRefused(hash: octets -> Boundary.HexDigest, date: PropagationReport.DateText,
                               request: RebuildRender.Request, previousIndex: int)
    requires RebuildRender.RequestOk(request)
    ensures EligibleAndStarted() && ProtocolPreserved(previousIndex)
    ensures Refused(hash, date, SampleInput(request, previousIndex))
  {
    hide SampleWorld, SampleStart, SampleOutcome, LongReport, SampleInput, Refused, ProtocolPreserved;
    hide RebuildRender.RequestOk, RebuildRender.Started;
    SampleStarts();
    SampleProtocolPreserved(previousIndex);
    SampleInputRefused(hash, date, request, previousIndex);
  }
}
