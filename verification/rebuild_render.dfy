/** The last step of a rebuild: the values it hands to the report printer, and exactly when the printer's self-check
    holds on them. */
module RebuildRender {
  import opened Octets
  import opened RawMessage
  import opened MachinePart
  import Boundary
  import MessageParser
  import PropagationReport
  import ReportHeader
  import ReportParser
  import opened Rebuild
  import Received
  import StatusFields
  import StatusGroup
  import StatusReport
  import opened TextLines

  const FALLBACK_STATUS: octets := "5.0.0"

  function PropagationStatus(status: octets): octets {
    if FailureCode(status) then status else FALLBACK_STATUS
  }

  /** The verbatim Original-Recipient value, only when it names the given path. */
  function OriginalRecipientFor(o: StatusReport.Oracles, e: Received.Evaluation, path: octets): Option<octets> {
    match e.originalRecipient
    case None => None
    case Some(address) =>
      if path == [] then None
      else if o.path(path) == Some(address.path) then Some(address.value) else None
  }

  datatype Request = Request(reportingMta: octets, timestamp: nat, token: octets)

  /** The third part's body: the headers alone, or the whole message of a floor with a known body. */
  method Serialize(floor: Content, degraded: bool) returns (text: Option<octets>)
    requires floor.Valid()
    ensures text == Serialized(floor, degraded)
  {
    hide MessageParser.Parse, MessageParser.RawBlock, MessageParser.Admissible;
    if !degraded {
      if floor.body.None? {
        return None;
      }
      text := Materialize(floor);
      return;
    }
    if floor.headers == [] {
      return None;
    }
    var rendered := MessageParser.RawBlock(floor.headers);
    ParsedHeaders(floor);
    MessageParser.ParseOfHeaders(floor.headers, MessageParser.DEFAULTS);
    var reparsed := MessageParser.Parse(rendered, MessageParser.DEFAULTS);
    if reparsed.None? || reparsed.value.body != [] || |reparsed.value.headers| != |floor.headers|
       || MessageParser.RawBlock(reparsed.value.headers) != rendered {
      assert false; // header octets read back as a message without a body
    }
    return Some(rendered);
  }

  function Serialized(floor: Content, degraded: bool): Option<octets> {
    if degraded then if floor.headers == [] then None else Some(MessageParser.RawBlock(floor.headers))
    else if floor.body.Some? && floor.Within() then Some(floor.Text()) else None
  }

  /** What the third part holds, read back: the floor's headers, and its body unless the rebuild is degraded. */
  lemma SerializedReads(floor: Content, degraded: bool)
    requires floor.Valid() && floor.headers != [] && Serialized(floor, degraded).Some?
    ensures degraded || floor.body.Some?
    ensures MessageParser.Parse(Serialized(floor, degraded).value, MessageParser.DEFAULTS)
         == Some(MessageParser.Message(floor.headers, if degraded then [] else floor.body.value))
  {
    hide MessageParser.Parse, MessageParser.RawBlock, MessageParser.StrictCrlf, MessageParser.BodyWithin;
    hide MessageParser.BlockWithin, ValidBlock;
    MessageParser.ParseOfHeaders(floor.headers, MessageParser.DEFAULTS);
    var head := MessageParser.RawBlock(floor.headers);
    if !degraded {
      MessageParser.ParseOfWritten(floor.headers, floor.body.value, MessageParser.DEFAULTS);
      assert head + (CRLF + floor.body.value) == head + CRLF + floor.body.value && head + [] == head;
    }
  }

  /** The bracketed path without its brackets. */
  function Inner(path: octets): octets
    requires |path| >= 2
  {
    path[1..|path| - 1]
  }

  /** What a rebuild prints. The recipient loses its angle brackets. */
  function RenderInput(o: StatusReport.Oracles, e: Received.Evaluation, start: Received.RebuildStart, request: Request,
                       floor: Content, degraded: bool): Input
    requires start.Started? && |start.recipient| >= 2 && e.completion.Some? && Serialized(floor, degraded).Some?
  {
    var headers := MessageParser.RawBlock(floor.headers);
    Input(
      request.reportingMta, e.completion.value.domain, request.timestamp, request.token, start.nextHop,
      Inner(start.recipient), PropagationStatus(e.status),
      match e.envelopeId
      case None => None
      case Some(id) => if 1 <= |id| <= StatusFields.MAX_ENVELOPE_ID && StatusFields.XText(id).Some? then Some(id) else None,
      match OriginalRecipientFor(o, e, start.recipient)
      case None => None
      case Some(value) => if |value| <= MAX_ORIGINAL_RECIPIENT then Some(value) else None,
      if degraded then Rfc822Headers else Rfc822, headers, Serialized(floor, degraded).value[|headers|..])
  }

  // ---- The rules of code outside this model

  /** An accepted envelope path is a bracketed address within section 4.5.3.1.3 of RFC 5321, without controls and
      with no white space at the ends. */
  predicate Bracketed(path: octets) {
    && 3 <= |path| <= MAX_PATH && path[0] == '<' && path[|path| - 1] == '>'
    && StatusFields.Text(path[1..|path| - 1]) && Trimmed(path[1..|path| - 1])
  }

  /** A canonical signing domain: one to 253 letters, digits, hyphens and dots. */
  predicate DomainName(s: octets) {
    && 1 <= |s| <= MAX_DOMAIN
    && forall i | 0 <= i < |s| :: 'a' <= s[i] <= 'z' || '0' <= s[i] <= '9' || s[i] == '-' || s[i] == '.'
  }

  /** What the envelope code and the domain code outside this model promise: a valid path is bracketed, a path with a
      DNS domain has a canonical form, and a canonical signing domain is a domain name. */
  ghost predicate WorldRules(w: Received.World, validPath: octets -> bool) {
    && (forall path :: validPath(path) ==> Bracketed(path))
    && (forall path :: w.envelopeDomain(path).Some? ==> w.status.path(path).Some?)
    && (forall domain :: w.canonicalDomain(domain) ==> DomainName(domain))
  }

  /** The preflight of a rebuild request. */
  predicate RequestOk(request: Request) {
    TokenOk(request.token) && 0 < request.timestamp <= MAX_TIMESTAMP && DomainName(request.reportingMta)
  }

  // ---- The printed values are valid and readable

  lemma DomainReads(s: octets)
    requires DomainName(s)
    ensures NoLineEnd(s) && Trim(s) == s && StatusFields.Text(s) && s != []
  {
    forall i | 0 <= i < |s| ensures StatusFields.TextChar(s[i]) && s[i] != '\r' && s[i] != '\n' && !IsWsp(s[i]) {
    }
    TrimOfTrimmed(s);
  }

  lemma FallbackCode()
    ensures FailureCode(FALLBACK_STATUS)
  {
    IndexByteAt("0", '.', "0");
    assert FALLBACK_STATUS[2..] == "0" + ['.'] + "0";
    assert FALLBACK_STATUS[2..3] == "0" && FALLBACK_STATUS[4..] == "0";
  }

  lemma PathReads(o: StatusReport.Oracles, path: octets)
    requires Bracketed(path)
    ensures var inner := Inner(path);
      && inner != [] && inner[0] == path[1] && NoLineEnd(path) && NoLineEnd(inner)
      && StatusReport.FinalPath(o, "rfc822; " + inner) == o.path(path)
  {
    hide StatusFields.TypedText, StatusFields.Text, StatusFields.Atom, StatusFields.EqualFold;
    var inner := Inner(path);
    assert path == StatusReport.Bracketed(inner);
    TextNoLineEnd(inner);
    TrimOfTrimmed(inner);
    Rfc822Atom();
    TypedTextRead("rfc822", inner, "rfc822");
    TypedTextTrimmed(" " + ("rfc822; " + inner), "rfc822", false);
    SpacedTyped(inner);
  }

  lemma Rfc822Atom()
    ensures StatusFields.Atom("rfc822") && StatusFields.EqualFold("rfc822", "rfc822")
  {
  }

  lemma SpacedTyped(inner: octets)
    ensures StatusFields.TypedText(" " + ("rfc822; " + inner), "rfc822", false)
         == StatusFields.TypedText("rfc822; " + inner, "rfc822", false)
    ensures " " + ("rfc822; " + inner) == " " + ("rfc822" + "; " + inner)
  {
    hide StatusFields.TypedText;
    var value := "rfc822; " + inner;
    TypedShown(value, "rfc822");
    TypedTextTrimmed(" " + value, "rfc822", false);
  }

  /** A value that reads as typed text is text throughout. */
  lemma TypedTextIsText(value: octets, required: octets)
    requires StatusFields.TypedText(value, required, false).Some?
    ensures StatusFields.UnfoldedText(value, false)
  {
    var i := IndexByte(value, ';').value;
    var name, text := value[..i], value[i + 1..];
    PaddedIsText(name);
    PaddedIsText(text);
    assert value == name + [';'] + text;
  }

  lemma PaddedIsText(s: octets)
    requires StatusFields.Atom(Trim(s)) || StatusFields.Text(Trim(s))
    ensures StatusFields.Text(s)
  {
    hide Trim;
    var before, after := TrimSplit(s);
    var core := Trim(s);
    if StatusFields.Atom(core) {
      AtomIsText(core);
    }
    forall i | 0 <= i < |s| ensures StatusFields.TextChar(s[i]) {
      if i < |before| {
        assert s[i] == before[i];
      } else if i < |before| + |core| {
        assert s[i] == core[i - |before|];
      } else {
        assert s[i] == after[i - |before| - |core|];
      }
    }
  }

  lemma AtomIsText(s: octets)
    requires StatusFields.Atom(s)
    ensures StatusFields.Text(s)
  {
    forall i | 0 <= i < |s| ensures StatusFields.TextChar(s[i]) {
      assert StatusFields.AtomChar(s[i]);
    }
  }

  /** A rebuild started from what an eligible evaluation carries. */
  ghost predicate Started(w: Received.World, validPath: octets -> bool, raw: octets, e: Received.Evaluation,
                          start: Received.RebuildStart) {
    && WorldRules(w, validPath) && Received.Carries(w, raw, e)
    && start == Received.NewRebuildState(validPath, e.run) && start.Started?
  }

  lemma StartedPaths(w: Received.World, validPath: octets -> bool, raw: octets, e: Received.Evaluation,
                     start: Received.RebuildStart)
    requires Started(w, validPath, raw, e, start)
    ensures e.completion.Some? && DomainName(e.completion.value.domain) && start.Started?
    ensures Bracketed(start.nextHop) && Bracketed(start.recipient) && w.status.path(start.recipient).Some?
    ensures !SourceRouted(start.nextHop) && !SourceRouted(start.recipient) && Received.Recorded(w.status, e)
  {
    hide Received.Recorded, DomainName, Bracketed, Received.StructurePasses, Received.EmbeddedPasses;
    hide Received.TargetOf, Received.EmbeddedOriginal, Received.HeadersOnly, Received.RolesOf;
    var recipient := e.run.previous.value.recipients[0];
    assert w.envelopeDomain(recipient).Some?;
    assert w.status.path(recipient).Some?;
  }

  lemma OriginalReads(o: StatusReport.Oracles, e: Received.Evaluation, path: octets)
    requires Received.Recorded(o, e) && OriginalRecipientFor(o, e, path).Some?
    ensures var value := OriginalRecipientFor(o, e, path).value;
      && StatusReport.OriginalPath(o, value).Some? && StatusFields.UnfoldedText(value, false)
  {
    hide StatusFields.ValidCode, StatusFields.UnfoldedText, StatusFields.XText;
    TypedTextIsText(e.originalRecipient.value.value, "rfc822");
  }

  /** The values of a started rebuild pass the printer's own check and are readable by the strict parser. */
  lemma RenderInputReadable(
    w: Received.World, validPath: octets -> bool, raw: octets, e: Received.Evaluation, start: Received.RebuildStart,
    request: Request, floor: Content, degraded: bool)
    requires Started(w, validPath, raw, e, start) && RequestOk(request)
    requires floor.headers != [] && Serialized(floor, degraded).Some?
    ensures start.Started? && |start.recipient| >= 2 && e.completion.Some?
    ensures var input := RenderInput(w.status, e, start, request, floor, degraded);
      Valid(input) && Ordinary(input) && MachineReadable(w.status, input)
  {
    hide StatusFields.Text, StatusFields.ValidCode, StatusFields.XText, StatusFields.UnfoldedText, NoLineEnd, Started;
    hide StatusReport.FinalPath, StatusReport.OriginalPath, DomainName, TokenOk, Received.Recorded, Trim;
    hide Serialized, MessageParser.RawBlock;
    HeadersPresent(floor.headers);
    StartedPaths(w, validPath, raw, e, start);
    PathReads(w.status, start.nextHop);
    PathReads(w.status, start.recipient);
    FallbackCode();
    DomainReads(request.reportingMta);
    DomainReads(e.completion.value.domain);
    DomainSize(request.reportingMta);
    DomainSize(e.completion.value.domain);
    if OriginalRecipientFor(w.status, e, start.recipient).Some? {
      OriginalReads(w.status, e, start.recipient);
    }
  }

  lemma HeadersPresent(b: Block)
    requires b != []
    ensures MessageParser.RawBlock(b) != []
  {
    hide Field.Raw;
    MessageParser.RawEndsInCrlf(b);
  }

  lemma DomainSize(s: octets)
    requires DomainName(s)
    ensures |s| <= MAX_DOMAIN
  {
  }

  // ---- The embedded original is tidy

  lemma {:induction false} BlockTidy(b: Block)
    requires forall f | f in b :: MessageParser.FieldWithin(f, MessageParser.DEFAULTS)
    requires ValidBlock(b)
    ensures Tidy(MessageParser.RawBlock(b))
  {
    hide MessageParser.FieldText, Tidy, LineEnds;
    if b == [] {
      LinedEmpty();
    } else {
      var text, rest := MessageParser.FieldText(b[0]), MessageParser.RawBlock(b[1..]);
      BlockTidy(b[1..]);
      FieldTidy(b[0]);
      TidyJoin(text, rest);
      MessageParser.RawBlockSplit(b, []);
      assert MessageParser.RawBlock(b) + [] == MessageParser.RawBlock(b) && rest + [] == rest;
    }
  }

  lemma FieldTidy(f: Field)
    requires f.Valid() && MessageParser.FieldWithin(f, MessageParser.DEFAULTS)
    ensures Tidy(MessageParser.FieldText(f))
  {
    hide MessageParser.StrictCrlf, MessageParser.LinesWithin;
    var text := MessageParser.FieldText(f);
    MessageParser.FieldAsValue(f);
    MessageParser.ValidValueStrict(text);
    assert f.Raw() == text + CRLF + [];
    WithinJoin(text, [], MessageParser.DEFAULTS.maxHeaderLineBytes, 0);
  }

  /** Whatever a rebuild serializes is strict text of bounded lines, and starts with the floor's headers. */
  lemma SerializedTidy(floor: Content, degraded: bool)
    requires floor.Valid() && Serialized(floor, degraded).Some?
    ensures MessageParser.RawBlock(floor.headers) <= Serialized(floor, degraded).value
    ensures Tidy(Serialized(floor, degraded).value)
  {
    hide MessageParser.FieldWithin, MessageParser.RawBlock, MessageParser.StrictCrlf, MessageParser.LinesWithin;
    hide MessageParser.LineCount, LineEnds;
    var head := MessageParser.RawBlock(floor.headers);
    BlockTidy(floor.headers);
    if !degraded && floor.framing == Delimited {
      assert floor.Text() == head + (CRLF + floor.body.value) == head + CRLF + floor.body.value;
      TidyJoin(head, floor.body.value);
    } else {
      assert head + [] == head;
    }
  }

  // ---- The self-check of a rebuilt report

  lemma RenderedOriginal(o: StatusReport.Oracles, e: Received.Evaluation, start: Received.RebuildStart, request: Request,
                         floor: Content, degraded: bool)
    requires start.Started? && |start.recipient| >= 2 && e.completion.Some? && Serialized(floor, degraded).Some?
    ensures PropagationReport.Original(RenderInput(o, e, start, request, floor, degraded))
         == Serialized(floor, degraded).value
  {
    hide MessageParser.RawBlock;
  }

  /** The serialized original and the report around it are within the parser's limits on lines and octets. */
  predicate Fits(input: Input, date: PropagationReport.DateText, boundary: octets) {
    && LineEnds(PropagationReport.Original(input)) + PropagationReport.FixedLines(input)
       <= MessageParser.DEFAULTS.maxBodyLines
    && |PropagationReport.ReportText(input, date, boundary)| <= MessageParser.MAX_MESSAGE_BYTES
  }

  /** For every eligible evaluation, every started rebuild, every valid request and every floor that can be
      serialized, the self-check of the printed report passes if and only if the report fits the parser's limits: no
      printed value can make it fail. */
  lemma RebuiltSelfCheckIff(
    w: Received.World, validPath: octets -> bool, hash: octets -> Boundary.HexDigest, date: PropagationReport.DateText,
    raw: octets, e: Received.Evaluation, start: Received.RebuildStart, request: Request, floor: Content, degraded: bool,
    boundary: octets)
    requires Started(w, validPath, raw, e, start) && RequestOk(request)
    requires floor.Valid() && floor.headers != [] && Serialized(floor, degraded).Some?
    ensures start.Started? && |start.recipient| >= 2 && e.completion.Some?
    ensures var input := RenderInput(w.status, e, start, request, floor, degraded);
      Boundary.Derived(hash, PropagationReport.Parts(input), boundary) ==>
        var report := PropagationReport.ReportText(input, date, boundary);
        && (PropagationReport.Proves(w.status, input, report) <==> Fits(input, date, boundary))
        && |report| <= |Serialized(floor, degraded).value| + PropagationReport.FIXED_PARTS_BOUND
  {
    hide Valid, Ordinary, MachineReadable, RenderInput, Boundary.Derived, Started, Tidy, LineEnds, Serialized;
    hide DomainName, RequestOk, Content.Valid, PropagationReport.Original;
    hide PropagationReport.Proves, PropagationReport.ReportText, PropagationReport.Parts, MessageParser.RawBlock;
    RenderInputReadable(w, validPath, raw, e, start, request, floor, degraded);
    var input := RenderInput(w.status, e, start, request, floor, degraded);
    SerializedTidy(floor, degraded);
    RenderedOriginal(w.status, e, start, request, floor, degraded);
    if Boundary.Derived(hash, PropagationReport.Parts(input), boundary) {
      PropagationReport.SelfCheckIff(w.status, hash, input, date, boundary);
      Boundary.DerivedValid(hash, PropagationReport.Parts(input), boundary);
      PropagationReport.FixedPartsBound(input, date, boundary);
    }
  }

  // ---- The outcome of the last step

  datatype RenderFailure = InternalFailure | LimitExceeded

  /** The report behind the derived boundary fits the parser's limits, or does not. */
  ghost predicate Placed(hash: octets -> Boundary.HexDigest, input: Input, date: PropagationReport.DateText,
                         boundary: octets, fits: bool) {
    Boundary.Derived(hash, PropagationReport.Parts(input), boundary) && (Fits(input, date, boundary) <==> fits)
  }

  /** How the last step ends: with the report, too large next to the received one, or without a boundary that lets
      the report fit. */
  ghost predicate Ends(hash: octets -> Boundary.HexDigest, input: Input, date: PropagationReport.DateText,
                       received: nat, r: Result<PropagationReport.Rendered, RenderFailure>) {
    match r
    case Ok(report) =>
      && |report.raw| <= received + PropagationReport.FIXED_PARTS_BOUND
      && exists boundary ::
           Placed(hash, input, date, boundary, true) && report == PropagationReport.RenderedAs(input, date, boundary)
    case Err(LimitExceeded) =>
      && |PropagationReport.Original(input)| > received
      && exists boundary ::
           && Placed(hash, input, date, boundary, true)
           && |PropagationReport.ReportText(input, date, boundary)| > received + PropagationReport.FIXED_PARTS_BOUND
    case Err(InternalFailure) =>
      || Boundary.AllCollide(hash, PropagationReport.Parts(input))
      || exists boundary :: Placed(hash, input, date, boundary, false)
  }

  /** The self-check of the printed input is decided by the limits. */
  ghost predicate Decided(o: StatusReport.Oracles, hash: octets -> Boundary.HexDigest, input: Input,
                          date: PropagationReport.DateText) {
    forall boundary | Boundary.Derived(hash, PropagationReport.Parts(input), boundary) ::
      && PropagationReport.Proves(o, input, PropagationReport.ReportText(input, date, boundary))
         == Fits(input, date, boundary)
      && |PropagationReport.ReportText(input, date, boundary)|
           <= |PropagationReport.Original(input)| + PropagationReport.FIXED_PARTS_BOUND
  }

  // ---- What the printed report says

  /** The header of the report, when it is parsed: one From at the completion domain, addressed to the sender path of
      the previous hop. */
  ghost predicate HeaderSays(e: Received.Evaluation, request: Request, date: octets, raw: octets)
    requires e.completion.Some? && e.run.previous.Some?
  {
    match MessageParser.Parse(raw, MessageParser.DEFAULTS)
    case None => false
    case Some(message) =>
      ReportHeader.Carries(message.headers, e.completion.value.domain, e.run.previous.value.mailFrom, date,
                           request.token, request.reportingMta)
  }

  /** The third part is the serialized floor, typed by its form. */
  ghost predicate OriginalSays(floor: Content, degraded: bool, raw: octets) {
    match ReportParser.Parse(raw, ReportParser.DEFAULT_OPTIONS)
    case Err(_) => false
    case Ok(report) =>
      && Some(report.original.message.body) == Serialized(floor, degraded)
      && report.original.contentType == if degraded then ReportParser.RFC822_HEADERS else ReportParser.RFC822
  }

  /** The status part names one failed recipient, the recipient of the previous hop, with the received status code if
      that is a failure code. An envelope ID and an original recipient are those received. */
  ghost predicate StatusSays(w: Received.World, e: Received.Evaluation, raw: octets)
    requires e.run.previous.Some? && |e.run.previous.value.recipients| == 1
  {
    match ReportParser.Parse(raw, ReportParser.DEFAULT_OPTIONS)
    case Err(_) => false
    case Ok(report) =>
      match StatusReport.ParseBody(w.status, report.status.message.body, StatusGroup.Strict)
      case None => false
      case Some(status) =>
        && |status.recipients| == 1 && Names(w, e, status.recipients[0])
        && status.envelopeId == if UsableId(e.envelopeId) then e.envelopeId else None
  }

  /** A received envelope ID that may be printed again. */
  predicate UsableId(id: Option<octets>) {
    id.Some? && 1 <= |id.value| <= StatusFields.MAX_ENVELOPE_ID && StatusFields.XText(id.value).Some?
  }

  /** A received original recipient that names the path, and is short enough to be printed again. */
  predicate NamesOriginal(e: Received.Evaluation, path: Option<octets>) {
    && e.originalRecipient.Some? && Some(e.originalRecipient.value.path) == path
    && |e.originalRecipient.value.value| <= MAX_ORIGINAL_RECIPIENT
  }

  ghost predicate Names(w: Received.World, e: Received.Evaluation, recipient: StatusReport.Recipient)
    requires e.run.previous.Some? && |e.run.previous.value.recipients| == 1
  {
    var path := w.status.path(e.run.previous.value.recipients[0]);
    && Some(recipient.finalPath) == path && StatusFields.EqualFold(recipient.action, "failed")
    && recipient.status == (if FailureCode(e.status) then e.status else FALLBACK_STATUS)
    && recipient.originalPath == if NamesOriginal(e, path) then path else None
  }

  ghost predicate Says(w: Received.World, e: Received.Evaluation, request: Request, floor: Content, degraded: bool,
                       date: octets, raw: octets) {
    && e.completion.Some? && e.run.previous.Some? && |e.run.previous.value.recipients| == 1
    && HeaderSays(e, request, date, raw) && OriginalSays(floor, degraded, raw) && StatusSays(w, e, raw)
  }

  lemma StartedHop(w: Received.World, validPath: octets -> bool, raw: octets, e: Received.Evaluation,
                   start: Received.RebuildStart)
    requires Started(w, validPath, raw, e, start)
    ensures e.completion.Some? && e.run.previous.Some? && start.Started?
    ensures start.nextHop == e.run.previous.value.mailFrom && e.run.previous.value.recipients == [start.recipient]
  {
    hide Received.Recorded, Received.StructurePasses, Received.EmbeddedPasses, WorldRules;
    hide Received.TargetOf, Received.EmbeddedOriginal, Received.HeadersOnly, Received.RolesOf;
  }

  /** The recipient the status part states. */
  lemma StatedNames(w: Received.World, validPath: octets -> bool, raw: octets, e: Received.Evaluation,
                    start: Received.RebuildStart, request: Request, floor: Content, degraded: bool)
    requires Started(w, validPath, raw, e, start) && RequestOk(request)
    requires floor.headers != [] && Serialized(floor, degraded).Some?
    ensures e.run.previous.Some? && |e.run.previous.value.recipients| == 1
    ensures start.Started? && |start.recipient| >= 2 && e.completion.Some?
    ensures var input := RenderInput(w.status, e, start, request, floor, degraded);
      MachineReadable(w.status, input) && Names(w, e, Stated(w.status, input).recipients[0])
  {
    hide StatusFields.ValidCode, StatusFields.XText, StatusFields.UnfoldedText, Started, Bracketed;
    hide StatusReport.FinalPath, StatusReport.OriginalPath, DomainName, TokenOk, Received.Recorded, Trim;
    hide Serialized, MessageParser.RawBlock, MachineReadable, FailureCode, Valid, Ordinary;
    RenderInputReadable(w, validPath, raw, e, start, request, floor, degraded);
    StartedHop(w, validPath, raw, e, start);
    StartedPaths(w, validPath, raw, e, start);
    PathReads(w.status, start.recipient);
    var input := RenderInput(w.status, e, start, request, floor, degraded);
    ActionText();
    StatedFields(w.status, input);
    if input.originalRecipient.Some? {
      RecordedPath(w.status, e);
    }
  }

  lemma ActionText()
    ensures StatusFields.EqualFold("failed", "failed")
  {
  }

  lemma RecordedPath(o: StatusReport.Oracles, e: Received.Evaluation)
    requires Received.Recorded(o, e) && e.originalRecipient.Some?
    ensures StatusReport.OriginalPath(o, e.originalRecipient.value.value) == Some(e.originalRecipient.value.path)
  {
  }

  lemma StatedFields(o: StatusReport.Oracles, input: Input)
    requires MachineReadable(o, input)
    ensures var status := Stated(o, input);
      && |status.recipients| == 1 && status.envelopeId == input.envelopeId
      && var recipient := status.recipients[0];
      && Some(recipient.finalPath) == StatusReport.FinalPath(o, "rfc822; " + input.finalRecipient)
      && recipient.action == "failed" && recipient.status == input.status
      && recipient.originalPath == match input.originalRecipient
           case None => None
           case Some(r) => StatusReport.OriginalPath(o, r)
  {
    hide StatusReport.FinalPath, StatusReport.OriginalPath;
  }

  /** What a passed self-check says of the printed report. */
  lemma PrintedReady(
    w: Received.World, validPath: octets -> bool, hash: octets -> Boundary.HexDigest, date: PropagationReport.DateText,
    raw: octets, e: Received.Evaluation, start: Received.RebuildStart, request: Request, floor: Content, degraded: bool,
    boundary: octets)
    requires Started(w, validPath, raw, e, start) && RequestOk(request)
    requires floor.headers != [] && Serialized(floor, degraded).Some?
    requires start.Started? && |start.recipient| >= 2 && e.completion.Some?
    requires var input := RenderInput(w.status, e, start, request, floor, degraded);
      PropagationReport.Checked(w.status, hash, date, input, boundary, true)
    ensures var input := RenderInput(w.status, e, start, request, floor, degraded);
      && PropagationReport.Printable(hash, input, boundary) && MachineReadable(w.status, input)
      && PropagationReport.Embeddable(input, date, boundary)
  {
    hide Valid, Ordinary, MachineReadable, RenderInput, Boundary.Derived, Started, Serialized, RequestOk;
    hide PropagationReport.Proves, PropagationReport.ReportText, PropagationReport.Parts, PropagationReport.Embeddable;
    RenderInputReadable(w, validPath, raw, e, start, request, floor, degraded);
    var input := RenderInput(w.status, e, start, request, floor, degraded);
    PropagationReport.SelfCheckIff(w.status, hash, input, date, boundary);
  }

  /** A report of readable values that parses states exactly those values. */
  lemma PrintedStatus(o: StatusReport.Oracles, hash: octets -> Boundary.HexDigest, input: Input,
                      date: PropagationReport.DateText, boundary: octets)
    requires PropagationReport.Printable(hash, input, boundary) && MachineReadable(o, input)
    requires PropagationReport.Embeddable(input, date, boundary)
    ensures var text := PropagationReport.ReportText(input, date, boundary);
      var report := ReportParser.Parse(text, ReportParser.DEFAULT_OPTIONS);
      && report.Ok? && report.value.original == PropagationReport.OriginalMessage(input)
      && StatusReport.ParseBody(o, report.value.status.message.body, StatusGroup.Strict) == Some(Stated(o, input))
      && MessageParser.Parse(text, MessageParser.DEFAULTS).Some?
  {
    hide Valid, Ordinary, MachineReadable, Boundary.Derived, MachineText, Stated;
    hide PropagationReport.ReportText, PropagationReport.Parts, PropagationReport.Original, PropagationReport.Embeddable;
    hide MessageParser.Parse, ReportParser.Parse, StatusReport.ParseBody, PropagationReport.OuterHeaders;
    PropagationReport.ReportRead(hash, input, date, boundary);
    PropagationReport.MessageRead(hash, input, date, boundary);
    MachineIff(o, input);
  }

  /** A printed report that passes its self-check says what the rebuild was started for. */
  lemma PrintedSays(
    w: Received.World, validPath: octets -> bool, hash: octets -> Boundary.HexDigest, date: PropagationReport.DateText,
    raw: octets, e: Received.Evaluation, start: Received.RebuildStart, request: Request, floor: Content, degraded: bool,
    boundary: octets)
    requires Started(w, validPath, raw, e, start) && RequestOk(request)
    requires floor.headers != [] && Serialized(floor, degraded).Some?
    requires start.Started? && |start.recipient| >= 2 && e.completion.Some?
    requires var input := RenderInput(w.status, e, start, request, floor, degraded);
      PropagationReport.Checked(w.status, hash, date, input, boundary, true)
    ensures var input := RenderInput(w.status, e, start, request, floor, degraded);
      Says(w, e, request, floor, degraded, date, PropagationReport.ReportText(input, date, boundary))
  {
    hide Valid, Ordinary, MachineReadable, RenderInput, Boundary.Derived, Started, Serialized, RequestOk;
    hide PropagationReport.ReportText, PropagationReport.Parts, PropagationReport.Original, PropagationReport.Checked;
    hide PropagationReport.Embeddable, MessageParser.Parse, ReportParser.Parse, StatusReport.ParseBody, MachineText;
    hide ReportHeader.Carries, Names, Stated, UsableId, PropagationReport.Printable;
    var input := RenderInput(w.status, e, start, request, floor, degraded);
    InputValues(w.status, e, start, request, floor, degraded);
    PrintedReady(w, validPath, hash, date, raw, e, start, request, floor, degraded, boundary);
    StartedHop(w, validPath, raw, e, start);
    StatedNames(w, validPath, raw, e, start, request, floor, degraded);
    StatedFields(w.status, input);
    RenderedOriginal(w.status, e, start, request, floor, degraded);
    PrintedStatus(w.status, hash, input, date, boundary);
    ReportHeader.HeaderRead(hash, input, date, boundary);
  }

  lemma PrintedOnly(
    w: Received.World, validPath: octets -> bool, hash: octets -> Boundary.HexDigest, date: PropagationReport.DateText,
    raw: octets, e: Received.Evaluation, start: Received.RebuildStart, request: Request, floor: Content, degraded: bool,
    report: PropagationReport.Rendered)
    requires Started(w, validPath, raw, e, start) && RequestOk(request)
    requires floor.headers != [] && Serialized(floor, degraded).Some?
    requires start.Started? && |start.recipient| >= 2 && e.completion.Some?
    requires var input := RenderInput(w.status, e, start, request, floor, degraded);
      exists boundary :: PropagationReport.Checked(w.status, hash, date, input, boundary, true)
        && report == PropagationReport.RenderedAs(input, date, boundary)
    ensures Says(w, e, request, floor, degraded, date, report.raw)
  {
    hide PropagationReport.Checked, PropagationReport.ReportText, RenderInput, Says, Started, RequestOk, Serialized;
    hide PropagationReport.NonAscii, PropagationReport.NonAsciiHeaders;
    var input := RenderInput(w.status, e, start, request, floor, degraded);
    var boundary :| PropagationReport.Checked(w.status, hash, date, input, boundary, true)
      && report == PropagationReport.RenderedAs(input, date, boundary);
    PrintedSays(w, validPath, hash, date, raw, e, start, request, floor, degraded, boundary);
  }

  lemma InputValues(o: StatusReport.Oracles, e: Received.Evaluation, start: Received.RebuildStart, request: Request,
                    floor: Content, degraded: bool)
    requires start.Started? && |start.recipient| >= 2 && e.completion.Some? && Serialized(floor, degraded).Some?
    ensures var input := RenderInput(o, e, start, request, floor, degraded);
      && input.authorDomain == e.completion.value.domain && input.nextHop == start.nextHop
      && input.token == request.token && input.reportingMta == request.reportingMta
      && input.envelopeId == (if UsableId(e.envelopeId) then e.envelopeId else None)
      && input.originalType == if degraded then Rfc822Headers else Rfc822
  {
    hide Serialized, MessageParser.RawBlock, StatusFields.XText;
  }

  lemma RefusedEnds(o: StatusReport.Oracles, hash: octets -> Boundary.HexDigest, input: Input,
                    date: PropagationReport.DateText, received: nat)
    requires Decided(o, hash, input, date)
    requires Boundary.AllCollide(hash, PropagationReport.Parts(input))
          || exists boundary :: PropagationReport.Checked(o, hash, date, input, boundary, false)
    ensures Ends(hash, input, date, received, Err(InternalFailure))
  {
    hide Fits, Boundary.Derived, Boundary.AllCollide, PropagationReport.Proves, PropagationReport.ReportText;
    if boundary :| PropagationReport.Checked(o, hash, date, input, boundary, false) {
      assert Placed(hash, input, date, boundary, false);
    }
  }

  lemma PrintedEnds(o: StatusReport.Oracles, hash: octets -> Boundary.HexDigest, input: Input,
                    date: PropagationReport.DateText, received: nat, report: PropagationReport.Rendered)
    requires Decided(o, hash, input, date)
    requires exists boundary :: PropagationReport.Checked(o, hash, date, input, boundary, true)
               && report == PropagationReport.RenderedAs(input, date, boundary)
    ensures Ends(hash, input, date, received,
                 if |report.raw| > received + PropagationReport.FIXED_PARTS_BOUND then Err(LimitExceeded) else Ok(report))
  {
    hide Fits, Boundary.Derived, Boundary.AllCollide, PropagationReport.Proves, PropagationReport.ReportText;
    hide PropagationReport.NonAscii, PropagationReport.NonAsciiHeaders;
    var boundary :| PropagationReport.Checked(o, hash, date, input, boundary, true)
      && report == PropagationReport.RenderedAs(input, date, boundary);
    assert Placed(hash, input, date, boundary, true);
  }

  lemma RebuiltDecided(
    w: Received.World, validPath: octets -> bool, hash: octets -> Boundary.HexDigest, date: PropagationReport.DateText,
    raw: octets, e: Received.Evaluation, start: Received.RebuildStart, request: Request, floor: Content, degraded: bool)
    requires Started(w, validPath, raw, e, start) && RequestOk(request)
    requires floor.Valid() && floor.headers != [] && Serialized(floor, degraded).Some?
    ensures start.Started? && |start.recipient| >= 2 && e.completion.Some?
    ensures var input := RenderInput(w.status, e, start, request, floor, degraded);
      Valid(input) && input.timestamp == request.timestamp && Decided(w.status, hash, input, date)
  {
    hide Valid, Ordinary, MachineReadable, Started, Serialized, RequestOk, Content.Valid, PropagationReport.Original;
    hide Boundary.Derived, PropagationReport.Proves, PropagationReport.ReportText, Fits, MessageParser.RawBlock;
    RenderInputReadable(w, validPath, raw, e, start, request, floor, degraded);
    var input := RenderInput(w.status, e, start, request, floor, degraded);
    RenderedOriginal(w.status, e, start, request, floor, degraded);
    forall boundary | Boundary.Derived(hash, PropagationReport.Parts(input), boundary)
      ensures PropagationReport.Proves(w.status, input, PropagationReport.ReportText(input, date, boundary))
         <==> Fits(input, date, boundary)
      ensures |PropagationReport.ReportText(input, date, boundary)|
           <= |PropagationReport.Original(input)| + PropagationReport.FIXED_PARTS_BOUND
    {
      RebuiltSelfCheckIff(w, validPath, hash, date, raw, e, start, request, floor, degraded, boundary);
    }
  }

  /** Serializes the floor, prints the report, and bounds its size by the received report's. */
  method Render(
    w: Received.World, ghost validPath: octets -> bool, hash: octets -> Boundary.HexDigest,
    date: nat -> PropagationReport.DateText, raw: octets, e: Received.Evaluation,
    start: Received.RebuildStart, request: Request, floor: Content, degraded: bool)
    returns (r: Result<PropagationReport.Rendered, RenderFailure>)
    requires Started(w, validPath, raw, e, start) && RequestOk(request)
    requires floor.Valid() && floor.headers != []
    ensures start.Started? && |start.recipient| >= 2 && e.completion.Some?
    ensures if Serialized(floor, degraded).None? then r == Err(InternalFailure)
            else Ends(hash, RenderInput(w.status, e, start, request, floor, degraded), date(request.timestamp), |raw|, r)
    ensures r.Ok? ==> Says(w, e, request, floor, degraded, date(request.timestamp), r.value.raw)
  {
    hide Says, Started, RequestOk, Content.Valid, Serialized, Ends, Decided, Valid, Boundary.AllCollide;
    hide PropagationReport.Checked, PropagationReport.RenderedAs, RenderInput, PropagationReport.Parts;
    StartedPaths(w, validPath, raw, e, start);
    var text := Serialize(floor, degraded);
    if text.None? {
      return Err(InternalFailure);
    }
    RebuiltDecided(w, validPath, hash, date(request.timestamp), raw, e, start, request, floor, degraded);
    var input := RenderInput(w.status, e, start, request, floor, degraded);
    var rendered := PropagationReport.RenderPropagationReport(w.status, hash, date, input);
    if rendered.None? {
      RefusedEnds(w.status, hash, input, date(request.timestamp), |raw|);
      return Err(InternalFailure);
    }
    PrintedEnds(w.status, hash, input, date(request.timestamp), |raw|, rendered.value);
    if |rendered.value.raw| > |raw| + PropagationReport.FIXED_PARTS_BOUND {
      return Err(LimitExceeded);
    }
    PrintedOnly(w, validPath, hash, date(request.timestamp), raw, e, start, request, floor, degraded, rendered.value);
    return Ok(rendered.value);
  }
}
