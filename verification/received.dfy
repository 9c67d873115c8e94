/** The staged evaluation of an inbound delivery-status notification (Section 16.4 of draft-ietf-dkim-dkim2-spec-09)
    and the preconditions of the rebuild that follows it. */
module Received {
  import opened Octets
  import HeaderHash
  import Identity
  import MessageParser
  import opened RawMessage
  import ReportParser
  import StatusFields
  import StatusGroup
  import StatusLines
  import StatusReport

  // ---- The closed vocabularies

  datatype Structure = StructureUnset | StructureValid | StructureMalformed | StructureLimitExceeded

  datatype Embedded =
    | EmbeddedVerified
    | EmbeddedVerifiedHeadersOnly
    | EmbeddedUnverified
    | EmbeddedTemporaryError
    | EmbeddedAbsent
    | EmbeddedNotEvaluated

  datatype LocalHop = HopLocal | HopNotLocal | HopMismatch | HopTemporaryError | HopNotEvaluated

  datatype Alignment = Aligned | Misaligned | AlignmentNotEvaluated

  datatype Linkage = Linked | Unlinked | LinkageNotEvaluated

  datatype Propagation =
    | NotApplicable
    | Eligible
    | TerminalOrigin
    | NotFailure
    | ForbiddenNullPreviousSender
    | ForbiddenIdentityMisaligned
    | UnsupportedChain
    | NotReconstructable
    | PropagationNotEvaluated

  datatype Stage = Preflight | StructureStage | EmbeddedStage | LocalHopStage | PreviousHopStage

  datatype Failure = InvalidRequest(stage: Stage) | Canceled(stage: Stage) | Internal(stage: Stage)

  // ---- Runs of local hops

  datatype PreviousHop = PreviousHop(
    sequence: nat, instance: nat, nextDomain: bool, nullSender: bool, mailFrom: octets, recipients: seq<octets>)

  datatype LocalRun = LocalRun(completion: nat, lowest: nat, previous: Option<PreviousHop>, initialized: bool) {
    predicate Valid() {
      && initialized && 0 < lowest <= completion && (previous.Some? <==> lowest > 1)
      && (previous.Some? ==> previous.value.sequence == lowest - 1)
    }

    predicate HasPreviousHop() {
      Valid() && previous.Some?
    }
  }

  const NO_RUN := LocalRun(0, 0, None, false)

  // ---- What the evaluation asks of code outside this model

  datatype OuterRoles = OuterRoles(signer: octets, timestamp: nat)

  datatype Verification = ContractError | VerificationError | TargetPass(sequence: nat) | TargetIndeterminate | TargetFail

  datatype Completion = Completion(sequence: nat, instance: nat, timestamp: nat, domain: octets)

  datatype AuthorityAnswer = AuthorityError | AuthorityLocal | AuthorityNotLocal

  /** What a completion signature bound to the outer recipient says of the recipients it forwarded to. */
  datatype Evidence = Evidence(domains: seq<octets>, paths: seq<octets>)

  /** An error carries whether the context is done. */
  datatype Detection = DetectionError(done: bool) | Detected(run: LocalRun) | DetectionTemporary | DetectionUnsupported

  datatype Members = MembersError(done: bool) | MembersVerified | MembersTemporary | MembersFailed

  /** Arbitrary answers of the verifier, the authority, the custody rules and the context. */
  datatype World = World(
    options: ReportParser.Options,
    status: StatusReport.Oracles,
    outerRoles: MessageParser.Message -> Option<OuterRoles>,
    verify: (octets, bool, nat) -> Verification,
    extracts: octets -> bool,
    completion: (octets, nat) -> Option<Completion>,
    hasAuthority: bool,
    canonicalDomain: octets -> bool,
    authority: octets -> AuthorityAnswer,
    binds: (octets, nat, octets) -> Option<Evidence>,
    detect: (octets, nat) -> Detection,
    members: (octets, LocalRun) -> Members,
    supported: (octets, nat) -> bool,
    envelopeDomain: octets -> Option<octets>,
    cancelled: Stage -> bool)

  const MAX_REFERENCE := 0x7FFF_FFFF_FFFF_FFFF

  // ---- The evaluation

  /** A verbatim Original-Recipient value and the canonical path it decodes to. */
  datatype OriginalAddress = OriginalAddress(value: octets, path: octets)

  /** The outcome of one evaluation. */
  datatype Evaluation = Evaluation(
    structure: Structure, embedded: Embedded, localHop: LocalHop, alignment: Alignment, linkage: Linkage,
    propagation: Propagation, headersOnly: bool, completion: Option<Completion>, run: LocalRun, hasRun: bool,
    status: octets, envelopeId: Option<octets>, originalRecipient: Option<OriginalAddress>, original: octets,
    initialized: bool)
  {
    predicate Valid() {
      && initialized && structure != StructureUnset
      && if structure != StructureValid
         then embedded == EmbeddedNotEvaluated && propagation == PropagationNotEvaluated
         else embedded != EmbeddedNotEvaluated
    }
  }

  const FRESH := Evaluation(
    StructureUnset, EmbeddedNotEvaluated, HopNotEvaluated, AlignmentNotEvaluated, LinkageNotEvaluated,
    PropagationNotEvaluated, false, None, NO_RUN, false, [], None, None, [], true)

  predicate EmbeddedOk(e: Embedded) {
    e == EmbeddedVerified || e == EmbeddedVerifiedHeadersOnly
  }

  /** No stage is reached before the ones ahead of it have passed. */
  predicate Staged(e: Evaluation) {
    && (e.localHop != HopNotEvaluated ==> e.structure == StructureValid && EmbeddedOk(e.embedded))
    && (e.alignment != AlignmentNotEvaluated ==> e.localHop == HopLocal)
    && (e.linkage != LinkageNotEvaluated ==> e.alignment == Aligned)
    && (e.propagation == NotApplicable ==> e.embedded == EmbeddedAbsent)
    && (e.propagation !in {NotApplicable, PropagationNotEvaluated} ==> e.linkage == Linked)
  }

  /** What eligibility promises the rebuild. */
  predicate ReadyToRebuild(e: Evaluation) {
    && e.structure == StructureValid && EmbeddedOk(e.embedded) && e.localHop == HopLocal
    && e.alignment == Aligned && e.linkage == Linked
    && e.hasRun && e.run.HasPreviousHop() && !e.run.previous.value.nextDomain && !e.run.previous.value.nullSender
    && |e.run.previous.value.recipients| == 1
  }

  function Links(recipient: StatusReport.Recipient, signed: seq<octets>): bool {
    recipient.finalPath in signed
    || (recipient.originalPath.Some? && recipient.originalPath.value in signed)
  }

  function Failed(recipient: StatusReport.Recipient): bool {
    StatusFields.EqualFold(recipient.action, "failed")
  }

  function LinkedGroups(recipients: seq<StatusReport.Recipient>, signed: seq<octets>): (r: seq<StatusReport.Recipient>)
    ensures forall g :: g in r <==> g in recipients && Links(g, signed)
  {
    if recipients == [] then []
    else
      var last := recipients[|recipients| - 1];
      assert recipients == recipients[..|recipients| - 1] + [last];
      LinkedGroups(recipients[..|recipients| - 1], signed) + if Links(last, signed) then [last] else []
  }

  /** The group facts an evaluation keeps for a rebuild: a status code, and an Original-Recipient value that decodes
      to its path. */
  predicate Recorded(o: StatusReport.Oracles, e: Evaluation) {
    && StatusFields.ValidCode(e.status)
    && (e.originalRecipient.Some? ==>
          StatusReport.OriginalPath(o, e.originalRecipient.value.value) == Some(e.originalRecipient.value.path))
  }

  predicate GroupRecorded(o: StatusReport.Oracles, g: StatusReport.Recipient) {
    && StatusFields.ValidCode(g.status)
    && (g.originalPath.Some? ==> StatusReport.OriginalPath(o, g.originalRecipient) == g.originalPath)
  }

  predicate GroupsRecorded(o: StatusReport.Oracles, report: StatusReport.Report) {
    forall i | 0 <= i < |report.recipients| :: GroupRecorded(o, report.recipients[i])
  }

  lemma FinishRecorded(o: StatusReport.Oracles, index: nat, g: StatusGroup.Group, profile: StatusGroup.Profile)
    requires StatusReport.Finish(o, index, g, profile).Some?
    ensures match StatusReport.Finish(o, index, g, profile).value
      case MessageFacts(_, _) => true
      case RecipientFacts(recipient) => GroupRecorded(o, recipient)
  {
    hide StatusFields.ValidCode, StatusReport.OriginalPath, StatusReport.FinalPath, StatusFields.TypedText;
    hide StatusReport.OptionalTyped, StatusReport.OptionalText, StatusReport.OptionalDate, StatusFields.ValidAction;
  }

  lemma {:induction false} ReportRecorded(
    o: StatusReport.Oracles, groups: seq<seq<octets>>, profile: StatusGroup.Profile)
    ensures GroupsRecorded(o, StatusReport.ReportOf(o, groups, profile))
  {
    hide GroupRecorded, StatusGroup.Run, StatusReport.Finish;
    if groups != [] {
      var init, index, lines := groups[..|groups| - 1], |groups| - 1, groups[|groups| - 1];
      ReportRecorded(o, init, profile);
      if StatusReport.GroupFacts(o, index, lines, profile).Some? {
        FinishRecorded(o, index, StatusGroup.Run(index, lines, profile).value, profile);
      }
    }
  }

  /** Every group of a parsed report is recorded. */
  lemma BodyRecorded(o: StatusReport.Oracles, body: octets, profile: StatusGroup.Profile)
    requires StatusReport.ParseBody(o, body, profile).Some?
    ensures GroupsRecorded(o, StatusReport.ParseBody(o, body, profile).value)
  {
    hide GroupsRecorded, StatusReport.ReportOf, StatusReport.Accepted, StatusReport.Grouped, StatusLines.Lines;
    hide StatusLines.Unfolded, StatusLines.LinesOk;
    ReportRecorded(o, StatusReport.Grouped(StatusLines.Lines(body)).All(), profile);
    if StatusLines.Unfolded(body).Some? {
      ReportRecorded(o, StatusReport.Grouped(StatusLines.Lines(StatusLines.Unfolded(body).value)).All(), profile);
    }
  }

  /** The parsed inputs handed from stage to stage. */
  class StageState {
    var report: Option<ReportParser.Report>
    var status: StatusReport.Report
    var original: octets
    var outer: OuterRoles
    var target: nat
    var evidence: Evidence
    var linked: seq<StatusReport.Recipient>
    var unsupported: bool

    constructor ()
      ensures !unsupported
    {
      report, original, target, linked, unsupported := None, [], 0, [], false;
      status, outer, evidence := StatusReport.Report(None, None, []), OuterRoles([], 0), Evidence([], []);
    }
  }

  /** The evaluation under construction. */
  class Record {
    var value: Evaluation

    constructor ()
      ensures value == FRESH
    {
      value := FRESH;
    }
  }

  /** A stage's verdict: go on, stop with the evaluation so far, or fail. */
  datatype Verdict = Continue | Stop | Fail(failure: Failure)

  // ---- Structure

  /** The structural facts the first stage establishes. */
  ghost predicate StructurePasses(w: World, raw: octets) {
    match ReportParser.Parse(raw, w.options)
    case Err(_) => false
    case Ok(report) =>
      && w.outerRoles(report.message).Some? && w.outerRoles(report.message).value.timestamp <= MAX_REFERENCE
      && StatusReport.ParseBody(w.status, report.status.message.body, StatusGroup.Received).Some?
      && MessageParser.Parse(report.original.message.body, MessageParser.DEFAULTS).Some?
  }

  /** A well-formed report without usable outer signature roles is a bad request. */
  ghost predicate StructureFails(w: World, raw: octets) {
    match ReportParser.Parse(raw, w.options)
    case Err(_) => false
    case Ok(report) =>
      w.outerRoles(report.message).None? || w.outerRoles(report.message).value.timestamp > MAX_REFERENCE
  }

  ghost function StructureOf(w: World, raw: octets): Structure {
    if StructurePasses(w, raw) then StructureValid
    else match ReportParser.Parse(raw, w.options)
      case Err(LimitExceeded(_)) => StructureLimitExceeded
      case _ => StructureMalformed
  }

  ghost function EmbeddedOriginal(w: World, raw: octets): octets
    requires StructurePasses(w, raw)
  {
    ReportParser.Parse(raw, w.options).value.original.message.body
  }

  ghost predicate HeadersOnly(w: World, raw: octets)
    requires StructurePasses(w, raw)
  {
    ReportParser.Parse(raw, w.options).value.original.contentType == ReportParser.RFC822_HEADERS
  }

  ghost function StatusOf(w: World, raw: octets): StatusReport.Report
    requires StructurePasses(w, raw)
  {
    StatusReport.ParseBody(w.status, ReportParser.Parse(raw, w.options).value.status.message.body, StatusGroup.Received).value
  }

  ghost function RolesOf(w: World, raw: octets): OuterRoles
    requires StructurePasses(w, raw)
  {
    w.outerRoles(ReportParser.Parse(raw, w.options).value.message).value
  }

  method EvaluateStructure(w: World, raw: octets, state: StageState, record: Record) returns (verdict: Verdict)
    requires record.value == FRESH
    modifies state, record
    ensures state.unsupported == old(state.unsupported)
    ensures verdict ==
      if StructureFails(w, raw) then Fail(InvalidRequest(StructureStage))
      else if StructurePasses(w, raw) then Continue else Stop
    ensures !verdict.Fail? ==>
      && record.value.headersOnly == (StructurePasses(w, raw) && HeadersOnly(w, raw))
      && record.value == FRESH.(structure := StructureOf(w, raw), headersOnly := record.value.headersOnly)
    ensures verdict.Continue? ==>
      && state.original == EmbeddedOriginal(w, raw) && state.status == StatusOf(w, raw)
      && state.outer == RolesOf(w, raw) && GroupsRecorded(w.status, state.status)
  {
    hide ReportParser.Parse, StatusReport.ParseBody, MessageParser.Parse, GroupsRecorded;
    var parsed := ReportParser.ParseWithOptions(raw, w.options);
    if parsed.Err? {
      var limit := parsed.error.LimitExceeded?;
      record.value := record.value.(structure := if limit then StructureLimitExceeded else StructureMalformed);
      return Stop;
    }
    var report := parsed.value;
    var roles := w.outerRoles(report.message);
    if roles.None? || roles.value.timestamp > MAX_REFERENCE {
      return Fail(InvalidRequest(StructureStage));
    }
    var status := StatusReport.ParseDeliveryStatusBody(w.status, report.status.message.body, StatusGroup.Received);
    if status.None? {
      record.value := record.value.(structure := StructureMalformed);
      return Stop;
    }
    var original := report.original.message.body;
    if MessageParser.Parse(original, MessageParser.DEFAULTS).None? {
      record.value := record.value.(structure := StructureMalformed);
      return Stop;
    }
    BodyRecorded(w.status, report.status.message.body, StatusGroup.Received);
    state.report, state.status, state.original := Some(report), status.value, original;
    state.outer := roles.value;
    record.value := record.value.(
      structure := StructureValid, headersOnly := report.original.contentType == ReportParser.RFC822_HEADERS);
    return Continue;
  }

  // ---- Embedded verification

  predicate Unsigned(original: octets) {
    match MessageParser.Parse(original, MessageParser.DEFAULTS)
    case None => true
    case Some(message) => Named(message.headers, HeaderHash.SIGNATURE_NAME) == []
  }

  /** No separator between header and body. */
  predicate HeaderFraming(original: octets) {
    Find(original, 0, MessageParser.HEADER_END).None?
  }

  /** The original can be given to the verifier at all. */
  predicate Verifiable(original: octets, headersOnly: bool) {
    !Unsigned(original) && (headersOnly ==> HeaderFraming(original))
  }

  predicate EmbeddedPasses(w: World, original: octets, headersOnly: bool, outer: OuterRoles) {
    && Verifiable(original, headersOnly) && !w.cancelled(EmbeddedStage)
    && w.verify(original, headersOnly, outer.timestamp).TargetPass? && w.extracts(original)
  }

  function EmbeddedFailure(w: World, original: octets, headersOnly: bool, outer: OuterRoles): Option<Failure> {
    if !Verifiable(original, headersOnly) then None
    else if w.cancelled(EmbeddedStage) then Some(Canceled(EmbeddedStage))
    else match w.verify(original, headersOnly, outer.timestamp)
      case ContractError => Some(Internal(EmbeddedStage))
      case TargetPass(_) => if w.extracts(original) then None else Some(Internal(EmbeddedStage))
      case _ => None
  }

  function EmbeddedOf(w: World, original: octets, headersOnly: bool, outer: OuterRoles): Embedded {
    if Unsigned(original) then EmbeddedAbsent
    else if !Verifiable(original, headersOnly) then EmbeddedUnverified
    else match w.verify(original, headersOnly, outer.timestamp)
      case TargetPass(_) => if headersOnly then EmbeddedVerifiedHeadersOnly else EmbeddedVerified
      case TargetIndeterminate => EmbeddedTemporaryError
      case _ => EmbeddedUnverified
  }

  /** The evaluation after its second stage, unless that fails. */
  function AfterEmbedded(w: World, original: octets, before: Evaluation, outer: OuterRoles): Evaluation {
    before.(
      embedded := EmbeddedOf(w, original, before.headersOnly, outer),
      propagation := if Unsigned(original) then NotApplicable else before.propagation,
      original := if EmbeddedPasses(w, original, before.headersOnly, outer) then original else before.original)
  }

  method EvaluateEmbedded(w: World, state: StageState, record: Record) returns (verdict: Verdict)
    modifies state`target, record
    ensures verdict ==
      match EmbeddedFailure(w, state.original, old(record.value).headersOnly, state.outer)
      case Some(failure) => Fail(failure)
      case None =>
        if EmbeddedPasses(w, state.original, old(record.value).headersOnly, state.outer) then Continue else Stop
    ensures !verdict.Fail? ==> record.value == AfterEmbedded(w, state.original, old(record.value), state.outer)
    ensures verdict.Continue? ==>
      state.target == w.verify(state.original, old(record.value).headersOnly, state.outer.timestamp).sequence
  {
    hide MessageParser.Parse, Find, Unsigned, HeaderFraming;
    if Unsigned(state.original) {
      record.value := record.value.(embedded := EmbeddedAbsent, propagation := NotApplicable);
      return Stop;
    }
    var headersOnly := record.value.headersOnly;
    if headersOnly && !HeaderFraming(state.original) {
      record.value := record.value.(embedded := EmbeddedUnverified);
      return Stop;
    }
    var answer := w.verify(state.original, headersOnly, state.outer.timestamp);
    if w.cancelled(EmbeddedStage) {
      return Fail(Canceled(EmbeddedStage));
    }
    match answer {
      case ContractError =>
        return Fail(Internal(EmbeddedStage));
      case VerificationError =>
        record.value := record.value.(embedded := EmbeddedUnverified);
        return Stop;
      case TargetIndeterminate =>
        record.value := record.value.(embedded := EmbeddedTemporaryError);
        return Stop;
      case TargetFail =>
        record.value := record.value.(embedded := EmbeddedUnverified);
        return Stop;
      case TargetPass(sequence) =>
        record.value := record.value.(
          embedded := if headersOnly then EmbeddedVerifiedHeadersOnly else EmbeddedVerified);
        if !w.extracts(state.original) {
          return Fail(Internal(EmbeddedStage));
        }
        state.target := sequence;
        record.value := record.value.(original := state.original);
        return Continue;
    }
  }

  // ---- The local hop

  /** The run of the completion signature could be looked at. */
  predicate RunPasses(w: World, original: octets, target: nat) {
    match w.detect(original, target)
    case Detected(run) => w.members(original, run) in {MembersVerified, MembersFailed}
    case DetectionUnsupported => true
    case _ => false
  }

  /** The completion signature is local, bound to the outer recipient, and its run could be looked at. */
  predicate HopPasses(w: World, original: octets, target: nat, recipient: octets): (passes: bool)
    ensures passes ==> w.completion(original, target).Some? && w.binds(original, target, recipient).Some?
  {
    && w.completion(original, target).Some? && w.hasAuthority
    && w.canonicalDomain(w.completion(original, target).value.domain) && !w.cancelled(LocalHopStage)
    && w.authority(w.completion(original, target).value.domain) == AuthorityLocal
    && w.binds(original, target, recipient).Some?
    && RunPasses(w, original, target)
  }

  /** A run was detected and all its members verify. */
  predicate RunVerified(w: World, original: octets, target: nat) {
    match w.detect(original, target)
    case Detected(run) => w.members(original, run) == MembersVerified
    case _ => false
  }

  /** An error of the run detection is a cancellation exactly when the context is done by then. */
  function RunFailure(w: World, original: octets, target: nat): Option<Failure> {
    match w.detect(original, target)
    case DetectionError(done) => Some(if done then Canceled(LocalHopStage) else Internal(LocalHopStage))
    case Detected(run) =>
      (match w.members(original, run)
       case MembersError(done) => Some(if done then Canceled(LocalHopStage) else Internal(LocalHopStage))
       case _ => None)
    case _ => None
  }

  function HopFailure(w: World, original: octets, target: nat, recipient: octets): (r: Option<Failure>)
    ensures r.None? ==> w.completion(original, target).Some?
  {
    match w.completion(original, target)
    case None => Some(Internal(LocalHopStage))
    case Some(completion) =>
      if !w.hasAuthority then None
      else if !w.canonicalDomain(completion.domain) then Some(Internal(LocalHopStage))
      else if w.cancelled(LocalHopStage) then Some(Canceled(LocalHopStage))
      else if w.authority(completion.domain) != AuthorityLocal || w.binds(original, target, recipient).None? then None
      else RunFailure(w, original, target)
  }

  /** The evaluation after a run that could not fail. A temporary failure of a member discards the run. */
  function AfterRun(w: World, original: octets, target: nat, before: Evaluation): Evaluation {
    match w.detect(original, target)
    case DetectionTemporary => before.(localHop := HopTemporaryError)
    case Detected(run) =>
      if w.members(original, run) == MembersTemporary
      then before.(embedded := EmbeddedTemporaryError, run := NO_RUN, hasRun := false)
      else before.(localHop := HopLocal, run := run, hasRun := true)
    case _ => before.(localHop := HopLocal)
  }

  /** The evaluation after its third stage, unless that fails. */
  function AfterHop(w: World, original: octets, target: nat, recipient: octets, before: Evaluation): (r: Evaluation)
    requires w.completion(original, target).Some?
    ensures r.completion == w.completion(original, target)
  {
    var completion := w.completion(original, target);
    var next := before.(completion := completion);
    if !w.hasAuthority then next
    else match w.authority(completion.value.domain)
      case AuthorityError => next.(localHop := HopTemporaryError)
      case AuthorityNotLocal => next.(localHop := HopNotLocal)
      case AuthorityLocal =>
        if w.binds(original, target, recipient).None? then next.(localHop := HopMismatch)
        else AfterRun(w, original, target, next)
  }

  method EvaluateLocalHop(w: World, recipient: octets, state: StageState, record: Record) returns (verdict: Verdict)
    requires !state.unsupported
    modifies state`evidence, state`unsupported, record
    ensures verdict ==
      match HopFailure(w, state.original, state.target, recipient)
      case Some(failure) => Fail(failure)
      case None => if HopPasses(w, state.original, state.target, recipient) then Continue else Stop
    ensures !verdict.Fail? ==>
      && w.completion(state.original, state.target).Some?
      && record.value == AfterHop(w, state.original, state.target, recipient, old(record.value))
    ensures verdict.Continue? ==>
      && state.evidence == w.binds(state.original, state.target, recipient).value
      && (state.unsupported <==> !RunVerified(w, state.original, state.target))
  {
    hide RunPasses, RunVerified, RunFailure, AfterRun;
    var completion := w.completion(state.original, state.target);
    if completion.None? {
      return Fail(Internal(LocalHopStage));
    }
    record.value := record.value.(completion := completion);
    if !w.hasAuthority {
      return Stop;
    }
    var domain := completion.value.domain;
    if !w.canonicalDomain(domain) {
      return Fail(Internal(LocalHopStage));
    }
    var answer := w.authority(domain);
    if w.cancelled(LocalHopStage) {
      return Fail(Canceled(LocalHopStage));
    }
    if answer == AuthorityError {
      record.value := record.value.(localHop := HopTemporaryError);
      return Stop;
    }
    if answer != AuthorityLocal {
      record.value := record.value.(localHop := HopNotLocal);
      return Stop;
    }
    var bound := w.binds(state.original, state.target, recipient);
    if bound.None? {
      record.value := record.value.(localHop := HopMismatch);
      return Stop;
    }
    state.evidence := bound.value;
    verdict := EvaluateRun(w, state, record);
  }

  method EvaluateRun(w: World, state: StageState, record: Record) returns (verdict: Verdict)
    requires !state.unsupported
    modifies state`unsupported, record
    ensures verdict ==
      match RunFailure(w, state.original, state.target)
      case Some(failure) => Fail(failure)
      case None => if RunPasses(w, state.original, state.target) then Continue else Stop
    ensures !verdict.Fail? ==> record.value == AfterRun(w, state.original, state.target, old(record.value))
    ensures verdict.Continue? ==> (state.unsupported <==> !RunVerified(w, state.original, state.target))
  {
    var detection := w.detect(state.original, state.target);
    match detection {
      case DetectionError(done) =>
        return Fail(if done then Canceled(LocalHopStage) else Internal(LocalHopStage));
      case DetectionTemporary =>
        record.value := record.value.(localHop := HopTemporaryError);
        return Stop;
      case DetectionUnsupported =>
        state.unsupported := true;
      case Detected(run) =>
        record.value := record.value.(run := run, hasRun := true);
        var members := w.members(state.original, run);
        if members.MembersError? {
          return Fail(if members.done then Canceled(LocalHopStage) else Internal(LocalHopStage));
        }
        if members == MembersTemporary {
          record.value := record.value.(embedded := EmbeddedTemporaryError, run := NO_RUN, hasRun := false);
          return Stop;
        }
        if members == MembersFailed {
          state.unsupported := true;
        }
    }
    record.value := record.value.(localHop := HopLocal);
    return Continue;
  }

  // ---- Alignment, linkage and failure class

  predicate AlignedWith(signer: octets, domains: seq<octets>) {
    exists i :: 0 <= i < |domains| && Identity.RelaxedMatch(signer, domains[i])
  }

  method EvaluateOuterAlignment(state: StageState, record: Record) returns (stop: bool)
    modifies record
    ensures stop <==> !AlignedWith(state.outer.signer, state.evidence.domains)
    ensures record.value == old(record.value).(alignment := if stop then Misaligned else Aligned)
  {
    hide Identity.RelaxedMatch;
    var i := 0;
    while i < |state.evidence.domains|
      invariant 0 <= i <= |state.evidence.domains|
      invariant forall j | 0 <= j < i :: !Identity.RelaxedMatch(state.outer.signer, state.evidence.domains[j])
      invariant record.value == old(record.value)
    {
      if Identity.RelaxedMatch(state.outer.signer, state.evidence.domains[i]) {
        record.value := record.value.(alignment := Aligned);
        return false;
      }
      i := i + 1;
    }
    record.value := record.value.(alignment := Misaligned);
    return true;
  }

  method EvaluateRecipientLinkage(state: StageState, record: Record) returns (stop: bool)
    modifies state`linked, record
    ensures state.linked == LinkedGroups(state.status.recipients, state.evidence.paths)
    ensures stop <==> state.linked == []
    ensures record.value == old(record.value).(linkage := if stop then Unlinked else Linked)
  {
    state.linked := [];
    var i := 0;
    assert state.status.recipients[..|state.status.recipients|] == state.status.recipients;
    while i < |state.status.recipients|
      invariant 0 <= i <= |state.status.recipients|
      invariant state.linked == LinkedGroups(state.status.recipients[..i], state.evidence.paths)
      invariant record.value == old(record.value)
    {
      assert state.status.recipients[..i + 1][..i] == state.status.recipients[..i];
      if Links(state.status.recipients[i], state.evidence.paths) {
        state.linked := state.linked + [state.status.recipients[i]];
      }
      i := i + 1;
    }
    if state.linked == [] {
      record.value := record.value.(linkage := Unlinked);
      return true;
    }
    record.value := record.value.(linkage := Linked);
    return false;
  }

  function AddressOf(g: StatusReport.Recipient): OriginalAddress
    requires g.originalPath.Some?
  {
    OriginalAddress(g.originalRecipient, g.originalPath.value)
  }

  /** The first failed group, in report order. */
  function FirstFailed(linked: seq<StatusReport.Recipient>): (r: Option<StatusReport.Recipient>)
    ensures r.Some? ==> r.value in linked && Failed(r.value)
    ensures r.None? <==> forall g | g in linked :: !Failed(g)
  {
    if linked == [] then None
    else if Failed(linked[0]) then Some(linked[0])
    else
      assert linked == [linked[0]] + linked[1..];
      FirstFailed(linked[1..])
  }

  /** The evaluation once a failed group is selected: its status, and what the report adds for the rebuild. */
  function Selected(before: Evaluation, g: StatusReport.Recipient, status: StatusReport.Report): Evaluation {
    before.(
      status := g.status,
      envelopeId := if status.envelopeId.Some? then status.envelopeId else before.envelopeId,
      originalRecipient := if g.originalPath.Some? then Some(AddressOf(g)) else before.originalRecipient)
  }

  method EvaluateFailureClass(state: StageState, record: Record) returns (stop: bool)
    modifies record
    ensures stop <==> FirstFailed(state.linked).None?
    ensures record.value ==
      match FirstFailed(state.linked)
      case None => old(record.value).(propagation := NotFailure)
      case Some(g) => Selected(old(record.value), g, state.status)
  {
    hide Failed;
    var i := 0;
    assert state.linked[0..] == state.linked;
    while i < |state.linked|
      invariant 0 <= i <= |state.linked|
      invariant FirstFailed(state.linked) == FirstFailed(state.linked[i..])
      invariant record.value == old(record.value)
    {
      var group := state.linked[i];
      assert state.linked[i..][1..] == state.linked[i + 1..];
      if Failed(group) {
        record.value := record.value.(status := group.status);
        if state.status.envelopeId.Some? {
          record.value := record.value.(envelopeId := state.status.envelopeId);
        }
        if group.originalPath.Some? {
          record.value := record.value.(originalRecipient := Some(AddressOf(group)));
        }
        return false;
      }
      i := i + 1;
    }
    record.value := record.value.(propagation := NotFailure);
    return true;
  }

  // ---- The previous hop

  predicate IdentityAligned(w: World, domain: octets, recipient: octets) {
    match w.envelopeDomain(recipient)
    case None => false
    case Some(recipientDomain) => domain != [] && Identity.RelaxedMatch(domain, recipientDomain)
  }

  function ClassifyPreviousHop(w: World, original: octets, unsupported: bool, run: LocalRun, domain: octets): Propagation {
    if unsupported || !run.Valid() then UnsupportedChain
    else
      match run.previous
      case None => TerminalOrigin
      case Some(hop) =>
        if hop.nextDomain then UnsupportedChain
        else if hop.nullSender then ForbiddenNullPreviousSender
        else if |hop.recipients| != 1 || !w.supported(original, hop.instance) then NotReconstructable
        else if !IdentityAligned(w, domain, hop.recipients[0]) then ForbiddenIdentityMisaligned
        else Eligible
  }

  /** What makes a previous hop eligible, said of the run alone. */
  predicate HopEligible(w: World, original: octets, run: LocalRun, domain: octets) {
    && run.HasPreviousHop() && !run.previous.value.nextDomain && !run.previous.value.nullSender
    && |run.previous.value.recipients| == 1 && w.supported(original, run.previous.value.instance)
    && IdentityAligned(w, domain, run.previous.value.recipients[0])
  }

  /** The signature the verifier examined. */
  ghost function TargetOf(w: World, raw: octets): nat
    requires StructurePasses(w, raw) && EmbeddedPasses(w, EmbeddedOriginal(w, raw), HeadersOnly(w, raw), RolesOf(w, raw))
  {
    w.verify(EmbeddedOriginal(w, raw), HeadersOnly(w, raw), RolesOf(w, raw).timestamp).sequence
  }

  /** Every condition of eligibility, in terms of the report and of the answers the evaluation was given. */
  ghost predicate AllClear(w: World, raw: octets, outerRecipient: octets) {
    && raw != [] && w.status.path(outerRecipient).Some? && !w.cancelled(Preflight) && StructurePasses(w, raw)
    && EmbeddedPasses(w, EmbeddedOriginal(w, raw), HeadersOnly(w, raw), RolesOf(w, raw))
    && var original, target, recipient := EmbeddedOriginal(w, raw), TargetOf(w, raw), w.status.path(outerRecipient).value;
    && HopPasses(w, original, target, recipient) && RunVerified(w, original, target)
    && var evidence := w.binds(original, target, recipient).value;
    && AlignedWith(RolesOf(w, raw).signer, evidence.domains)
    && (exists g :: g in StatusOf(w, raw).recipients && Links(g, evidence.paths) && Failed(g))
    && !w.cancelled(PreviousHopStage)
    && HopEligible(w, original, w.detect(original, target).run, w.completion(original, target).value.domain)
  }

  /** What an eligible evaluation carries: the original and run it examined, a canonical domain aligned with the
      previous hop's one recipient, and the recorded facts of a group of the report. */
  ghost predicate Carries(w: World, raw: octets, e: Evaluation) {
    && StructurePasses(w, raw)
    && EmbeddedPasses(w, EmbeddedOriginal(w, raw), HeadersOnly(w, raw), RolesOf(w, raw))
    && e.original == EmbeddedOriginal(w, raw) && e.headersOnly == HeadersOnly(w, raw)
    && w.detect(e.original, TargetOf(w, raw)) == Detected(e.run)
    && e.completion.Some? && e.completion == w.completion(e.original, TargetOf(w, raw))
    && w.canonicalDomain(e.completion.value.domain)
    && ReadyToRebuild(e) && Recorded(w.status, e)
    && IdentityAligned(w, e.completion.value.domain, e.run.previous.value.recipients[0])
  }

  // ---- The whole evaluation

  /** The last stages, once the local hop has passed. */
  function Concluded(w: World, before: Evaluation, original: octets, outer: OuterRoles, evidence: Evidence,
                     status: StatusReport.Report, unsupported: bool): Result<Evaluation, Failure>
    requires before.completion.Some?
  {
    if !AlignedWith(outer.signer, evidence.domains) then Ok(before.(alignment := Misaligned))
    else
      var linked := LinkedGroups(status.recipients, evidence.paths);
      if linked == [] then Ok(before.(alignment := Aligned, linkage := Unlinked))
      else
        var linkedTo := before.(alignment := Aligned, linkage := Linked);
        match FirstFailed(linked)
        case None => Ok(linkedTo.(propagation := NotFailure))
        case Some(g) =>
          if w.cancelled(PreviousHopStage) then Err(Canceled(PreviousHopStage))
          else Ok(Selected(linkedTo, g, status).(
            propagation := ClassifyPreviousHop(w, original, unsupported, before.run, before.completion.value.domain)))
  }

  /** The evaluation from the embedded stage on. */
  ghost function EvaluatedOriginal(w: World, raw: octets, recipient: octets): Result<Evaluation, Failure>
    requires StructurePasses(w, raw)
  {
    var original, outer := EmbeddedOriginal(w, raw), RolesOf(w, raw);
    var structured := FRESH.(structure := StructureValid, headersOnly := HeadersOnly(w, raw));
    match EmbeddedFailure(w, original, structured.headersOnly, outer)
    case Some(failure) => Err(failure)
    case None =>
      var embedded := AfterEmbedded(w, original, structured, outer);
      if !EmbeddedPasses(w, original, structured.headersOnly, outer) then Ok(embedded)
      else
        var target := w.verify(original, structured.headersOnly, outer.timestamp).sequence;
        match HopFailure(w, original, target, recipient)
        case Some(failure) => Err(failure)
        case None =>
          var hop := AfterHop(w, original, target, recipient, embedded);
          if !HopPasses(w, original, target, recipient) then Ok(hop)
          else Concluded(w, hop, original, outer, w.binds(original, target, recipient).value, StatusOf(w, raw),
                         !RunVerified(w, original, target))
  }

  /** The outcome of an evaluation, as a function of the report and of the answers it is given. */
  ghost function Evaluated(w: World, raw: octets, outerRecipient: octets): Result<Evaluation, Failure> {
    if raw == [] then Err(InvalidRequest(Preflight))
    else match w.status.path(outerRecipient)
      case None => Err(InvalidRequest(Preflight))
      case Some(recipient) =>
        if w.cancelled(Preflight) then Err(Canceled(Preflight))
        else if StructureFails(w, raw) then Err(InvalidRequest(StructureStage))
        else if !StructurePasses(w, raw) then Ok(FRESH.(structure := StructureOf(w, raw)))
        else EvaluatedOriginal(w, raw, recipient)
  }

  // ---- Properties of the whole evaluation

  lemma ConcludedStaged(w: World, before: Evaluation, original: octets, outer: OuterRoles, evidence: Evidence,
                        status: StatusReport.Report, unsupported: bool)
    requires before.Valid() && Staged(before) && before.localHop == HopLocal && before.completion.Some?
    requires before.propagation == PropagationNotEvaluated
    requires before.alignment == AlignmentNotEvaluated && before.linkage == LinkageNotEvaluated
    ensures var r := Concluded(w, before, original, outer, evidence, status, unsupported);
      r.Ok? ==> r.value.Valid() && Staged(r.value)
  {
    hide AlignedWith, LinkedGroups, FirstFailed, HopEligible, IdentityAligned;
  }

  lemma HopStaged(w: World, original: octets, target: nat, recipient: octets, before: Evaluation)
    requires before.Valid() && Staged(before) && EmbeddedOk(before.embedded) && before.structure == StructureValid
    requires before.localHop == HopNotEvaluated && before.propagation == PropagationNotEvaluated
    requires before.alignment == AlignmentNotEvaluated && before.linkage == LinkageNotEvaluated
    requires HopFailure(w, original, target, recipient).None?
    ensures var hop := AfterHop(w, original, target, recipient, before);
      && hop.Valid() && Staged(hop) && hop.propagation == PropagationNotEvaluated
      && hop.alignment == AlignmentNotEvaluated && hop.linkage == LinkageNotEvaluated
      && (HopPasses(w, original, target, recipient) ==> hop.localHop == HopLocal)
  {
  }

  lemma EmbeddedStaged(w: World, original: octets, before: Evaluation, outer: OuterRoles)
    requires before == FRESH.(structure := StructureValid, headersOnly := before.headersOnly)
    ensures var next := AfterEmbedded(w, original, before, outer);
      && next.Valid() && Staged(next) && next.structure == StructureValid && next.localHop == HopNotEvaluated
      && next.alignment == AlignmentNotEvaluated && next.linkage == LinkageNotEvaluated
      && next.propagation != Eligible
      && (EmbeddedPasses(w, original, before.headersOnly, outer) ==>
            EmbeddedOk(next.embedded) && next.propagation == PropagationNotEvaluated)
  {
    hide Unsigned, HeaderFraming;
  }

  /** Every evaluation returned is coherent, and no stage is reached before the ones ahead of it have passed. */
  lemma EvaluatedStaged(w: World, raw: octets, outerRecipient: octets)
    ensures var r := Evaluated(w, raw, outerRecipient); r.Ok? ==> r.value.Valid() && Staged(r.value)
  {
    hide StructurePasses, StructureFails, EmbeddedPasses, EmbeddedOriginal, StatusOf, RolesOf, HeadersOnly;
    hide EvaluatedOriginal, StructureOf;
    if StructurePasses(w, raw) && w.status.path(outerRecipient).Some? {
      OriginalStaged(w, raw, w.status.path(outerRecipient).value);
    }
    Malformed(w, raw);
  }

  lemma Malformed(w: World, raw: octets)
    ensures !StructurePasses(w, raw) ==> StructureOf(w, raw) in {StructureMalformed, StructureLimitExceeded}
  {
  }

  lemma OriginalStaged(w: World, raw: octets, recipient: octets)
    requires StructurePasses(w, raw)
    ensures var r := EvaluatedOriginal(w, raw, recipient); r.Ok? ==> r.value.Valid() && Staged(r.value)
  {
    hide StructurePasses, StructureFails, EmbeddedPasses, EmbeddedOriginal, StatusOf, RolesOf, HeadersOnly;
    hide AfterEmbedded, AfterHop, HopFailure, HopPasses, RunVerified, Concluded, EmbeddedFailure, Staged;
    var original, outer := EmbeddedOriginal(w, raw), RolesOf(w, raw);
    var structured := FRESH.(structure := StructureValid, headersOnly := HeadersOnly(w, raw));
    EmbeddedStaged(w, original, structured, outer);
    if EmbeddedPasses(w, original, structured.headersOnly, outer) {
      var embedded := AfterEmbedded(w, original, structured, outer);
      var target := TargetOf(w, raw);
      if HopFailure(w, original, target, recipient).None? {
        HopStaged(w, original, target, recipient, embedded);
        if HopPasses(w, original, target, recipient) {
          ConcludedStaged(w, AfterHop(w, original, target, recipient, embedded), original, outer,
                          w.binds(original, target, recipient).value, StatusOf(w, raw), !RunVerified(w, original, target));
        }
      }
    }
  }

  /** The evaluation concluded with group `g` as the failed one. */
  ghost predicate ConcludedWith(before: Evaluation, g: StatusReport.Recipient, status: StatusReport.Report, e: Evaluation) {
    && g in status.recipients
    && e == Selected(before.(alignment := Aligned, linkage := Linked), g, status).(propagation := Eligible)
  }

  lemma ConcludedEligible(w: World, before: Evaluation, original: octets, outer: OuterRoles, evidence: Evidence,
                          status: StatusReport.Report, unsupported: bool)
    requires before.completion.Some? && before.propagation != Eligible
    ensures var r := Concluded(w, before, original, outer, evidence, status, unsupported);
      && (r.Ok? && r.value.propagation == Eligible <==>
            && AlignedWith(outer.signer, evidence.domains)
            && (exists g :: g in status.recipients && Links(g, evidence.paths) && Failed(g))
            && !w.cancelled(PreviousHopStage) && !unsupported
            && HopEligible(w, original, before.run, before.completion.value.domain))
      && (r.Ok? && r.value.propagation == Eligible ==> exists g :: ConcludedWith(before, g, status, r.value))
  {
    hide AlignedWith, Links, Failed, IdentityAligned;
    var linked := LinkedGroups(status.recipients, evidence.paths);
    if linked != [] && FirstFailed(linked).Some? {
      var g := FirstFailed(linked).value;
      assert g in status.recipients && Links(g, evidence.paths) && Failed(g);
      var r := Concluded(w, before, original, outer, evidence, status, unsupported);
      if r.Ok? && r.value.propagation == Eligible {
        assert ConcludedWith(before, g, status, r.value);
      }
    } else {
      forall g | g in status.recipients && Links(g, evidence.paths) ensures !Failed(g) {
        assert g in linked;
      }
    }
  }

  /** A hop that passes with a verified run has recorded that run. */
  lemma HopPassed(w: World, original: octets, target: nat, recipient: octets, before: Evaluation)
    requires HopPasses(w, original, target, recipient) && RunVerified(w, original, target)
    ensures HopFailure(w, original, target, recipient).None?
    ensures AfterHop(w, original, target, recipient, before) == before.(
      completion := w.completion(original, target), localHop := HopLocal, run := w.detect(original, target).run, hasRun := true)
  {
  }

  lemma HopNotEligible(w: World, original: octets, target: nat, recipient: octets, before: Evaluation)
    requires HopFailure(w, original, target, recipient).None?
    ensures AfterHop(w, original, target, recipient, before).propagation == before.propagation
  {
  }

  lemma PassingCannotFail(w: World, original: octets, before: Evaluation, outer: OuterRoles)
    requires EmbeddedPasses(w, original, before.headersOnly, outer)
    ensures EmbeddedFailure(w, original, before.headersOnly, outer).None?
    ensures AfterEmbedded(w, original, before, outer) == before.(
      embedded := if before.headersOnly then EmbeddedVerifiedHeadersOnly else EmbeddedVerified, original := original)
  {
    hide Unsigned, HeaderFraming;
  }

  /** The evaluation that reached the end of its third stage. */
  ghost function HopReached(w: World, raw: octets, recipient: octets): Evaluation
    requires StructurePasses(w, raw) && EmbeddedPasses(w, EmbeddedOriginal(w, raw), HeadersOnly(w, raw), RolesOf(w, raw))
    requires HopPasses(w, EmbeddedOriginal(w, raw), TargetOf(w, raw), recipient)
  {
    var original := EmbeddedOriginal(w, raw);
    AfterHop(w, original, TargetOf(w, raw), recipient, AfterEmbedded(
      w, original, FRESH.(structure := StructureValid, headersOnly := HeadersOnly(w, raw)), RolesOf(w, raw)))
  }

  lemma OriginalEligible(w: World, raw: octets, recipient: octets)
    requires StructurePasses(w, raw)
    ensures var r := EvaluatedOriginal(w, raw, recipient);
      r.Ok? && r.value.propagation == Eligible <==>
        && EmbeddedPasses(w, EmbeddedOriginal(w, raw), HeadersOnly(w, raw), RolesOf(w, raw))
        && var original, target := EmbeddedOriginal(w, raw), TargetOf(w, raw);
        && HopPasses(w, original, target, recipient) && RunVerified(w, original, target)
        && var evidence := w.binds(original, target, recipient).value;
        && AlignedWith(RolesOf(w, raw).signer, evidence.domains)
        && (exists g :: g in StatusOf(w, raw).recipients && Links(g, evidence.paths) && Failed(g))
        && !w.cancelled(PreviousHopStage)
        && HopEligible(w, original, w.detect(original, target).run, w.completion(original, target).value.domain)
    ensures var r := EvaluatedOriginal(w, raw, recipient);
      r.Ok? && r.value.propagation == Eligible ==>
        exists g :: ConcludedWith(HopReached(w, raw, recipient), g, StatusOf(w, raw), r.value)
  {
    hide StructurePasses, StructureFails, EmbeddedPasses, EmbeddedOriginal, StatusOf, RolesOf, HeadersOnly;
    hide AfterEmbedded, AfterHop, HopFailure, HopPasses, RunVerified, Concluded, EmbeddedFailure, Staged;
    hide Links, Failed, AlignedWith, HopEligible, ConcludedWith;
    var original, outer := EmbeddedOriginal(w, raw), RolesOf(w, raw);
    var structured := FRESH.(structure := StructureValid, headersOnly := HeadersOnly(w, raw));
    EmbeddedStaged(w, original, structured, outer);
    if EmbeddedPasses(w, original, structured.headersOnly, outer) {
      PassingCannotFail(w, original, structured, outer);
      var embedded := AfterEmbedded(w, original, structured, outer);
      var target := TargetOf(w, raw);
      if HopPasses(w, original, target, recipient) && RunVerified(w, original, target) {
        HopPassed(w, original, target, recipient, embedded);
      }
      if HopFailure(w, original, target, recipient).None? {
        HopNotEligible(w, original, target, recipient, embedded);
        if HopPasses(w, original, target, recipient) {
          assert HopReached(w, raw, recipient) == AfterHop(w, original, target, recipient, embedded);
          ConcludedEligible(w, AfterHop(w, original, target, recipient, embedded), original, outer,
                            w.binds(original, target, recipient).value, StatusOf(w, raw), !RunVerified(w, original, target));
        }
      }
    }
  }

  /** An evaluation is eligible if and only if every condition holds. */
  lemma EligibleIff(w: World, raw: octets, outerRecipient: octets)
    ensures var r := Evaluated(w, raw, outerRecipient);
      r.Ok? && r.value.propagation == Eligible <==> AllClear(w, raw, outerRecipient)
  {
    hide StructurePasses, StructureFails, EmbeddedPasses, EmbeddedOriginal, StatusOf, RolesOf, HeadersOnly;
    hide HopPasses, RunVerified, Links, Failed, AlignedWith, HopEligible, EvaluatedOriginal, TargetOf, StructureOf;
    PassesAndFails(w, raw);
    if StructurePasses(w, raw) && w.status.path(outerRecipient).Some? {
      OriginalEligible(w, raw, w.status.path(outerRecipient).value);
    }
  }

  lemma PassesAndFails(w: World, raw: octets)
    ensures !(StructurePasses(w, raw) && StructureFails(w, raw))
  {
    hide MessageParser.Parse, ReportParser.Parse, StatusReport.ParseBody;
  }

  lemma StatusRecorded(w: World, raw: octets)
    requires StructurePasses(w, raw)
    ensures GroupsRecorded(w.status, StatusOf(w, raw))
  {
    hide MessageParser.Parse, ReportParser.Parse, StatusReport.ParseBody, GroupsRecorded;
    BodyRecorded(w.status, ReportParser.Parse(raw, w.options).value.status.message.body, StatusGroup.Received);
  }

  lemma SelectedRecorded(o: StatusReport.Oracles, before: Evaluation, g: StatusReport.Recipient,
                         status: StatusReport.Report, e: Evaluation)
    requires GroupsRecorded(o, status) && ConcludedWith(before, g, status, e) && before.originalRecipient.None?
    ensures Recorded(o, e)
  {
    hide StatusFields.ValidCode, StatusReport.OriginalPath;
    var j :| 0 <= j < |status.recipients| && status.recipients[j] == g;
    assert GroupRecorded(o, status.recipients[j]);
  }

  lemma EligibleRun(w: World, original: octets, run: LocalRun, domain: octets)
    requires HopEligible(w, original, run, domain)
    ensures run.HasPreviousHop() && !run.previous.value.nextDomain && !run.previous.value.nullSender
    ensures |run.previous.value.recipients| == 1 && IdentityAligned(w, domain, run.previous.value.recipients[0])
  {
  }

  lemma PassingHop(w: World, original: octets, target: nat, recipient: octets)
    requires HopPasses(w, original, target, recipient) && RunVerified(w, original, target)
    ensures w.completion(original, target).Some? && w.canonicalDomain(w.completion(original, target).value.domain)
    ensures w.detect(original, target).Detected?
  {
  }

  /** What the rebuild may rely on after an eligible evaluation. */
  lemma EligibleCarries(w: World, raw: octets, outerRecipient: octets)
    requires AllClear(w, raw, outerRecipient)
    ensures Evaluated(w, raw, outerRecipient).Ok? && Carries(w, raw, Evaluated(w, raw, outerRecipient).value)
  {
    hide StructurePasses, StructureFails, EmbeddedPasses, EmbeddedOriginal, StatusOf, RolesOf, HeadersOnly, TargetOf;
    hide HopPasses, RunVerified, Links, Failed, AlignedWith, HopEligible, EvaluatedOriginal, Recorded, GroupsRecorded;
    hide AfterEmbedded, AfterHop, IdentityAligned, LocalRun.HasPreviousHop, StructureOf, Staged;
    PassesAndFails(w, raw);
    var recipient := w.status.path(outerRecipient).value;
    var original, target, outer := EmbeddedOriginal(w, raw), TargetOf(w, raw), RolesOf(w, raw);
    var structured := FRESH.(structure := StructureValid, headersOnly := HeadersOnly(w, raw));
    OriginalEligible(w, raw, recipient);
    var e := EvaluatedOriginal(w, raw, recipient).value;
    var g :| ConcludedWith(HopReached(w, raw, recipient), g, StatusOf(w, raw), e);
    PassingCannotFail(w, original, structured, outer);
    HopPassed(w, original, target, recipient, AfterEmbedded(w, original, structured, outer));
    PassingHop(w, original, target, recipient);
    EligibleRun(w, original, w.detect(original, target).run, w.completion(original, target).value.domain);
    StatusRecorded(w, raw);
    SelectedRecorded(w.status, HopReached(w, raw, recipient), g, StatusOf(w, raw), e);
  }

  /** Runs the stages in order and stops at the first that does not pass. */
  method Evaluate(w: World, raw: octets, outerRecipient: octets) returns (r: Result<Evaluation, Failure>)
    ensures r == Evaluated(w, raw, outerRecipient)
    ensures r.Ok? ==> r.value.Valid() && Staged(r.value)
    ensures r.Ok? && r.value.propagation == Eligible <==> AllClear(w, raw, outerRecipient)
  {
    hide Evaluated, AllClear, Staged;
    r := RunStages(w, raw, outerRecipient);
    EvaluatedStaged(w, raw, outerRecipient);
    EligibleIff(w, raw, outerRecipient);
  }

  method RunStages(w: World, raw: octets, outerRecipient: octets) returns (r: Result<Evaluation, Failure>)
    ensures r == Evaluated(w, raw, outerRecipient)
  {
    hide StructurePasses, StructureFails, EmbeddedPasses, Unsigned, Links, Failed, Identity.RelaxedMatch;
    hide EmbeddedOriginal, StatusOf, RolesOf, HeadersOnly, GroupsRecorded, AlignedWith, EmbeddedFailure;
    hide AfterEmbedded, AfterHop, HopFailure, HopPasses, RunVerified, Concluded;
    if raw == [] {
      return Err(InvalidRequest(Preflight));
    }
    var recipient := w.status.path(outerRecipient);
    if recipient.None? {
      return Err(InvalidRequest(Preflight));
    }
    if w.cancelled(Preflight) {
      return Err(Canceled(Preflight));
    }
    var record := new Record();
    var state := new StageState();
    var verdict := EvaluateStructure(w, raw, state, record);
    if verdict.Fail? {
      return Err(verdict.failure);
    }
    if verdict.Stop? {
      return Ok(record.value);
    }
    verdict := EvaluateEmbedded(w, state, record);
    if verdict.Fail? {
      return Err(verdict.failure);
    }
    if verdict.Stop? {
      return Ok(record.value);
    }
    verdict := EvaluateLocalHop(w, recipient.value, state, record);
    if verdict.Fail? {
      return Err(verdict.failure);
    }
    if verdict.Stop? {
      return Ok(record.value);
    }
    r := EvaluateReport(w, state, record);
  }

  method EvaluateReport(w: World, state: StageState, record: Record) returns (r: Result<Evaluation, Failure>)
    requires record.value.completion.Some?
    modifies state, record
    ensures r == Concluded(w, old(record.value), old(state.original), old(state.outer), old(state.evidence),
                           old(state.status), old(state.unsupported))
  {
    hide Links, Failed, AlignedWith, ClassifyPreviousHop;
    var stop := EvaluateOuterAlignment(state, record);
    if stop {
      return Ok(record.value);
    }
    stop := EvaluateRecipientLinkage(state, record);
    if stop {
      return Ok(record.value);
    }
    stop := EvaluateFailureClass(state, record);
    if stop {
      return Ok(record.value);
    }
    if w.cancelled(PreviousHopStage) {
      return Err(Canceled(PreviousHopStage));
    }
    record.value := record.value.(propagation := ClassifyPreviousHop(
      w, state.original, state.unsupported, record.value.run, record.value.completion.value.domain));
    return Ok(record.value);
  }

  // ---- The rebuild's preconditions

  datatype RebuildStart =
    | StartInternal
    | StartNullPreviousSender
    | StartAmbiguousRecipient
    | StartSourceRoute
    | Started(previousSequence: nat, previousInstance: nat, nextHop: octets, recipient: octets)

  /** The rebuild's own checks of the previous hop, before any descent. */
  function NewRebuildState(validPath: octets -> bool, run: LocalRun): RebuildStart {
    if !run.Valid() || run.previous.None? || run.previous.value.nextDomain then StartInternal
    else
      var hop := run.previous.value;
      if hop.nullSender then StartNullPreviousSender
      else if |hop.recipients| != 1 then StartAmbiguousRecipient
      else if !validPath(hop.mailFrom) || !validPath(hop.recipients[0]) then StartInternal
      else if SourceRouted(hop.mailFrom) || SourceRouted(hop.recipients[0]) then StartSourceRoute
      else Started(hop.sequence, hop.instance, hop.mailFrom, hop.recipients[0])
  }

  /** From an eligible evaluation the rebuild can only start or refuse its two paths: the missing-hop, next-domain,
      null-sender and multi-recipient exits cannot be taken, and a started rebuild aims below the run. */
  lemma RebuildStarts(w: World, raw: octets, outerRecipient: octets, validPath: octets -> bool, e: Evaluation)
    requires Evaluated(w, raw, outerRecipient) == Ok(e) && e.propagation == Eligible
    ensures e.run.previous.Some?
    ensures var hop, start := e.run.previous.value, NewRebuildState(validPath, e.run);
      && start != StartNullPreviousSender && start != StartAmbiguousRecipient && |hop.recipients| == 1
      && (start == StartInternal <==> !validPath(hop.mailFrom) || !validPath(hop.recipients[0]))
      && (start == StartSourceRoute <==>
            && validPath(hop.mailFrom) && validPath(hop.recipients[0])
            && (SourceRouted(hop.mailFrom) || SourceRouted(hop.recipients[0])))
      && (start.Started? ==>
            && start.previousSequence == e.run.lowest - 1 && 1 <= start.previousSequence < e.run.completion
            && start.nextHop == hop.mailFrom && hop.recipients == [start.recipient])
  {
    hide AllClear, Evaluated, StructurePasses, EmbeddedPasses, Recorded, IdentityAligned, SourceRouted;
    EligibleIff(w, raw, outerRecipient);
    EligibleCarries(w, raw, outerRecipient);
  }
}
