/** Which reports and which answers give each outcome of a received-report evaluation. */
module Outcomes {
  import opened Octets
  import HeaderHash
  import Identity
  import MessageParser
  import opened RawMessage
  import ReportParser
  import opened Received
  import StatusFields
  import StatusGroup
  import StatusReport

  // ---- How far an evaluation gets

  /** The completion signature is local and bound to the recipient, and a member of its run fails temporarily. */
  predicate MemberTemporary(w: World, original: octets, target: nat, recipient: octets) {
    match w.completion(original, target)
    case None => false
    case Some(c) =>
      && w.hasAuthority && w.authority(c.domain) == AuthorityLocal && w.binds(original, target, recipient).Some?
      && match w.detect(original, target)
         case Detected(run) => w.members(original, run) == MembersTemporary
         case _ => false
  }

  lemma HopKeeps(w: World, original: octets, target: nat, recipient: octets, before: Evaluation)
    requires w.completion(original, target).Some?
    ensures var hop := AfterHop(w, original, target, recipient, before);
      && hop.structure == before.structure
      && hop.embedded == if MemberTemporary(w, original, target, recipient) then EmbeddedTemporaryError else before.embedded
  {
  }

  /** The evaluation after its second stage. */
  function Before(w: World, original: octets, headersOnly: bool, outer: OuterRoles): Evaluation {
    AfterEmbedded(w, original, FRESH.(structure := StructureValid, headersOnly := headersOnly), outer)
  }

  /** The last stages change none of what the first three found. */
  predicate SameSoFar(e: Evaluation, hop: Evaluation) {
    && e.structure == hop.structure && e.embedded == hop.embedded && e.localHop == hop.localHop
    && e.completion == hop.completion && e.run == hop.run && e.hasRun == hop.hasRun
  }

  ghost predicate Reaches(w: World, original: octets, headersOnly: bool, outer: OuterRoles, recipient: octets, e: Evaluation) {
    && EmbeddedFailure(w, original, headersOnly, outer).None?
    && if !EmbeddedPasses(w, original, headersOnly, outer) then e == Before(w, original, headersOnly, outer)
       else
         var target := w.verify(original, headersOnly, outer.timestamp).sequence;
         && HopFailure(w, original, target, recipient).None?
         && SameSoFar(e, AfterHop(w, original, target, recipient, Before(w, original, headersOnly, outer)))
  }

  lemma ConcludedKeeps(w: World, before: Evaluation, original: octets, outer: OuterRoles, evidence: Evidence,
                       status: StatusReport.Report, unsupported: bool)
    requires before.completion.Some?
    ensures var r := Concluded(w, before, original, outer, evidence, status, unsupported);
      r.Ok? ==> SameSoFar(r.value, before)
  {
    hide AlignedWith, LinkedGroups, FirstFailed, ClassifyPreviousHop;
  }

  lemma Reached(w: World, raw: octets, recipient: octets, e: Evaluation)
    requires StructurePasses(w, raw) && EvaluatedOriginal(w, raw, recipient) == Ok(e)
    ensures Reaches(w, EmbeddedOriginal(w, raw), HeadersOnly(w, raw), RolesOf(w, raw), recipient, e)
  {
    hide StructurePasses, EmbeddedOriginal, StatusOf, RolesOf, HeadersOnly, EmbeddedPasses, EmbeddedFailure;
    hide AfterEmbedded, AfterHop, HopFailure, HopPasses, Concluded, RunVerified;
    var original, headersOnly, outer := EmbeddedOriginal(w, raw), HeadersOnly(w, raw), RolesOf(w, raw);
    if EmbeddedPasses(w, original, headersOnly, outer) {
      var target := TargetOf(w, raw);
      var hop := AfterHop(w, original, target, recipient, Before(w, original, headersOnly, outer));
      if HopPasses(w, original, target, recipient) {
        ConcludedKeeps(w, hop, original, outer, w.binds(original, target, recipient).value, StatusOf(w, raw),
                       !RunVerified(w, original, target));
      }
    }
  }

  lemma Continued(w: World, raw: octets, outerRecipient: octets, e: Evaluation)
    requires Evaluated(w, raw, outerRecipient) == Ok(e)
    ensures w.status.path(outerRecipient).Some?
    ensures if StructurePasses(w, raw) then EvaluatedOriginal(w, raw, w.status.path(outerRecipient).value) == Ok(e)
      else e.completion.None? && e.localHop == HopNotEvaluated && e.propagation == PropagationNotEvaluated
  {
    hide StructurePasses, StructureFails, EvaluatedOriginal, StructureOf;
    PassesAndFails(w, raw);
  }

  // ---- The structure

  lemma ValidStructure(w: World, raw: octets, recipient: octets)
    requires StructurePasses(w, raw)
    ensures var r := EvaluatedOriginal(w, raw, recipient); r.Ok? ==> r.value.structure == StructureValid
  {
    hide StructurePasses, EvaluatedOriginal, AfterHop, HopFailure, EmbeddedFailure, EmbeddedPasses, EmbeddedOf;
    hide EmbeddedOriginal, HeadersOnly, RolesOf;
    var r := EvaluatedOriginal(w, raw, recipient);
    if r.Ok? {
      Reached(w, raw, recipient, r.value);
      if EmbeddedPasses(w, EmbeddedOriginal(w, raw), HeadersOnly(w, raw), RolesOf(w, raw)) {
        HopKeeps(w, EmbeddedOriginal(w, raw), TargetOf(w, raw), recipient,
                 Before(w, EmbeddedOriginal(w, raw), HeadersOnly(w, raw), RolesOf(w, raw)));
      }
    }
  }

  /** The first stage tells a limit from any other refusal by the report parser's error alone; a well-formed report is
      malformed evidence exactly when its status part or its original does not parse. */
  lemma StructureOutcome(w: World, raw: octets, outerRecipient: octets, e: Evaluation)
    requires Evaluated(w, raw, outerRecipient) == Ok(e)
    ensures var parsed := ReportParser.Parse(raw, w.options);
      && (e.structure == StructureLimitExceeded <==> parsed.Err? && parsed.error.LimitExceeded?)
      && (e.structure == StructureMalformed <==>
            if parsed.Err? then !parsed.error.LimitExceeded?
            else
              || StatusReport.ParseBody(w.status, parsed.value.status.message.body, StatusGroup.Received).None?
              || MessageParser.Parse(parsed.value.original.message.body, MessageParser.DEFAULTS).None?)
      && e.structure != StructureUnset
  {
    hide ReportParser.Parse, StatusReport.ParseBody, MessageParser.Parse, EvaluatedOriginal;
    if StructurePasses(w, raw) {
      ValidStructure(w, raw, w.status.path(outerRecipient).value);
    }
  }

  // ---- The embedded original

  /** The original holds a signature field. */
  ghost predicate Signed(original: octets) {
    match MessageParser.Parse(original, MessageParser.DEFAULTS)
    case None => false
    case Some(message) => exists f :: f in message.headers && f.Name() == HeaderHash.SIGNATURE_NAME
  }

  lemma SignedIff(original: octets)
    ensures Unsigned(original) <==> !Signed(original)
  {
    hide MessageParser.Parse, Lower;
    var parsed := MessageParser.Parse(original, MessageParser.DEFAULTS);
    if parsed.Some? {
      var headers := parsed.value.headers;
      if Named(headers, HeaderHash.SIGNATURE_NAME) != [] {
        var f := Named(headers, HeaderHash.SIGNATURE_NAME)[0];
        assert f in headers && f.Name() == HeaderHash.SIGNATURE_NAME;
      }
    }
  }

  /** A headers-only original with a separator before a body. */
  ghost predicate Invents(original: octets, headersOnly: bool) {
    headersOnly && exists i: nat :: OccursAt(original, i, MessageParser.HEADER_END)
  }

  lemma InventsIff(original: octets, headersOnly: bool)
    ensures Invents(original, headersOnly) <==> headersOnly && !HeaderFraming(original)
  {
    hide OccursAt;
  }

  ghost predicate EmbeddedAnswered(w: World, original: octets, headersOnly: bool, answer: Verification, recipient: octets,
                                   e: Evaluation) {
    && (e.embedded == EmbeddedAbsent <==> !Signed(original))
    && (e.embedded == EmbeddedUnverified <==>
          Signed(original) && (Invents(original, headersOnly) || answer.VerificationError? || answer.TargetFail?))
    && (e.embedded == EmbeddedTemporaryError <==>
          && Signed(original) && !Invents(original, headersOnly)
          && (answer.TargetIndeterminate?
              || (answer.TargetPass? && MemberTemporary(w, original, answer.sequence, recipient))))
    && (e.embedded == EmbeddedVerifiedHeadersOnly <==>
          && Signed(original) && !Invents(original, headersOnly) && headersOnly
          && answer.TargetPass? && !MemberTemporary(w, original, answer.sequence, recipient))
    && (e.embedded == EmbeddedVerified <==>
          && Signed(original) && !headersOnly
          && answer.TargetPass? && !MemberTemporary(w, original, answer.sequence, recipient))
  }

  lemma ReachedEmbedded(w: World, original: octets, headersOnly: bool, outer: OuterRoles, recipient: octets, e: Evaluation)
    requires Reaches(w, original, headersOnly, outer, recipient, e)
    ensures EmbeddedAnswered(w, original, headersOnly, w.verify(original, headersOnly, outer.timestamp), recipient, e)
  {
    hide AfterHop, HopFailure, MemberTemporary, Unsigned, Signed, HeaderFraming, Invents;
    SignedIff(original);
    InventsIff(original, headersOnly);
    if EmbeddedPasses(w, original, headersOnly, outer) {
      var target := w.verify(original, headersOnly, outer.timestamp).sequence;
      HopKeeps(w, original, target, recipient, Before(w, original, headersOnly, outer));
    }
  }

  /** Which answer of the verifier gives each outcome of the second stage. A target that passes can still end in a
      temporary error, by a member of its run. */
  lemma EmbeddedOutcome(w: World, raw: octets, outerRecipient: octets, e: Evaluation)
    requires Evaluated(w, raw, outerRecipient) == Ok(e) && StructurePasses(w, raw)
    ensures w.status.path(outerRecipient).Some?
    ensures var original, headersOnly := EmbeddedOriginal(w, raw), HeadersOnly(w, raw);
      EmbeddedAnswered(w, original, headersOnly, w.verify(original, headersOnly, RolesOf(w, raw).timestamp),
                       w.status.path(outerRecipient).value, e)
  {
    hide StructurePasses, EmbeddedOriginal, RolesOf, HeadersOnly, Evaluated, EvaluatedOriginal, Reaches, EmbeddedAnswered;
    Continued(w, raw, outerRecipient, e);
    var recipient := w.status.path(outerRecipient).value;
    Reached(w, raw, recipient, e);
    ReachedEmbedded(w, EmbeddedOriginal(w, raw), HeadersOnly(w, raw), RolesOf(w, raw), recipient, e);
  }

  // ---- The local hop

  ghost predicate HopAnswered(w: World, original: octets, target: nat, recipient: octets, e: Evaluation)
    requires e.completion.Some?
  {
    var authority, bound := w.authority(e.completion.value.domain), w.binds(original, target, recipient).Some?;
    var detection := w.detect(original, target);
    && e.completion == w.completion(original, target)
    && (e.localHop == HopNotLocal <==> w.hasAuthority && authority == AuthorityNotLocal)
    && (e.localHop == HopMismatch <==> w.hasAuthority && authority == AuthorityLocal && !bound)
    && (e.localHop == HopTemporaryError <==>
          && w.hasAuthority
          && (authority == AuthorityError || (authority == AuthorityLocal && bound && detection.DetectionTemporary?)))
    && (e.localHop == HopLocal <==>
          && w.hasAuthority && authority == AuthorityLocal && bound
          && (detection.DetectionUnsupported?
              || (detection.Detected? && w.members(original, detection.run) in {MembersVerified, MembersFailed})))
    && (e.localHop == HopNotEvaluated <==> !w.hasAuthority || MemberTemporary(w, original, target, recipient))
    && (e.hasRun <==> e.localHop == HopLocal && detection.Detected?)
    && e.run == (if e.hasRun then detection.run else NO_RUN)
  }

  lemma AfterHopAnswered(w: World, original: octets, target: nat, recipient: octets, before: Evaluation)
    requires HopFailure(w, original, target, recipient).None?
    requires before.localHop == HopNotEvaluated && before.run == NO_RUN && !before.hasRun
    ensures HopAnswered(w, original, target, recipient, AfterHop(w, original, target, recipient, before))
  {
  }

  /** Which answers give each outcome of the third stage, which an evaluation reaches when it has a completion. */
  lemma HopOutcome(w: World, raw: octets, outerRecipient: octets, e: Evaluation)
    requires Evaluated(w, raw, outerRecipient) == Ok(e) && e.completion.Some?
    ensures w.status.path(outerRecipient).Some? && StructurePasses(w, raw)
    ensures var original, recipient := EmbeddedOriginal(w, raw), w.status.path(outerRecipient).value;
      var answer := w.verify(original, HeadersOnly(w, raw), RolesOf(w, raw).timestamp);
      answer.TargetPass? && HopAnswered(w, original, answer.sequence, recipient, e)
  {
    hide StructurePasses, EmbeddedOriginal, RolesOf, HeadersOnly, Evaluated, EvaluatedOriginal;
    hide AfterHop, HopFailure, EmbeddedFailure, Verifiable, EmbeddedOf, MemberTemporary, Unsigned;
    Continued(w, raw, outerRecipient, e);
    var original, recipient := EmbeddedOriginal(w, raw), w.status.path(outerRecipient).value;
    Reached(w, raw, recipient, e);
    var target := TargetOf(w, raw);
    AfterHopAnswered(w, original, target, recipient, Before(w, original, HeadersOnly(w, raw), RolesOf(w, raw)));
  }

  // ---- Alignment, linkage and failure class

  /** A group names a path by its final or its original recipient. */
  predicate Names(g: StatusReport.Recipient, path: octets) {
    g.finalPath == path || g.originalPath == Some(path)
  }

  /** A group names one of the paths the completion signature forwarded to. */
  ghost predicate NamesOne(g: StatusReport.Recipient, evidence: Evidence) {
    exists path :: path in evidence.paths && Names(g, path)
  }

  lemma LinksIff(g: StatusReport.Recipient, evidence: Evidence)
    ensures Links(g, evidence.paths) <==> NamesOne(g, evidence)
  {
    if g.finalPath in evidence.paths {
      assert Names(g, g.finalPath);
    }
    if g.originalPath.Some? && g.originalPath.value in evidence.paths {
      assert Names(g, g.originalPath.value);
    }
  }

  /** The outer signer matches a domain that the completion signature forwarded to. */
  ghost predicate MatchesOne(signer: octets, evidence: Evidence) {
    exists d :: d in evidence.domains && Identity.RelaxedMatch(signer, d)
  }

  ghost predicate Related(evidence: Evidence, signer: octets, recipients: seq<StatusReport.Recipient>, e: Evaluation) {
    && (e.alignment == Aligned <==> MatchesOne(signer, evidence))
    && (e.alignment == Misaligned <==> !MatchesOne(signer, evidence))
    && (e.linkage == Linked <==> e.alignment == Aligned && exists g :: g in recipients && NamesOne(g, evidence))
    && (e.linkage == Unlinked <==> e.alignment == Aligned && forall g | g in recipients :: !NamesOne(g, evidence))
    && (e.propagation == NotFailure <==>
          e.linkage == Linked && forall g | g in recipients && NamesOne(g, evidence) :: !Failed(g))
  }

  /** The first failed group that names one of the paths. */
  ghost predicate FirstFailure(evidence: Evidence, recipients: seq<StatusReport.Recipient>, i: nat) {
    && i < |recipients| && NamesOne(recipients[i], evidence) && Failed(recipients[i])
    && forall j | 0 <= j < i :: !(NamesOne(recipients[j], evidence) && Failed(recipients[j]))
  }

  /** The facts of the first failed group, kept for a rebuild. */
  ghost predicate Selects(evidence: Evidence, status: StatusReport.Report, e: Evaluation) {
    exists i: nat :: FirstFailure(evidence, status.recipients, i) && Kept(status, status.recipients[i], e)
  }

  predicate Kept(status: StatusReport.Report, g: StatusReport.Recipient, e: Evaluation) {
    && e.status == g.status && e.envelopeId == status.envelopeId
    && match g.originalPath
       case None => e.originalRecipient.None?
       case Some(path) => e.originalRecipient == Some(OriginalAddress(g.originalRecipient, path))
  }

  lemma AlignedIff(signer: octets, evidence: Evidence)
    ensures AlignedWith(signer, evidence.domains) <==> MatchesOne(signer, evidence)
  {
    hide Identity.RelaxedMatch;
    if AlignedWith(signer, evidence.domains) {
      var i :| 0 <= i < |evidence.domains| && Identity.RelaxedMatch(signer, evidence.domains[i]);
      assert evidence.domains[i] in evidence.domains;
    }
  }

  lemma LinkedSnoc(recipients: seq<StatusReport.Recipient>, evidence: Evidence)
    requires recipients != []
    ensures var last := recipients[|recipients| - 1];
      LinkedGroups(recipients, evidence.paths)
        == LinkedGroups(recipients[..|recipients| - 1], evidence.paths) + if NamesOne(last, evidence) then [last] else []
  {
    hide Links, NamesOne;
    LinksIff(recipients[|recipients| - 1], evidence);
  }

  lemma FirstOfOne(g: StatusReport.Recipient)
    ensures FirstFailed([g]) == (if Failed(g) then Some(g) else None) && FirstFailed([]) == None
  {
    hide Failed;
    assert [g][1..] == [];
  }

  lemma {:induction false} FirstSelected(recipients: seq<StatusReport.Recipient>, evidence: Evidence) returns (i: nat)
    requires FirstFailed(LinkedGroups(recipients, evidence.paths)).Some?
    ensures i < |recipients| && FirstFailure(evidence, recipients, i)
    ensures recipients[i] == FirstFailed(LinkedGroups(recipients, evidence.paths)).value
  {
    hide Links, Failed, NamesOne, LinkedGroups, FirstFailed;
    if recipients == [] {
      NothingLinked(evidence);
    }
    var init, last := recipients[..|recipients| - 1], recipients[|recipients| - 1];
    var before := LinkedGroups(init, evidence.paths);
    LinkedSnoc(recipients, evidence);
    FirstFailedConcat(before, if NamesOne(last, evidence) then [last] else []);
    FirstOfOne(last);
    if FirstFailed(before).Some? {
      i := FirstSelected(init, evidence);
    } else {
      i := |init|;
      NoneFailed(init, evidence);
      assert forall j | 0 <= j < i :: recipients[j] == init[j];
    }
  }

  lemma NothingLinked(evidence: Evidence)
    ensures FirstFailed(LinkedGroups([], evidence.paths)).None?
  {
  }

  lemma NoneFailed(recipients: seq<StatusReport.Recipient>, evidence: Evidence)
    requires FirstFailed(LinkedGroups(recipients, evidence.paths)).None?
    ensures forall j | 0 <= j < |recipients| :: !(NamesOne(recipients[j], evidence) && Failed(recipients[j]))
  {
    hide Links, Failed, NamesOne, LinkedGroups, FirstFailed;
    forall j | 0 <= j < |recipients| ensures !(NamesOne(recipients[j], evidence) && Failed(recipients[j])) {
      LinksIff(recipients[j], evidence);
      assert recipients[j] in recipients;
    }
  }

  lemma {:induction false} FirstFailedConcat(a: seq<StatusReport.Recipient>, b: seq<StatusReport.Recipient>)
    ensures FirstFailed(a + b) == if FirstFailed(a).Some? then FirstFailed(a) else FirstFailed(b)
  {
    hide Failed;
    if a == [] {
      assert a + b == b;
    } else {
      assert (a + b)[1..] == a[1..] + b;
      FirstFailedConcat(a[1..], b);
    }
  }

  lemma ConcludedOutcome(w: World, before: Evaluation, original: octets, outer: OuterRoles, evidence: Evidence,
                         status: StatusReport.Report, unsupported: bool)
    requires before.completion.Some? && before.propagation == PropagationNotEvaluated
    requires before.alignment == AlignmentNotEvaluated && before.linkage == LinkageNotEvaluated
    requires before.envelopeId.None? && before.originalRecipient.None?
    ensures var r := Concluded(w, before, original, outer, evidence, status, unsupported);
      r.Ok? ==>
        && Related(evidence, outer.signer, status.recipients, r.value)
        && (r.value.propagation !in {PropagationNotEvaluated, NotFailure} ==> Selects(evidence, status, r.value))
  {
    hide FirstFailure, NamesOne, MatchesOne, AlignedWith, LinkedGroups, FirstFailed, ClassifyPreviousHop, Kept, Failed;
    AlignedIff(outer.signer, evidence);
    ClassifiedTwice(w, original, unsupported, before.run, before.completion.value.domain);
    var linked := LinkedGroups(status.recipients, evidence.paths);
    LinkedFacts(status.recipients, evidence);
    if FirstFailed(linked).Some? {
      var i := FirstSelected(status.recipients, evidence);
      SelectedKeeps(before.(alignment := Aligned, linkage := Linked), status.recipients[i], status,
                    ClassifyPreviousHop(w, original, unsupported, before.run, before.completion.value.domain));
      var r := Concluded(w, before, original, outer, evidence, status, unsupported);
      assert r.Ok? && r.value.linkage == Linked ==> Kept(status, status.recipients[i], r.value);
    }
  }

  lemma SelectedKeeps(before: Evaluation, g: StatusReport.Recipient, status: StatusReport.Report, p: Propagation)
    requires before.envelopeId.None? && before.originalRecipient.None?
    ensures Kept(status, g, Selected(before, g, status).(propagation := p))
  {
  }

  lemma ClassifiedTwice(w: World, original: octets, unsupported: bool, run: LocalRun, domain: octets)
    ensures ClassifyPreviousHop(w, original, unsupported, run, domain) !in {NotFailure, PropagationNotEvaluated}
  {
    hide IdentityAligned;
  }

  lemma LinkedFacts(recipients: seq<StatusReport.Recipient>, evidence: Evidence)
    ensures var linked := LinkedGroups(recipients, evidence.paths);
      && (linked != [] <==> exists g :: g in recipients && NamesOne(g, evidence))
      && (FirstFailed(linked).None? <==> forall g | g in recipients && NamesOne(g, evidence) :: !Failed(g))
  {
    hide Links, Failed, NamesOne, LinkedGroups, FirstFailed;
    var linked := LinkedGroups(recipients, evidence.paths);
    forall g ensures Links(g, evidence.paths) <==> NamesOne(g, evidence) {
      LinksIff(g, evidence);
    }
    if linked != [] {
      assert linked[0] in linked;
    }
  }

  lemma LocalCompleted(w: World, raw: octets, outerRecipient: octets, e: Evaluation)
    requires Evaluated(w, raw, outerRecipient) == Ok(e) && e.localHop == HopLocal
    ensures e.completion.Some?
  {
    hide StructurePasses, StructureFails, EmbeddedOriginal, StatusOf, RolesOf, HeadersOnly, AlignedWith, LinkedGroups;
    hide FirstFailed, ClassifyPreviousHop, EmbeddedPasses, EmbeddedOf, RunVerified, RunFailure, RunPasses, Unsigned;
  }

  /** A local hop has evidence: the fourth stage compares the outer signer with its domains, the fifth its paths with
      the recipients of the report, and the sixth takes the first failed one of those. */
  lemma LinkageOutcome(w: World, raw: octets, outerRecipient: octets, e: Evaluation)
    requires Evaluated(w, raw, outerRecipient) == Ok(e) && e.localHop == HopLocal
    ensures w.status.path(outerRecipient).Some? && StructurePasses(w, raw)
    ensures var original, recipient := EmbeddedOriginal(w, raw), w.status.path(outerRecipient).value;
      var answer := w.verify(original, HeadersOnly(w, raw), RolesOf(w, raw).timestamp);
      && answer.TargetPass? && w.binds(original, answer.sequence, recipient).Some?
      && var evidence := w.binds(original, answer.sequence, recipient).value;
      && Related(evidence, RolesOf(w, raw).signer, StatusOf(w, raw).recipients, e)
      && (e.propagation !in {PropagationNotEvaluated, NotFailure} ==> Selects(evidence, StatusOf(w, raw), e))
  {
    hide StructurePasses, StructureFails, EmbeddedOriginal, StatusOf, RolesOf, HeadersOnly, Concluded;
    hide Unsigned, HeaderFraming, Related, Selects, MemberTemporary;
    PassesAndFails(w, raw);
    LocalCompleted(w, raw, outerRecipient, e);
    HopOutcome(w, raw, outerRecipient, e);
    var original, recipient := EmbeddedOriginal(w, raw), w.status.path(outerRecipient).value;
    var target := w.verify(original, HeadersOnly(w, raw), RolesOf(w, raw).timestamp).sequence;
    var structured := FRESH.(structure := StructureValid, headersOnly := HeadersOnly(w, raw));
    var hop := AfterHop(w, original, target, recipient, AfterEmbedded(w, original, structured, RolesOf(w, raw)));
    ConcludedOutcome(w, hop, original, RolesOf(w, raw), w.binds(original, target, recipient).value, StatusOf(w, raw),
                     !RunVerified(w, original, target));
  }

  // ---- Propagation

  /** How the previous hop decides, once a failed group that the completion signature forwarded to is found. */
  ghost predicate Decided(w: World, original: octets, domain: octets, detection: Detection, e: Evaluation) {
    var member := detection.Detected? && w.members(original, detection.run) == MembersVerified && detection.run.Valid();
    var hop := if member then detection.run.previous else None;
    var nextDomain := hop.Some? && hop.value.nextDomain;
    var single := hop.Some? && !hop.value.nullSender && |hop.value.recipients| == 1
      && w.supported(original, hop.value.instance);
    && (e.propagation == UnsupportedChain <==> !member || nextDomain)
    && (e.propagation == TerminalOrigin <==> member && detection.run.lowest == 1)
    && (e.propagation == ForbiddenNullPreviousSender <==> hop.Some? && !nextDomain && hop.value.nullSender)
    && (e.propagation == NotReconstructable <==> hop.Some? && !nextDomain && !hop.value.nullSender && !single)
    && (e.propagation == ForbiddenIdentityMisaligned <==>
          hop.Some? && !nextDomain && single && !SharesDomain(w, domain, hop.value.recipients[0]))
    && (e.propagation == Eligible <==>
          hop.Some? && !nextDomain && single && SharesDomain(w, domain, hop.value.recipients[0]))
  }

  /** The path has an envelope domain that matches a known signing domain. */
  ghost predicate SharesDomain(w: World, domain: octets, path: octets) {
    domain != [] && exists d :: w.envelopeDomain(path) == Some(d) && Identity.RelaxedMatch(domain, d)
  }

  lemma AlignmentIff(w: World, domain: octets, path: octets)
    ensures IdentityAligned(w, domain, path) <==> SharesDomain(w, domain, path)
  {
    hide Identity.RelaxedMatch;
  }

  lemma ClassifiedOutcome(w: World, original: octets, detection: Detection, domain: octets, e: Evaluation)
    requires e.propagation == ClassifyPreviousHop(
      w, original, !(detection.Detected? && w.members(original, detection.run) == MembersVerified),
      if detection.Detected? then detection.run else NO_RUN, domain)
    ensures Decided(w, original, domain, detection, e)
  {
    hide IdentityAligned, SharesDomain;
    if detection.Detected? && detection.run.previous.Some? && |detection.run.previous.value.recipients| == 1 {
      AlignmentIff(w, domain, detection.run.previous.value.recipients[0]);
    }
  }

  /** Which previous hops give each outcome of the last stage. */
  lemma PropagationOutcome(w: World, raw: octets, outerRecipient: octets, e: Evaluation)
    requires Evaluated(w, raw, outerRecipient) == Ok(e)
    requires e.propagation !in {NotApplicable, NotFailure, PropagationNotEvaluated}
    ensures StructurePasses(w, raw) && e.completion.Some?
    ensures var original := EmbeddedOriginal(w, raw);
      var answer := w.verify(original, HeadersOnly(w, raw), RolesOf(w, raw).timestamp);
      answer.TargetPass?
      && Decided(w, original, e.completion.value.domain, w.detect(original, answer.sequence), e)
  {
    hide StructurePasses, StructureFails, EmbeddedOriginal, StatusOf, RolesOf, HeadersOnly, AlignedWith, LinkedGroups;
    hide FirstFailed, ClassifyPreviousHop, Unsigned, HeaderFraming, Decided;
    PassesAndFails(w, raw);
    var original, recipient := EmbeddedOriginal(w, raw), w.status.path(outerRecipient).value;
    var answer := w.verify(original, HeadersOnly(w, raw), RolesOf(w, raw).timestamp);
    ClassifiedOutcome(w, original, w.detect(original, answer.sequence), e.completion.value.domain, e);
  }

  // ---- Failures

  /** How far an evaluation gets before it can fail. */
  ghost predicate Verified(w: World, original: octets, headersOnly: bool, answer: Verification) {
    && Signed(original) && !Invents(original, headersOnly) && !w.cancelled(EmbeddedStage)
    && answer.TargetPass? && w.extracts(original)
  }

  predicate Looked(w: World, original: octets, target: nat, recipient: octets) {
    match w.completion(original, target)
    case None => false
    case Some(c) =>
      && w.hasAuthority && w.canonicalDomain(c.domain) && !w.cancelled(LocalHopStage)
      && w.authority(c.domain) == AuthorityLocal && w.binds(original, target, recipient).Some?
  }

  /** The run detection or the check of its members ends in an error, with the context done or not. */
  predicate RunErred(w: World, original: octets, target: nat, done: bool) {
    match w.detect(original, target)
    case DetectionError(d) => d == done
    case Detected(run) => w.members(original, run) == MembersError(done)
    case _ => false
  }

  /** The two stages on the embedded original fail exactly so. */
  ghost predicate OriginalFails(w: World, original: octets, headersOnly: bool, answer: Verification, recipient: octets,
                                r: Result<Evaluation, Failure>) {
    && (r == Err(Canceled(EmbeddedStage)) <==>
          Signed(original) && !Invents(original, headersOnly) && w.cancelled(EmbeddedStage))
    && (r == Err(Internal(EmbeddedStage)) <==>
          && Signed(original) && !Invents(original, headersOnly) && !w.cancelled(EmbeddedStage)
          && (answer.ContractError? || (answer.TargetPass? && !w.extracts(original))))
    && (r == Err(Internal(LocalHopStage)) <==>
          && Verified(w, original, headersOnly, answer)
          && match w.completion(original, answer.sequence)
             case None => true
             case Some(c) =>
               || (w.hasAuthority && !w.canonicalDomain(c.domain))
               || (Looked(w, original, answer.sequence, recipient) && RunErred(w, original, answer.sequence, false)))
    && (r == Err(Canceled(LocalHopStage)) <==>
          && Verified(w, original, headersOnly, answer)
          && match w.completion(original, answer.sequence)
             case None => false
             case Some(c) =>
               || (w.hasAuthority && w.canonicalDomain(c.domain) && w.cancelled(LocalHopStage))
               || (Looked(w, original, answer.sequence, recipient) && RunErred(w, original, answer.sequence, true)))
    && (r.Err? ==> r.error in {Canceled(EmbeddedStage), Internal(EmbeddedStage), Internal(LocalHopStage),
                               Canceled(LocalHopStage), Canceled(PreviousHopStage)})
    && (r == Err(Canceled(PreviousHopStage)) ==> w.cancelled(PreviousHopStage))
  }

  lemma ConcludedFails(w: World, before: Evaluation, original: octets, outer: OuterRoles, evidence: Evidence,
                       status: StatusReport.Report, unsupported: bool)
    requires before.completion.Some?
    ensures var r := Concluded(w, before, original, outer, evidence, status, unsupported);
      r.Err? ==> r.error == Canceled(PreviousHopStage) && w.cancelled(PreviousHopStage)
  {
    hide AlignedWith, LinkedGroups, FirstFailed, ClassifyPreviousHop;
  }

  lemma OriginalFailure(w: World, raw: octets, recipient: octets)
    requires StructurePasses(w, raw)
    ensures var original := EmbeddedOriginal(w, raw);
      var answer := w.verify(original, HeadersOnly(w, raw), RolesOf(w, raw).timestamp);
      OriginalFails(w, original, HeadersOnly(w, raw), answer, recipient, EvaluatedOriginal(w, raw, recipient))
  {
    hide StructurePasses, EmbeddedOriginal, StatusOf, RolesOf, HeadersOnly, AfterHop, Concluded, RunVerified;
    hide Unsigned, Signed, HeaderFraming, Invents;
    var original, outer := EmbeddedOriginal(w, raw), RolesOf(w, raw);
    SignedIff(original);
    InventsIff(original, HeadersOnly(w, raw));
    var structured := FRESH.(structure := StructureValid, headersOnly := HeadersOnly(w, raw));
    var answer := w.verify(original, HeadersOnly(w, raw), outer.timestamp);
    if answer.TargetPass? && HopFailure(w, original, answer.sequence, recipient).None?
      && HopPasses(w, original, answer.sequence, recipient) {
      var hop := AfterHop(w, original, answer.sequence, recipient, AfterEmbedded(w, original, structured, outer));
      ConcludedFails(w, hop, original, outer, w.binds(original, answer.sequence, recipient).value, StatusOf(w, raw),
                     !RunVerified(w, original, answer.sequence));
    }
  }

  /** When an evaluation fails, and with what. */
  lemma FailureOutcome(w: World, raw: octets, outerRecipient: octets)
    ensures var r, path := Evaluated(w, raw, outerRecipient), w.status.path(outerRecipient);
      var parsed := ReportParser.Parse(raw, w.options);
      var asked := raw != [] && path.Some?;
      && (r == Err(InvalidRequest(Preflight)) <==> !asked)
      && (r == Err(Canceled(Preflight)) <==> asked && w.cancelled(Preflight))
      && (r == Err(InvalidRequest(StructureStage)) <==>
            && asked && !w.cancelled(Preflight) && parsed.Ok?
            && match w.outerRoles(parsed.value.message)
               case None => true
               case Some(roles) => roles.timestamp > MAX_REFERENCE)
      && (asked && !w.cancelled(Preflight) && StructurePasses(w, raw) ==>
            var original := EmbeddedOriginal(w, raw);
            var answer := w.verify(original, HeadersOnly(w, raw), RolesOf(w, raw).timestamp);
            OriginalFails(w, original, HeadersOnly(w, raw), answer, path.value, r))
  {
    hide ReportParser.Parse, StatusReport.ParseBody, MessageParser.Parse, EvaluatedOriginal;
    if w.status.path(outerRecipient).Some? && StructurePasses(w, raw) {
      OriginalFailure(w, raw, w.status.path(outerRecipient).value);
    }
  }
}
