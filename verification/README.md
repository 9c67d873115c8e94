# DKIM2 canonical octets and delivery-status rebuild: a verified model

A Dafny model of the parts of a DKIM2 library that rest on real theorems, with the theorems proved. DKIM2 is
specified by draft-ietf-dkim-dkim2-spec-09; section numbers below are that draft's unless another document is named.

* **Canonical octets.** `octets.dfy`, `sorting.dfy`, `rawmsg.dfy` and `message.dfy` model octet strings, header fields
  and the strict message parser. `header_hash.dfy` and `body_hash.dfy` are the Section 6 hash inputs.
  `signature_input.dfy`, `signing_input.dfy`, `signature_stability.dfy` and `signature_agreement.dfy` are the two
  Section 12.8 constructions, why later hops leave them alone, and why they agree. `words.dfy`, `canonical_values.dfy`
  and `refolding.dfy` say what the canonical forms do to white space and that refolding breaks no signature;
  `input_limits.dfy` says when an input is refused.
* **The Section 16.3 rebuild.** `prune.dfy`, `restore.dfy`, `restored_order.dfy` and `rebuild.dfy` remove a run of
  local hops, restore the wire order after a descent, and show that hash input and surviving signatures are untouched;
  `eligible_rebuild.dfy` draws the conclusion for an eligible evaluation. `sample_chain.dfy` holds concrete chains, and
  `sample_report.dfy` and `sample_rebuild.dfy` a concrete report and its rebuild.
* **Reports.** `multipart.dfy`, `content_type.dfy` and `report_parser.dfy` parse RFC 6522 reports;
  `status_fields.dfy`, `status_lines.dfy`, `status_group.dfy`, `status_report.dfy` and `status_date.dfy` parse RFC 3464
  bodies under the strict, received and Postfix profiles, and `status_values.dfy` and `status_meaning.dfy` say by
  grammar what they accept and state; `boundary.dfy`, `machine_part.dfy`, `propagation_report.dfy` and
  `report_header.dfy` print a report and prove when the parsers read it back, with `text_lines.dfy` counting its
  lines; `rebuild_render.dfy` is the last step of the rebuild and proves exactly when its self-check passes.
* **Evaluation.** `received.dfy` is the staged evaluation of an inbound report and the rebuild's preconditions,
  and `outcomes.dfy` says which answers give each of its outcomes. `identity.dfy` is the search for a signing domain,
  `layout.dfy` and `combine.dfy` the AND/OR combination of results.
* **Commitments.** `commitments.dfy` is the framing behind the administration digests.

## Conventions

An octet is a Dafny `char`; every theorem holds for all chars. A header field is its raw name and raw value; its
lowercase name, unfolded value and original octets are computed from them, and its index is its position in the block.
Where the source mutates state - field groups, parsers, the rebuild state, hashes, evaluation records - the model has a
class whose methods are proved against functions on values, and the theorems are about those functions. Branches of the
source that the proofs show dead are kept as `assert false`. SHA-256, the tag parsers, the envelope-path canonicalizer,
date arithmetic, key and profile lookups and the verifier are parameters; what is assumed of one is written in a
`requires` clause (`WorldRules`, `VerifierRules`) or a subset type (`HexDigest`, `DateText`).

## What the proofs found

* The self-check of a rebuilt report can fail although every printed value is in order. The printer frames the embedded
  original with 24 to 26 lines; a received report needs fewer. If the received body uses the whole body-line limit and
  the run removes fewer lines than the printer adds, the printed report is beyond that limit and the rebuild ends in an
  internal failure. `SampleRebuild.EligibleRebuildRefused` is such a report, from its parse and its eligible evaluation
  to the refusal; `RebuildRender.RebuiltSelfCheckIff` is the exact condition.
* Skipping lookups is not invisible: a skipped candidate with an unusable profile, or whose lookup fails, would have
  stopped the plain search (`Identity.SkippedFailure`). `Identity.WalkIsPlainIff` is the exact condition.
* `SigningInput` accepts a target whose sequence or instance is 129, and no verifier will extract the completed message
  (`SampleChain.BeyondTheBounds`); `SignatureAgreement.SignerVerifierAgree` states the exact bound. Only callers keep
  the construction within it: internal/signing/revision.go:516-517 refuses 128 signatures and more than 128 instances,
  and internal/signing/plan.go:749 a new instance on top of 128.
* The pruned header block extracts only if the run reaches the highest signature of the chain, which the pruning itself
  does not check (`Prune.PruneExtractsIff`, with `SampleChain.PartialRunBreaks`). An eligible evaluation guarantees it:
  `EligibleRebuild.EligibleRunComplete`.
* The generator's `valid` check does not imply that its self-check passes: an Original-Recipient that is no typed xtext
  address is valid and refused (`MachinePart.UntypedOriginalRefused`). `MachinePart.MachineIff` gives the exact
  condition, and `RebuildRender.RenderInputReadable` shows that every value a rebuild passes meets it.

## Model

| member | source | states |
|---|---|---|
| HeaderHash.HeaderHashInput | internal/canonical/header.go:38-84 | The record loop, the in-place sort and the assembly return the Section 6.2 input of the block, or the first limit it exceeds with its field index. |
| HeaderHash.SortRecords | internal/canonical/header.go:240-248 | Sorting by name and descending field index yields the one listing that inserting fields bottom-up yields. |
| HeaderHash.TrimWsp | internal/canonical/header.go:124-136 | The two index loops strip exactly the WSP at both ends. |
| HeaderHash.CompressWsp | internal/canonical/header.go:139-160 | Every WSP run becomes one SP. |
| HeaderHash.NormalForm | internal/canonical/header.go:38-84 | Within limits, two header blocks have equal input if and only if every signed name lists the same WSP-canonical values in the same order, whatever the interleaving of names. |
| HeaderHash.SameValuesSameInput | internal/canonical/header.go:38-84 | A block with the same signed values, however many excluded fields it has, fits the same limits and has the same input. |
| HeaderHash.SortedValues | internal/canonical/header.go:112-160 | The sorted lines list each signed name bottom-up, and no excluded name occurs. |
| HeaderHash.RenderedInjective | internal/canonical/header.go:112-121 | Rendered lines can be read back: equal input text means equal lines. |
| HeaderHash.RelevantIff | internal/canonical/header.go:167-207 | A field is signed if and only if its name is none of the sixteen unsigned names and starts with neither received- nor x-. |
| CanonicalValues.CanonicalIsSpaced | internal/canonical/header.go:124-160 | The canonical value is the words of the value with one SP between neighbours and none at the ends. |
| CanonicalValues.CanonicalSingly | internal/canonical/header.go:139-160 | Every white space in a canonical value is one SP between two octets that are not white space. |
| CanonicalValues.CanonicalRun | internal/canonical/header.go:139-160 | A run of white space between two texts becomes exactly one SP, and text without white space stays as it is. |
| CanonicalValues.SameCanonicalIff | internal/canonical/header.go:139-160 | Two values have one canonical form if and only if they list the same words. |
| CanonicalValues.WordsNormalForm | internal/canonical/header.go:38-84 | Two header blocks have one hash input if and only if every signed name lists the same words, value by value. |
| CanonicalValues.InputIsBlock | internal/canonical/header.go:38-84 | The hash input is itself a header block: ascending lowercase names, and per signed name the singly spaced words of its values, bottom-up. |
| InputLimits.HashInputLimits | internal/canonical/header.go:38-84 | The input exists if and only if there are not too many fields, no signed field has a line over the limit and the lines together are within it; otherwise the first limit exceeded is named, with the first field that exceeds it. |
| Octets.LessAt | internal/canonical/header.go:240-248 | In the name order the first differing octet decides, and a proper prefix comes first. |
| BodyHash.CanonicalizeBody | internal/canonical/body.go:55-81 | The decrementing loop keeps the body up to its terminal CRLFs plus one CRLF and reports how many were dropped and why. |
| BodyHash.CanonicalIdempotent | internal/canonical/body.go:55-81 | Canonicalizing a canonical body changes nothing. |
| BodyHash.CanonicalEquality | internal/canonical/body.go:55-81 | Two bodies have one canonical form if and only if they differ only in terminal CRLFs. |
| RawMessage.RawInjective | internal/rawmsg/header.go:212-249 | The original octets of a valid field determine its name and value. |
| MessageParser.ParseOfWritten | internal/rawmsg/parser.go:22-86 | A valid, bounded header block written in front of a body is parsed back field by field and octet by octet if and only if the body is strict, within the line limits, and the message within the size limit; otherwise it is refused. |
| MessageParser.ParseOfHeaders | internal/dsn/serializer.go:10-29 | The octets of an admissible header block alone are read back as that block without a body. |
| MessageParser.ParsedWithin | internal/rawmsg/parser.go:22-86 | Whatever parses has an admissible header block and a strict body within the limits. |
| MessageParser.NoHeaderEndInBlock | internal/rawmsg/parser.go:22-86 | No CRLFCRLF lies inside a written header block, whatever its folds. |
| MessageParser.ReconstructRaws | internal/rawmsg/reconstruction.go:4-40 | Rebuilding a block from the original octets of admissible fields returns exactly those fields. |
| RawMessage.UnfoldHeaderValue | internal/rawmsg/parser.go:271-286 | The unfolding loop computes the unfolded value. |
| RawMessage.FoldRemoved | internal/rawmsg/parser.go:271-286 | Unfolding removes the line end of a fold and nothing else: the text in front of it stays, and so does the white space behind it. |
| SignatureInput.SignatureInput | internal/canonical/signature.go:72-129 | Extraction, selection, sort and bounded assembly return the Section 12.8 input of a target sequence or the first check that fails. |
| SignatureInput.ValidateSequence | internal/signature/collection.go:55-93 | Accepts exactly the listings of pairwise distinct numbers 1..n within the bound. |
| SignatureInput.SelectRecords | internal/canonical/signature.go:350-442 | The instance or signature records up to a number, in ascending number whatever the field order, or the first field over its limit. |
| SignatureInput.Append | internal/canonical/signature.go:597-607 | Appends one field unless the running total would pass the limit. |
| SignatureInput.FactsMeaning | internal/canonical/signature.go:316-347 | One fact per protocol field in block order, bearing the number the field states; every field of the name has one. |
| CanonicalValues.DeletedIsJoined | internal/canonical/signature.go:481-503 | Deleting white space leaves the words of the value, joined. |
| CanonicalValues.DeletedRun | internal/canonical/signature.go:481-503 | A deleted value holds no white space, a run of white space makes no difference to it, and text without any stays. |
| Refolding.InputIsBlock | internal/canonical/signature.go:72-129 | For a target that can be rendered, the input is the header block of the instances up to its own in ascending number, the signatures below it, and the target with null strings, each without white space, or the first limit that block exceeds. |
| Refolding.InputRefused | internal/canonical/signature.go:72-129 | A target outside the chain is refused as missing, and nothing else is; an input exists only for a target that can be rendered. |
| Refolding.RefoldedSameInput | internal/canonical/signature.go:72-129 | Two extractable blocks whose protocol fields and null rendering are equal up to white space, number by number, have the same input or the same failure: refolding in transit breaks no signature. |
| SignatureStability.ExtractionIff | internal/canonical/signature.go:316-347 | Extraction succeeds with m instances and n signatures if and only if the protocol fields, as a multiset, are numbered 1..m and 1..n with ordered references; their order and surroundings do not matter. |
| SignatureStability.InputStable | internal/canonical/signature.go:72-129 | Two extractable blocks with the same protocol fields up to a target have the same input for it. |
| SignatureStability.LaterHopsKeepInput | internal/canonical/signature.go:72-129 | Adding later hops and reordering header fields keeps the input of every earlier target octet for octet. |
| SigningInput.SigningInput | internal/canonical/signature.go:142-289 | The pre-insertion construction returns the input of the unsigned target over inherited and generated fields, or the first check that fails. |
| SignatureAgreement.SignerVerifierAgree | internal/canonical/signature.go:142-289 | Wherever the generated fields are inserted, the verifier's input of the completed block equals what the signer signed, unless the chain grew past 128 instances or signatures, which the signer's construction does not check and extraction refuses. |
| SampleChain.BeyondTheBounds | internal/canonical/signature.go:142-289 | Concrete chains with 128 instances or 128 signatures: the signer's construction succeeds for the hop numbered 129, and no verifier extracts the completed message. |
| SignatureAgreement.AgreementOutlivesLaterHops | internal/canonical/signature.go:72-129 | The agreement still holds after any later hops are added and in any order of the fields. |
| Prune.PruneHeaderBlock | internal/dsn/rebuild.go:443-500 | Fails if and only if the chain holds no previous hop; otherwise the previous hop's signature stays; in front of it the signed fields stay and other ordinary fields go, behind it every ordinary field stays, and the protocol fields outside the run and up to its instance stay, all in wire order; the protocol fields are also returned apart. |
| Prune.SurvivorsAround | internal/dsn/rebuild.go:487-495 | The result is low + previous hop + high: low has the signed fields of the wire below the previous hop and no other ordinary field, high has every ordinary field above it, each in wire order. |
| Prune.ProtocolSurvives | internal/dsn/rebuild.go:468-485 | Exactly the signatures outside the run and the instances up to the previous hop's stay, in wire order. |
| Prune.PruneKeepsHash | internal/dsn/rebuild.go:443-500 | Pruning leaves the Section 6.2 header hash input octet for octet, for every run. |
| Prune.PruneExtractsIff | internal/dsn/rebuild.go:443-500 | The pruned block extracts if and only if the run reaches the highest signature of the chain. |
| SampleChain.PartialRunBreaks | internal/dsn/rebuild.go:443-500 | A concrete chain of three signatures and a valid run over the second: it has a previous hop, and the pruned block does not extract. |
| Prune.PrunedCoherent | internal/dsn/rebuild.go:443-500 | Pruning a complete run leaves a coherent chain that ends at the previous hop and its instance. |
| Prune.PruneKeepsInput | internal/dsn/rebuild.go:443-500 | Every surviving signature keeps its Section 12.8 input octet for octet. |
| Restore.RestoreWireOrder | internal/dsn/rebuild.go:510-589 | Succeeds if and only if every name no recipe rewrote has the same group before and after; the final length guard cannot fail. |
| Restore.RestoredGroup | internal/dsn/rebuild.go:503-509 | The restored block keeps the floor's sequence of every name. |
| Restore.RestoredPermutation | internal/dsn/rebuild.go:510-589 | The restored block is a permutation of the floor fields. |
| Restore.RestoredUntouched | internal/dsn/rebuild.go:503-509 | The fields of names no recipe rewrote stand in wire order. |
| Restore.RestoredAnchored | internal/dsn/rebuild.go:503-509 | The fields of a rewritten name on the wire are contiguous at the name's first wire position. |
| Restore.RestoredUnanchored | internal/dsn/rebuild.go:503-509 | The fields of a rewritten name without a wire anchor are contiguous behind all wire fields. |
| RestoredOrder.RestoredLeads | internal/dsn/rebuild.go:503-589 | The groups of two rewritten names stand in order of their first wire positions, an anchored one in front of one without an anchor, and two without anchors in order of their first floor positions. |
| RestoredOrder.OneLeads | internal/dsn/rebuild.go:503-589 | Of two floor names one leads the other, so the order of all groups is settled. |
| Restore.RestoreKeepsHash | internal/dsn/rebuild.go:503-509 | The restored block has the floor's Section 6.2 header hash input. |
| Rebuild.Materialize | internal/rawmsg/reconstruction.go:58-102 | Returns the exact octets of a valid state if and only if its body and its size are within the limits; revalidating its headers cannot fail. |
| Rebuild.ParsedContent | internal/recipe/state.go:19-25 | A parsed message is a valid state whose octets are the message. |
| Rebuild.RebuildState.PrepareInitialState | internal/dsn/rebuild.go:410-438 | Fails if and only if the chain holds no previous hop; otherwise stores the pruned block, its protocol fields and the initial state, with the original body and framing or, for returned headers, without a body. Re-reading fields and body cannot fail. |
| Rebuild.RebuildState.RestoreFloor | internal/dsn/rebuild.go:510-589 | Stores the restored floor, with the body and framing of the reconstruction, if and only if the untouched groups agree and the reconstructed message is within the limits. |
| Rebuild.RebuildState.ProtocolFieldsPreserved | internal/dsn/rebuild.go:593-597 | Holds if and only if both protocol names have the same field sequence in the stored protocol fields and in the floor. |
| Rebuild.EqualFieldSequence | internal/dsn/rebuild.go:611-621 | Comparing original octets pairwise decides equality of the fields. |
| Rebuild.ProtocolSurvivesRestore | internal/dsn/rebuild.go:593-597 | After a successful restore the protocol check can fail only if a recipe rewrote a protocol name. |
| Rebuild.FloorHoldsPreviousHop | internal/dsn/rebuild.go:591-597 | A floor that passes the protocol check holds every surviving signature, so it has headers to return. |
| Rebuild.RebuildKeepsInput | internal/dsn/rebuild.go:305-350 | Through pruning a complete run, any descent that rewrites no protocol name, and the restore, every surviving signature keeps its Section 12.8 input. |
| EligibleRebuild.EligibleRunComplete | internal/verify/local_hop_run.go:226-275 | The run of an eligible evaluation reaches the highest signature of the embedded chain and stands on a signature of it. |
| EligibleRebuild.EligiblePruneExtracts | internal/dsn/rebuild.go:443-500 | After an eligible evaluation the pruned block extracts and ends at the previous hop and its instance. |
| EligibleRebuild.EligibleRebuildKeepsInput | internal/dsn/rebuild.go:305-350 | After an eligible evaluation every signature below the run keeps its Section 12.8 input through the whole header side of the rebuild. |
| Rebuild.DescentCanBeRestored | internal/recipe/apply_header.go:36-96 | After any descent, restoring the wire order with the names its recipes mention cannot fail. |
| Multipart.NextDelimiter | internal/dsn/parser.go:160-174 | The skip-ahead scan finds exactly the first anchored complete boundary line: continuing one octet past a rejected line start misses none. |
| Multipart.FirstDelimiter | internal/dsn/parser.go:140-157 | The opening line is at the very start or else the first anchored one. |
| Multipart.FindDelimiterAt | internal/dsn/parser.go:177-195 | Recognizes one complete boundary line, closing or not, with transport padding. |
| Multipart.SplitMultipart | internal/dsn/parser.go:113-137 | Returns the parts between boundary lines, or refuses a missing line or more than three parts. |
| Multipart.SplitIff | internal/dsn/parser.go:113-195 | The splitter returns some parts if and only if the body is a preamble, boundary lines with padding, those parts and an epilogue put together, none of which holds an anchored boundary line: nothing is lost and reading undoes writing. |
| Multipart.OccursBefore | internal/dsn/parser.go:113-195 | A boundary mark that starts in a part ends in it: none straddles the CRLF at a part edge. |
| Multipart.DelimiterLocal | internal/dsn/parser.go:177-195 | Whether a line is a boundary line does not depend on what follows its CRLF. |
| ContentType.Parser.SkipWhitespace | internal/dsn/parser.go:263-267 | Moves the offset past exactly the leading WSP. |
| ContentType.Parser.Consume | internal/dsn/parser.go:271-277 | Takes one required octet or moves nothing. |
| ContentType.Parser.ReadToken | internal/dsn/parser.go:280-286 | Takes the longest token at the offset. |
| ContentType.Parser.ReadValue | internal/dsn/parser.go:289-318 | Takes a token or a quoted string with its quoted pairs resolved. |
| ContentType.ParseContentType | internal/dsn/parser.go:210-250 | The offset parser returns the lowercase media type and parameter table of the value, or nothing. |
| ContentType.ParseOfShown | internal/dsn/parser.go:210-318 | Parsing undoes printing: media type and every token or quoted parameter come back, and a repeated parameter name is the only reason to refuse. |
| ReportParser.ParseWithOptions | internal/dsn/parser.go:17-80 | The structural parse of a report: three typed parts or the first failure with its part. |
| Boundary.DeriveBoundary | internal/dsn/propagation_report.go:218-239 | Returns the first of eight derived boundaries that no part contains, or nothing when all eight collide. |
| Boundary.DerivedValid | internal/dsn/propagation_report.go:218-239 | A derived boundary is 36 octets of the RFC 2046 grammar and occurs in no part, whatever the hash. |
| Boundary.DerivedUnique | internal/dsn/propagation_report.go:218-239 | The derived boundary is a function of the parts. |
| Boundary.FreeIsClean | internal/dsn/propagation_report.go:216-239 | A part that does not contain the dashed boundary holds no anchored boundary line, not even across its edge. |
| Boundary.FramedSplits | internal/dsn/propagation_report.go:132-139 | For any one to three parts free of the dashed boundary, the splitter returns exactly those parts from the framed body. |
| MachinePart.MachineIff | internal/dsn/propagation_report.go:162-214 | The strict parser accepts the machine part of a valid ordinary input if and only if the host text is readable and the path canonicalizer accepts its recipients, and then reads back one failed recipient with the written status, path, Original-Recipient and envelope ID. |
| MachinePart.UntypedOriginalRefused | internal/dsn/propagation_report.go:178-197 | A concrete input that passes the generator's own check and is refused by the strict parser: its Original-Recipient is no typed address. |
| PropagationReport.RenderPropagationReport | internal/dsn/propagation_report.go:108-148 | Prints the report of a valid input behind its derived boundary, or refuses for one of three reasons: an invalid input, eight collisions, a failed self-check. |
| PropagationReport.ProveRendered | internal/dsn/propagation_report.go:201-214 | The run-time self-check decides whether both parsers read the report back. |
| PropagationReport.BodyLined | internal/dsn/propagation_report.go:132-139 | The body of a printed report is strict text of bounded lines if and only if the embedded original is, and has exactly 24 to 26 lines beside the line ends of the original. |
| PropagationReport.ReportRead | internal/dsn/propagation_report.go:108-148 | The structural parser reads back exactly the human part, the machine part and the embedded original that were printed if the original is strict text of bounded lines and the report within the line and size limits; otherwise it refuses the report. |
| ReportHeader.HeaderRead | internal/dsn/propagation_report.go:119-131 | A printed report that parses has exactly one From, whose address domain is the author domain, one To equal to the next hop, one Date equal to the date text, one Message-ID of the token and the reporting host, the fixed subject and the automatic-reply and MIME fields, one Content-Type, and nothing else. |
| PropagationReport.SelfCheckIff | internal/dsn/propagation_report.go:199-214 | The self-check of a printed report passes if and only if its values are readable, the embedded original is strict text of bounded lines, and the report is within the parser's line and size limits. |
| PropagationReport.FixedPartsBound | internal/dsn/propagation_report.go:37-43 | All rendered octets outside the embedded original total at most 4096. |
| PropagationReport.TransportFacts | internal/dsn/propagation_report.go:81-88 | SMTPUTF8 and 8BITMIME together hold if and only if the report carries a non-ASCII octet. |
| RebuildRender.RebuiltSelfCheckIff | internal/dsn/rebuild.go:624-661 | For every eligible evaluation, started rebuild, valid request and serializable floor, the self-check of the printed report passes if and only if the report is within the parser's line and size limits; it outgrows the original by at most the fixed-parts bound. |
| SampleReport.TerseRead | internal/dsn/parser.go:17-80 | A received report may frame its original with 18 lines: for any strict original up to the remaining line limit the parser accepts it and reads its status body and its original. |
| SampleRebuild.SampleEligible | internal/dsn/received.go:312-357 | A concrete received report that uses the whole line limit, with concrete answers, meets every condition of eligibility. |
| SampleRebuild.SampleVerifies | internal/verify/verifier.go:240-280 | Those answers agree with the chain of the embedded original: the highest signature is examined, and the detected run ends at it. |
| SampleRebuild.EligibleRebuildRefused | internal/dsn/rebuild.go:305-350 | The rebuild of that report starts, passes the protocol check, and cannot be printed: whatever the request, the hash and the boundary, the self-check fails and the last step ends in an internal failure. |
| RebuildRender.Serialize | internal/dsn/serializer.go:10-42 | Returns the headers alone or the whole message of a floor; re-reading the headers cannot fail. |
| RebuildRender.SerializedTidy | internal/dsn/serializer.go:10-42 | Whatever is serialized from a floor starts with its headers and is strict text of bounded lines. |
| RebuildRender.SerializedReads | internal/dsn/serializer.go:10-42 | Whatever is serialized parses to the floor's headers, with the floor's body unless the rebuild is degraded. |
| RebuildRender.Render | internal/dsn/rebuild.go:624-675 | Ends with a report that says what the rebuild was started for, if it fits behind its derived boundary, with a limit failure only if the original outgrew the received report, and internally only if nothing can be serialized, all boundaries collide or the report does not fit. |
| RebuildRender.PrintedSays | internal/dsn/rebuild.go:624-675 | The printed report says what the rebuild was started for: From at the completion domain, To the sender path of the previous hop, one failed recipient that is the previous hop's recipient, the received status code if it is a failure code, the received envelope ID and original recipient if they are usable, and the serialized floor. |
| RebuildRender.RenderInputReadable | internal/dsn/rebuild.go:642-654 | The values of a started rebuild pass the generator's check and are readable by the strict parser. |
| StatusGroup.FieldGroup.Add | internal/dsn/evidence.go:436-504 | Admits one field under a profile or refuses it and changes nothing. |
| StatusGroup.FieldGroup.AddPostfixExtension | internal/dsn/evidence.go:563-600 | Admits only the queue and sender fields in their places. |
| StatusGroup.ReceivedRun | internal/dsn/evidence.go:436-504 | Received admits exactly the listings of distinct fields of the group, in any order, and gathers their values. |
| StatusMeaning.RecipientIff | internal/dsn/report.go:154-199 | A recipient group is accepted with a recipient if and only if its lines are distinct fields of such a group that state it: final recipient, action, status, an original recipient if any, well-formed optional fields, and a retry time only with a delayed action. |
| StatusMeaning.MessageIff | internal/dsn/report.go:154-199 | The message group is accepted with its facts if and only if its lines are distinct fields of such a group that state them: a reporting MTA, and the envelope ID and arrival date if any. |
| StatusMeaning.ReportIff | internal/dsn/report.go:87-152 | A body of groups between blank lines is accepted with a report if and only if it is within the limits and the groups state it: message facts first, then one recipient per group, in order. |
| StatusMeaning.TypedIff | internal/dsn/evidence.go:863-880 | Typed text is read if and only if it is an atom of the required type, a semicolon and a text, whatever white space is around both. |
| StatusValues.ClassifyIff | internal/dsn/evidence.go:657-683 | A name is classified as a known field if and only if it is that field's RFC 3464 name in some letter case. |
| StatusValues.RankFollowsAbnf | internal/dsn/evidence.go:685-727 | Exactly the fields of the group have a rank, ranks grow along the ABNF order of RFC 3464, and an extension ranks above all. |
| StatusValues.CodeIff | internal/dsn/evidence.go:1125-1149 | A status code is accepted if and only if it is a class 2, 4 or 5, a subject and a detail, each of one to three digits without a leading zero. |
| StatusGroup.ReceivedPermuted | internal/dsn/evidence.go:374-380 | Permuting the lines of a group changes neither its acceptance nor what it gathers. |
| StatusGroup.StrictIff | internal/dsn/evidence.go:431-469 | With its mandatory fields, a group passes Strict if and only if it passes Received and stands in rank order with extensions last; the prerequisite table adds nothing. |
| StatusGroup.PostfixRunReceived | internal/dsn/evidence.go:506-655 | Whatever Postfix admits Received admits, with the same fields. |
| StatusGroup.PostfixIff | internal/dsn/evidence.go:506-655 | Postfix completes a group if and only if its lines are R [O] Q [S] [A], or F [O] A S [Rm] D [W], with matching mail names. |
| StatusReport.ParseDeliveryStatusBody | internal/dsn/report.go:87-152 | The line loop returns the report of the body's groups under a profile, or nothing. |
| StatusReport.ReceivedIgnoresOrder | internal/dsn/report.go:100-199 | Permuting lines inside groups changes neither acceptance nor the envelope ID, arrival and recipient facts. |
| StatusReport.StrictBodyIff | internal/dsn/report.go:87-199 | Strict accepts a body if and only if Received does and every group stands in ABNF order; both read the same report. |
| StatusReport.PostfixBodyIff | internal/dsn/report.go:87-199 | Postfix accepts a body if and only if it unfolds to one that Received accepts and whose groups are Postfix sequences; both read the same report. |
| StatusLines.UnfoldPostfix | internal/dsn/evidence.go:761-825 | The scanner joins the continuations of the two foldable fields, or refuses; names are compared under Unicode case folding. |
| StatusLines.AsciiFoldsToItself | internal/dsn/evidence.go:436-446 | On names that pass the group's name check, Unicode case folding adds nothing to ASCII folding. |
| StatusLines.UnfoldingNormalizes | internal/dsn/evidence.go:758-825 | The output has no continuation line and no line over 4096 octets, and unfolding it again changes nothing. |
| StatusLines.VerbatimIff | internal/dsn/evidence.go:758-825 | An accepted body is returned verbatim if and only if it has no continuation line. |
| StatusLines.ContinuationJoins | internal/dsn/evidence.go:761-825 | A continuation line is joined to a field that may be continued by exactly one SP; blank, too long, or behind any other line it is refused. |
| StatusLines.FoldsInside | internal/dsn/evidence.go:657-683 | Under Unicode case folding a long s reads as s and a Kelvin sign as k, wherever it stands in a name. |
| StatusLines.LinesOfJoined | internal/dsn/report.go:105-120 | Lines joined by CRLFs are read back as those lines. |
| StatusFields.DecodeXText | internal/dsn/evidence.go:1175-1195 | Decodes exactly the xtext grammar of RFC 3461. |
| StatusValues.XTextIff | internal/dsn/evidence.go:1175-1195 | Xtext decodes to a text if and only if it encodes that text octet by octet, as itself or in upper-case hexadecimal. |
| StatusFields.ValidEnvelopeId | internal/dsn/propagation_report.go:268-285 | The renderer's scan accepts exactly the 1 to 100 octets that decode as xtext. |
| StatusDate.NormalizeDate | internal/dsn/evidence.go:961-1016 | Removes nested comments and canonicalizes white space, or refuses. |
| StatusDate.NormalizedIsFixed | internal/dsn/evidence.go:958-1027 | A normalized date holds no comment, quoting or superfluous space, and normalizing it again returns it. |
| StatusDate.CommentIsSpace | internal/dsn/evidence.go:961-1016 | The first comment of a date counts as one space, with its quoted pairs and whatever it nests within sixteen levels. |
| StatusDate.RunIsSpace | internal/dsn/evidence.go:961-1016 | A run of white space counts as one space. |
| StatusDate.WordsApart | internal/dsn/evidence.go:1022-1027 | A space between two words is kept unless a colon is in front of it or a comma or colon behind it, and words without one are left alone. |
| Commitments.FrozenWorkDigest | admincontract/contract.go:221-232 | Digests the frozen preimage of a valid work list and nothing else. |
| Commitments.CampaignPlanDigest | admincontract/contract.go:235-266 | Digests the plan preimage, which holds the digest of the plan's own work list, for valid plans only. |
| Commitments.DnsBatchDigest | admincontract/contract.go:269-284 | Digests the batch preimage of a valid batch only. |
| Commitments.PurgePlanDigest | admincontract/contract.go:287-314 | Digests the purge preimage of valid, generation-ordered targets only. |
| Commitments.AuditCommitment | admincontract/contract.go:317-338 | Digests the receipt preimage of a valid receipt only, destroyed at a non-zero instant in UTC. |
| Commitments.ValidateWork | admincontract/contract.go:351-375 | The single pass accepts exactly the bounded, well-formed lists in strictly increasing identity. |
| Commitments.PreimageInjective | admincontract/contract.go:221-338 | Equal framed octets mean the same kind of commitment with equal content. |
| Commitments.KindsSeparated | admincontract/contract.go:29-34 | Preimages of different kinds never coincide, whatever they hold. |
| Commitments.PlanBindsWork | admincontract/contract.go:235-266 | Plans with one preimage are one plan with one work list, unless the hash collides on two inventories. |
| Commitments.FramedCut | admincontract/contract.go:472-503 | Values of one shape can be read off the front of a framed text without knowing where they end. |
| Commitments.ReadFrame | admincontract/contract.go:487-503 | A count or generation read most significant octet first gives back its number. |
| Commitments.ReadText | admincontract/contract.go:478-486 | A framed text starts with its length and ends with the text. |
| Commitments.IdentityOrder | admincontract/contract.go:368-372 | For valid items the order of the NUL-joined identities is the lexicographic order of the bindings. |
| Commitments.ListingUnique | admincontract/contract.go:350-375 | Two valid listings of the same items are the same list. |
| Commitments.ListingExists | admincontract/contract.go:350-375 | Every inventory of valid items with distinct bindings has a valid listing. |
| Layouts.NewLayout | internal/combine/layout.go:31-45 | A layout exists if and only if there are one to sixteen sizes, all positive, of at most sixteen sets in all; it holds those sizes. |
| Layouts.GroupOf | internal/combine/layout.go:90-100 | Finds the one group whose range holds the set, for every set and nothing else. |
| Layouts.SeparatorBefore | internal/combine/layout.go:109-125 | No separator before the first set, a vertical bar where a group opens, a comma inside a group. |
| Layouts.Split | internal/combine/layout.go:133-159 | Succeeds if and only if the value is non-empty, has at most sixteen sets and none is blank. |
| Layouts.JoinOfSplit | internal/combine/layout.go:105-159 | Joining the split sets with the layout's separators reproduces the value octet for octet. |
| Layouts.SplitOfJoin | internal/combine/layout.go:105-159 | From any layout and as many non-blank set texts, the joined value splits into those texts and that layout. |
| Layouts.CommaIff | internal/combine/layout.go:88-125 | The separator is `,` if and only if the neighbouring sets share their group. |
| Combine.CombineResults | internal/combine/evaluate.go:75-107 | An outcome exists if and only if the input is coherent: both fall-through returns are unreachable; it holds the overall result and the decisive set. |
| Combine.SignatureAll | internal/combine/evaluate.go:110-134 | The three flags decide the Section 14.6 sig-all rule. |
| Combine.HashAll | internal/combine/evaluate.go:142-156 | The two flags decide the Section 14.7 hash-all rule. |
| Combine.Carried | internal/combine/evaluate.go:70-74 | Every result of a group rule is carried by one of the group's sets. |
| Combine.PassIff | internal/combine/evaluate.go:50-68 | PASS if and only if every set of some group passes. |
| Combine.TempIff | internal/combine/evaluate.go:50-58 | TEMPERROR if and only if no group passes and some group fails only temporarily. |
| Combine.AllRuleMeaning | internal/combine/evaluate.go:110-156 | One group is FAIL if and only if a set fails, PERMERROR if and only if no set fails and one has a permanent error, and TEMPERROR if and only if all that do not pass are temporary. |
| Combine.FailIff | internal/combine/evaluate.go:50-107 | FAIL if and only if no group passes or fails only temporarily and some set fails; PERMERROR if and only if no group passes or fails only temporarily and no set fails. |
| Combine.DecisiveUnique | internal/combine/evaluate.go:24-34 | Exactly one set is the first carrier in the first matching group. |
| Combine.GroupOrderIrrelevant | internal/combine/evaluate.go:75-107 | Reordering the groups does not change the overall result. |
| Identity.ChainIff | internal/dsn/identity.go:48-51 | The names enumerated from a recipient domain are exactly the non-empty names that relaxed-match it. |
| Identity.SigningIdentityCandidates | internal/dsn/identity.go:53-81 | The list is the front of the complete list: exactly the matching names, each linked if and only if a linked recipient matches it, in strict order. |
| Identity.CompleteUnique | internal/dsn/identity.go:83-103 | The complete list depends only on which recipients there are and which are linked. |
| Identity.OrderMeaning | internal/dsn/identity.go:83-103 | No unlinked candidate stands in front of a linked one; among equally linked ones the preferred is first, then more labels, then the bytewise smaller. |
| Identity.SubdomainFirst | internal/dsn/identity.go:83-103 | Of equally linked candidates a subdomain stands in front of its parent, unless the parent is preferred. |
| Identity.LabelsJoined | internal/dsn/identity.go:53-81 | Label counts add up across a dot, and a name without dots is one label. |
| Identity.TruncationDropsLower | internal/dsn/identity.go:11-16 | Truncation drops only candidates that rank below every kept one. |
| Identity.ResolveSigningIdentity | delivery_status.go:360-397 | The loop with early returns follows the walk. |
| Identity.WalkSearches | delivery_status.go:330-397 | The walk fails if and only if it runs into a cancellation or a failing source before the first candidate that binds; otherwise it finds the first candidate with a usable profile and an Authentic From, or names what is missing. |
| Identity.WalkIsPlainIff | delivery_status.go:360-397 | Skipping lookups changes nothing if and only if no skipped candidate before the first that binds has a failing source, or something else stops the walk anyway. |
| Identity.SkippedFailure | delivery_status.go:360-397 | Concrete candidates where they differ: the walk binds the third, the plain search stops at the unusable profile of the second. |
| Identity.BoundMatches | delivery_status.go:330-397 | Whatever the source answers, a bound domain has a usable profile, makes the From Authentic and matches a recipient. |
| Received.Evaluate | internal/dsn/received.go:312-357 | Returns exactly the evaluation or failure that the report and the answers determine; it is coherent, no stage is reached before the ones ahead of it have passed, and it is eligible if and only if every stage condition holds. |
| Received.EligibleCarries | internal/dsn/received.go:312-357 | An eligible evaluation carries the original and run it examined, a canonical signing domain aligned with the previous hop's one recipient, and the facts of a group of the report. |
| Outcomes.StructureOutcome | internal/dsn/received.go:361-393 | A report is over a limit if and only if its parser says so; it is malformed if and only if the parser refuses it otherwise, or its status part or its original does not parse. |
| Outcomes.EmbeddedOutcome | internal/dsn/received.go:399-456 | Which verifier answers give each embedded outcome: absent without a signature field, unverified on an error, a failing target or invented body evidence, temporary on an indeterminate target or run member, verified on a passing target. |
| Outcomes.HopOutcome | internal/dsn/received.go:473-576 | Which authority, binding, detection and member answers give each local-hop outcome, and which run is recorded. |
| Outcomes.LinkageOutcome | internal/dsn/received.go:579-620 | Alignment, linkage and failure class from the evidence and the report's recipients; the facts kept are those of the first failed group that names a forwarded path. |
| Outcomes.PropagationOutcome | internal/dsn/received.go:624-661 | Which previous hops give each propagation outcome. |
| Outcomes.FailureOutcome | internal/dsn/received.go:312-357 | When an evaluation fails, and with which failure: bad requests, cancellations and internal failures of each stage. |
| Received.EvaluateStructure | internal/dsn/received.go:361-393 | Passes, stops as malformed or over a limit, or rejects the request, each exactly when the report, its outer roles, its status body and its original say so. |
| Received.EvaluateEmbedded | internal/dsn/received.go:399-456 | Records absent, unverified, temporary or verified, and passes or fails, exactly as the original's signatures, its framing and the verifier's answer say. |
| Received.EvaluateLocalHop | internal/dsn/received.go:473-513 | Records the completion and the local-hop outcome, and passes or fails, exactly as authority, recipient binding and run say. |
| Received.EvaluateRun | internal/dsn/received.go:537-576 | Records the detected run, discards it on a temporary member failure, marks a chain with a non-verifying member unsupported, and tells a cancellation from an internal failure. |
| Received.BodyRecorded | internal/dsn/report.go:154-199 | Every group of a parsed report has a valid status code, and an Original-Recipient that decodes to its path. |
| Received.RebuildStarts | internal/dsn/rebuild.go:372-395 | Whatever evaluation comes out eligible, the missing-hop, next-domain, null-sender and multi-recipient exits of the rebuild cannot be taken: it starts below the run, or refuses an invalid or source-routed path. |

## Left out

- Observability metadata: excluded-header counters, input octet totals and redacted diagnostics of the canonicalizer.
- Error details beyond the failing check, its limit and its part or field index, and the parser's line and column locations.
- The grammar of the Message-Instance and DKIM2-Signature tags and the rendering of the unsigned target: parameters, constrained only where a theorem says so.
- Cryptography, key resolution and DNS; SHA-256 is an arbitrary function to 32 octets.
- The verifier, custody rules, run detection and descent: arbitrary answers in `Received.World`, and the header part of a descent as any chain of recipe applications.
- Body recipes and the verification of the previous hop during a rebuild: the reconstruction is any state of parsed headers and a strict body, and whether it is degraded to headers is an input of the last step.
- Date arithmetic: `parseDeliveryStatusDate` is a parameter; only its comment and white-space normalization is modelled.
- UTF-8 validity and Unicode white space in contract text: one parameter of the commitments.
- Time values in receipts: an instant is a zero flag, a UTC flag and an RFC 3339 text of at most 64 octets.
- Limits validation of options and canonicalizers, cancellation inside loops, locks, clones, getters, redaction and formatting.
- The other datasource records, adapters, daemon and command-line programs: they would add only easier members.
