/** The rebuild after an eligible evaluation: the run it removes reaches the highest signature of the embedded
    original, so every signature below it survives with its input. */
module EligibleRebuild {
  import opened Octets
  import opened RawMessage
  import opened SignatureInput
  import opened SignatureStability
  import opened Prune
  import opened Rebuild
  import opened Restore
  import HeaderHash
  import MessageParser
  import Received

  function HeadersOf(original: octets): Block {
    match MessageParser.Parse(original, MessageParser.DEFAULTS)
    case None => []
    case Some(message) => message.headers
  }

  /** The run of a signature `target`, above a previous hop that is a signature of the block. */
  ghost predicate RunOver(p: Parsers, b: Block, target: nat, run: Received.LocalRun) {
    && run.Valid() && run.completion == target
    && (run.previous.Some? ==>
          exists f :: f in Fields(b, SIGNATURE) && Sequence(p, f) == run.previous.value.sequence
            && p.reference(f.Value()) == run.previous.value.instance)
  }

  /** What the verifier promises of an original it extracts: its chain is coherent, the signature examined without an
      explicit target is the highest one, and a detected run ends there, above a signature of the chain. */
  ghost predicate VerifierRules(w: Received.World, p: Parsers) {
    && (forall original | w.extracts(original) :: Extraction(p, HeadersOf(original)).Ok?)
    && (forall original, headersOnly, time |
          w.extracts(original) && w.verify(original, headersOnly, time).TargetPass? ::
            w.verify(original, headersOnly, time).sequence == |Extraction(p, HeadersOf(original)).value.signatures|)
    && (forall original, target | w.extracts(original) && w.detect(original, target).Detected? ::
          RunOver(p, HeadersOf(original), target, w.detect(original, target).run))
  }

  /** The run an eligible evaluation hands to the rebuild. */
  function RemovedRun(e: Received.Evaluation): Run
    requires e.run.previous.Some?
  {
    Run(e.run.completion, e.run.lowest, e.run.previous.value.instance)
  }

  /** It reaches the highest signature of the chain, and its previous hop is a signature of the chain. */
  lemma EligibleRunComplete(w: Received.World, p: Parsers, raw: octets, e: Received.Evaluation)
    requires VerifierRules(w, p) && Received.Carries(w, raw, e)
    ensures e.run.previous.Some? && Extraction(p, HeadersOf(e.original)).Ok?
    ensures var run := RemovedRun(e);
      && run.Valid() && run.completion == |Extraction(p, HeadersOf(e.original)).value.signatures|
      && PreviousHop(p, HeadersOf(e.original), run)
  {
    hide Received.StructurePasses, Received.EmbeddedOriginal, Received.RolesOf, Received.HeadersOnly, Received.Unsigned;
    hide Received.HeaderFraming, Received.Recorded, Received.IdentityAligned, Fields, HeadersOf, Extraction;
    var target := Received.TargetOf(w, raw);
    assert w.extracts(e.original);
    assert RunOver(p, HeadersOf(e.original), target, w.detect(e.original, target).run);
  }

  /** The rebuilt header block verifies: after an eligible evaluation, every signature below the removed run keeps its
      Section 12.8 input through pruning, any descent that rewrites no protocol field, and the restored order. */
  lemma EligibleRebuildKeepsInput(
    c: Limits, w: Received.World, p: Parsers, raw: octets, e: Received.Evaluation, previousIndex: int,
    reconstructed: Block, touched: Names, t: nat)
    requires VerifierRules(w, p) && Received.Carries(w, raw, e) && e.run.previous.Some?
    requires var b, run := HeadersOf(e.original), RemovedRun(e);
      && Input(c, p, b, t).Ok? && 1 <= t < run.lowest
      && SIGNATURE !in touched && INSTANCE !in touched
      && UntouchedGroupsAgree(Survivors(p, b, previousIndex, run), reconstructed, touched)
    ensures var b, run := HeadersOf(e.original), RemovedRun(e);
      Input(c, p, Restored(Survivors(p, b, previousIndex, run), reconstructed, touched), t) == Input(c, p, b, t)
  {
    hide VerifierRules, Received.Carries, PreviousHop, UntouchedGroupsAgree, Survivors, Restored, HeadersOf, Input;
    hide Extraction;
    EligibleRunComplete(w, p, raw, e);
    RebuildKeepsInput(c, p, HeadersOf(e.original), previousIndex, RemovedRun(e), reconstructed, touched, t);
  }

  /** The pruned header block of an eligible evaluation extracts, and ends at the previous hop. */
  lemma EligiblePruneExtracts(w: Received.World, p: Parsers, raw: octets, e: Received.Evaluation, previousIndex: int)
    requires VerifierRules(w, p) && Received.Carries(w, raw, e)
    ensures e.run.previous.Some?
    ensures var pruned := Extraction(p, Survivors(p, HeadersOf(e.original), previousIndex, RemovedRun(e)));
      pruned.Ok? && |pruned.value.signatures| == e.run.lowest - 1
                 && |pruned.value.instances| == e.run.previous.value.instance
  {
    hide VerifierRules, Received.Carries, PreviousHop, Survivors, HeadersOf, Extraction;
    EligibleRunComplete(w, p, raw, e);
    var b, run := HeadersOf(e.original), RemovedRun(e);
    var s := Extraction(p, b).value;
    ExtractedCoherent(p, b, s);
    PrunedCoherent(p, b, previousIndex, run, |s.instances|, |s.signatures|);
    CoherentExtracts(p, Survivors(p, b, previousIndex, run), run.previousInstance, run.Previous());
  }
}
