/** The header side of the Section 16.3 rebuild (draft-ietf-dkim-dkim2-spec-09): prune, descend, restore, and
    prove the surviving protocol fields unchanged. */
module Rebuild {
  import opened Octets
  import opened RawMessage
  import opened SignatureInput
  import opened SignatureStability
  import opened Prune
  import opened Restore
  import HeaderHash
  import MessageParser
  import Sorting

  predicate Parsed(b: Block) {
    MessageParser.Admissible(b, MessageParser.DEFAULTS)
  }

  /** Whether a message without a body has a header/body separator. */
  datatype Framing = HeaderOnly | Delimited

  /** A reconstruction state: parsed headers and, unless it is unavailable, a body. */
  datatype Content = Content(headers: Block, body: Option<octets>, framing: Framing) {
    predicate Valid() {
      && Parsed(headers)
      && match body
         case None => framing == Delimited
         case Some(text) =>
           MessageParser.StrictCrlf(text) && (framing == HeaderOnly ==> headers != [] && text == [])
    }

    /** The exact octets of a state with a known body. */
    function Text(): octets
      requires body.Some?
    {
      MessageParser.RawBlock(headers) + if framing == HeaderOnly then [] else CRLF + body.value
    }

    predicate Within() {
      body.Some? ==> MessageParser.BodyWithin(body.value, MessageParser.DEFAULTS) && |Text()| <= MessageParser.MAX_MESSAGE_BYTES
    }
  }

  /** A parsed message as a state. */
  function ContentOf(raw: octets): Option<Content> {
    match MessageParser.Parse(raw, MessageParser.DEFAULTS)
    case None => None
    case Some(m) =>
      Some(Content(m.headers, Some(m.body), if raw == MessageParser.RawBlock(m.headers) then HeaderOnly else Delimited))
  }

  /** A parsed message is a valid state within the limits, and its octets are the message. */
  lemma ParsedContent(raw: octets)
    requires ContentOf(raw).Some?
    ensures var c := ContentOf(raw).value;
      c.Valid() && c.body.Some? && c.headers != [] && c.Within() && c.Text() == raw
  {
    hide MessageParser.Parse, MessageParser.RawBlock, MessageParser.StrictCrlf, MessageParser.BodyWithin;
    hide MessageParser.Admissible;
    MessageParser.ParsedWithin(raw, MessageParser.DEFAULTS);
    var m := MessageParser.Parse(raw, MessageParser.DEFAULTS).value;
    assert raw == MessageParser.RawBlock(m.headers) + CRLF + m.body || (raw == MessageParser.RawBlock(m.headers) && m.body == []);
    assert MessageParser.RawBlock(m.headers) + CRLF + m.body == MessageParser.RawBlock(m.headers) + (CRLF + m.body);
    if raw == MessageParser.RawBlock(m.headers) {
      assert m.body == [];
    }
  }

  /** The octets of reconstructed headers and a body under an explicit framing, after validating both again. */
  method Materialize(c: Content) returns (raw: Option<octets>)
    requires c.Valid() && c.body.Some?
    ensures raw == if c.Within() then Some(c.Text()) else None
  {
    hide MessageParser.StrictCrlf, MessageParser.BodyWithin, MessageParser.Admissible, MessageParser.RawBlock;
    hide MessageParser.Reconstruct;
    var text := c.body.value;
    MessageParser.ReconstructRaws(c.headers, MessageParser.DEFAULTS);
    var headers := MessageParser.Reconstruct(MessageParser.Raws(c.headers), MessageParser.DEFAULTS);
    if headers.None? {
      assert false; // parsed headers are reconstructed from their own octets
    }
    if |text| > MessageParser.MAX_MESSAGE_BYTES || !MessageParser.BodyWithin(text, MessageParser.DEFAULTS) {
      return None;
    }
    var head := MessageParser.RawBlock(headers.value);
    if c.framing == HeaderOnly {
      if headers.value == [] || text != [] {
        assert false; // a valid state frames only headers without a body
      }
      assert c.Text() == head + [] == head;
      return if |head| > MessageParser.MAX_MESSAGE_BYTES then None else Some(head);
    }
    assert c.Text() == head + (CRLF + text) == head + CRLF + text;
    return if |head| + 2 + |text| > MessageParser.MAX_MESSAGE_BYTES then None else Some(head + CRLF + text);
  }

  /** The intermediate values of one rebuild, set step by step. */
  class RebuildState {
    const run: Run
    var protocol: Block
    var pruned: Block
    var initial: Content
    var floor: Content

    constructor (run: Run)
      ensures this.run == run && protocol == [] && pruned == []
    {
      this.run := run;
      protocol, pruned := [], [];
      initial, floor := Content([], None, Delimited), Content([], None, Delimited);
    }

    /** Fails exactly when the chain holds no previous hop; re-reading the surviving fields and the body cannot
        fail. The body of a report that returned only headers is unavailable. */
    method PrepareInitialState(p: Parsers, original: Content, s: State, headersOnly: bool)
      returns (ok: bool, ghost previousIndex: int)
      requires original.Valid() && original.body.Some? && original.Within()
      requires Extraction(p, original.headers) == Ok(s) && run.Valid()
      modifies this`protocol, this`pruned, this`initial
      ensures ok <==> run.Previous() <= |s.signatures|
      ensures ok ==>
        && 0 <= previousIndex < |original.headers|
        && Bears(original.headers[previousIndex], SIGNATURE, p.sequence, run.Previous())
        && pruned == Survivors(p, original.headers, previousIndex, run) && protocol == Protocol(pruned)
        && Parsed(pruned) && original.headers[previousIndex] in pruned
        && initial == (if headersOnly then Content(pruned, None, Delimited) else original.(headers := pruned))
        && initial.Valid() && initial.Within()
    {
      hide MessageParser.Admissible, MessageParser.StrictCrlf, MessageParser.BodyWithin, Bears, MessageParser.RawBlock;
      hide Extraction, MessageParser.Reconstruct, Content.Within, Content.Valid, Survivors;
      ParsedHeaders(original);
      var r;
      r, previousIndex := PruneHeaderBlock(p, original.headers, s, run);
      if r.None? {
        return false, previousIndex;
      }
      protocol := r.value.protocol;
      SurvivorsParsed(p, original.headers, previousIndex, run);
      MessageParser.ReconstructRaws(r.value.fields, MessageParser.DEFAULTS);
      var headers := MessageParser.Reconstruct(MessageParser.Raws(r.value.fields), MessageParser.DEFAULTS);
      if headers.None? {
        assert false; // the survivors are within the limits of the block they come from
      }
      pruned := headers.value;
      PreviousHopSurvives(p, original.headers, previousIndex, run);
      PrunedWithin(p, original, previousIndex, run);
      if headersOnly {
        initial := Content(pruned, None, Delimited);
        return true, previousIndex;
      }
      var message := Materialize(original.(headers := pruned));
      if message.None? {
        assert false; // the surviving fields are no longer than the original's
      }
      initial := original.(headers := pruned);
      return true, previousIndex;
    }

    /** Fails exactly when a name no recipe rewrote has another group in the reconstructed block, or the
        reconstructed message is beyond the limits. */
    method RestoreFloor(reconstructed: Content, rewritten: seq<octets>) returns (ok: bool)
      requires Parsed(pruned) && reconstructed.Valid()
      modifies this`floor
      ensures ok <==> UntouchedGroupsAgree(pruned, reconstructed.headers, Touched(rewritten)) && reconstructed.Within()
      ensures ok ==>
        && floor == reconstructed.(headers := Restored(pruned, reconstructed.headers, Touched(rewritten)))
        && floor.Valid() && floor.Within()
    {
      hide MessageParser.Admissible, MessageParser.StrictCrlf, MessageParser.BodyWithin, MessageParser.RawBlock;
      hide MessageParser.Reconstruct, Content.Within, Content.Valid, UntouchedGroupsAgree, Restored;
      ParsedHeaders(reconstructed);
      ParsedValid(pruned);
      var touched := CollectNames(rewritten);
      var ordered := RestoreWireOrder(pruned, reconstructed.headers, touched);
      if ordered.None? {
        return false;
      }
      RestoredPermutation(pruned, reconstructed.headers, touched);
      MessageParser.AdmissiblePermuted(reconstructed.headers, ordered.value, MessageParser.DEFAULTS);
      MessageParser.ReconstructRaws(ordered.value, MessageParser.DEFAULTS);
      var headers := MessageParser.Reconstruct(MessageParser.Raws(ordered.value), MessageParser.DEFAULTS);
      if headers.None? {
        assert false; // a permutation of the reconstructed fields is within the same limits
      }
      ReorderedContent(reconstructed, headers.value);
      var state := reconstructed.(headers := headers.value);
      if state.body.Some? {
        var message := Materialize(state);
        if message.None? {
          return false;
        }
      } else {
        UnavailableWithin(state);
      }
      floor := state;
      return true;
    }

    method ProtocolFieldsPreserved() returns (ok: bool)
      requires ValidBlock(protocol) && ValidBlock(floor.headers)
      ensures ok <==>
        && Named(protocol, SIGNATURE) == Named(floor.headers, SIGNATURE)
        && Named(protocol, INSTANCE) == Named(floor.headers, INSTANCE)
    {
      var before := FilterFields(protocol, SIGNATURE);
      var after := FilterFields(floor.headers, SIGNATURE);
      ok := EqualFieldSequence(before, after);
      if ok {
        before := FilterFields(protocol, INSTANCE);
        after := FilterFields(floor.headers, INSTANCE);
        ok := EqualFieldSequence(before, after);
      }
    }
  }

  lemma ParsedHeaders(c: Content)
    requires c.Valid()
    ensures Parsed(c.headers) && ValidBlock(c.headers)
  {
  }

  lemma ParsedValid(b: Block)
    requires Parsed(b)
    ensures ValidBlock(b)
  {
  }

  lemma UnavailableWithin(c: Content)
    requires c.body.None?
    ensures c.Within()
  {
  }

  lemma PreviousHopSurvives(p: Parsers, b: Block, previousIndex: int, run: Run)
    requires run.Valid() && 0 <= previousIndex < |b|
    requires Bears(b[previousIndex], SIGNATURE, p.sequence, run.Previous())
    ensures b[previousIndex] in Survivors(p, b, previousIndex, run)
  {
    hide Lower, Unfold, Survivors;
    var f := b[previousIndex];
    FieldIn(b, SIGNATURE, f);
    SignatureSurvival(p, b, previousIndex, run, f);
    FieldIn(Survivors(p, b, previousIndex, run), SIGNATURE, f);
  }

  /** Pruning keeps a state valid and within the limits. */
  lemma PrunedWithin(p: Parsers, original: Content, previousIndex: int, run: Run)
    requires original.Valid() && original.body.Some? && original.Within()
    requires var pruned := Survivors(p, original.headers, previousIndex, run); Parsed(pruned) && pruned != []
    ensures var pruned := Survivors(p, original.headers, previousIndex, run);
      && original.(headers := pruned).Valid() && original.(headers := pruned).Within()
      && Content(pruned, None, Delimited).Valid() && Content(pruned, None, Delimited).Within()
  {
    hide MessageParser.Admissible, MessageParser.StrictCrlf, MessageParser.BodyWithin, MessageParser.RawBlock, Survivors;
    SurvivorsShorter(p, original.headers, previousIndex, run);
  }

  /** Reordering the headers of a state keeps its size. */
  lemma ReorderedContent(c: Content, headers: Block)
    requires c.Valid() && Parsed(headers) && multiset(headers) == multiset(c.headers)
    ensures c.(headers := headers).Valid() && (c.(headers := headers).Within() <==> c.Within())
  {
    hide MessageParser.Admissible, MessageParser.StrictCrlf, MessageParser.BodyWithin, MessageParser.RawBlock;
    MessageParser.RawLengthPermuted(c.headers, headers);
    assert |multiset(headers)| == |headers| && |multiset(c.headers)| == |c.headers|;
  }

  function Touched(rewritten: seq<octets>): Names {
    set name | name in rewritten
  }

  method CollectNames(rewritten: seq<octets>) returns (names: Names)
    ensures names == Touched(rewritten)
  {
    names := {};
    var i := 0;
    while i < |rewritten|
      invariant 0 <= i <= |rewritten|
      invariant forall name :: name in names <==> exists j :: 0 <= j < i && rewritten[j] == name
    {
      names := names + {rewritten[i]};
      i := i + 1;
    }
  }

  lemma NamedValid(b: Block, name: octets)
    requires ValidBlock(b)
    ensures ValidBlock(Named(b, name))
  {
    forall i | 0 <= i < |Named(b, name)| ensures Named(b, name)[i].Valid() {
      assert Named(b, name)[i] in b;
    }
  }

  method FilterFields(b: Block, name: octets) returns (r: Block)
    requires ValidBlock(b)
    ensures r == Named(b, name) && ValidBlock(r)
  {
    NamedValid(b, name);
    r := [];
    var i := 0;
    assert b[..|b|] == b;
    while i < |b|
      invariant 0 <= i <= |b|
      invariant r == Named(b[..i], name)
    {
      PrefixSnoc(b, i);
      NamedSnoc(b[..i], b[i], name);
      if b[i].Name() == name {
        r := r + [b[i]];
      }
      i := i + 1;
    }
  }

  /** Comparing original octets compares fields. */
  method EqualFieldSequence(a: Block, b: Block) returns (ok: bool)
    requires ValidBlock(a) && ValidBlock(b)
    ensures ok <==> a == b
  {
    if |a| != |b| {
      return false;
    }
    var i := 0;
    while i < |a|
      invariant 0 <= i <= |a|
      invariant a[..i] == b[..i]
    {
      if a[i].Raw() != b[i].Raw() {
        assert a[i] != b[i];
        return false;
      }
      RawInjective(a[i], b[i]);
      PrefixSnoc(a, i);
      PrefixSnoc(b, i);
      i := i + 1;
    }
    assert a[..|a|] == a && b[..|b|] == b;
    return true;
  }

  lemma {:induction false} SurvivorsParsed(p: Parsers, b: Block, previousIndex: int, run: Run)
    requires Parsed(b)
    ensures Parsed(Survivors(p, b, previousIndex, run))
  {
    var kept := Survivors(p, b, previousIndex, run);
    SurvivorsBound(p, b, previousIndex, run);
    SurvivorsShorter(p, b, previousIndex, run);
    forall i | 0 <= i < |kept| ensures kept[i].Valid() && MessageParser.FieldWithin(kept[i], MessageParser.DEFAULTS) {
      assert kept[i] in b;
    }
  }

  lemma {:induction false} SurvivorsShorter(p: Parsers, b: Block, previousIndex: int, run: Run)
    ensures |MessageParser.RawBlock(Survivors(p, b, previousIndex, run))| <= |MessageParser.RawBlock(b)|
  {
    if b != [] {
      var init, f := b[..|b| - 1], b[|b| - 1];
      SurvivorsShorter(p, init, previousIndex, run);
      assert b == init + [f];
      MessageParser.RawConcat(init, [f]);
      MessageParser.RawConcat(Survivors(p, init, previousIndex, run), [f]);
      assert Survivors(p, init, previousIndex, run) + [] == Survivors(p, init, previousIndex, run);
    }
  }

  // ---- Surviving signatures still verify

  lemma SameNamedCovered(a: Block, b: Block, name: octets)
    requires Named(a, name) == Named(b, name)
    ensures Covered(a, b, name)
  {
    forall f | f in a && f.Name() == name ensures f in b {
      assert f in Named(a, name);
    }
  }

  /** Blocks with the same protocol fields in the same order have the same input for every target. */
  lemma SameProtocolSameInput(c: Limits, p: Parsers, a: Block, b: Block, t: nat)
    requires Named(a, SIGNATURE) == Named(b, SIGNATURE) && Named(a, INSTANCE) == Named(b, INSTANCE)
    requires Input(c, p, a, t).Ok?
    ensures Input(c, p, b, t) == Input(c, p, a, t)
  {
    var s := Extraction(p, a).value;
    ExtractedCoherent(p, a, s);
    CoherentExtracts(p, b, |s.instances|, |s.signatures|);
    SameNamedCovered(a, b, SIGNATURE);
    SameNamedCovered(a, b, INSTANCE);
    ExtractionParts(p, a, s);
    LookupCovers(a, SIGNATURE, p.sequence, s.signatures, t);
    LaterHopsKeepInput(c, p, a, b, t);
  }

  /** The rebuilt header block verifies: through pruning, any descent that rewrites no protocol field, and the
      restored order, every surviving signature keeps its Section 12.8 input. */
  lemma RebuildKeepsInput(c: Limits, p: Parsers, b: Block, previousIndex: int, run: Run, reconstructed: Block,
                          touched: Names, t: nat)
    requires Input(c, p, b, t).Ok? && run.Valid() && PreviousHop(p, b, run)
    requires run.completion == |Extraction(p, b).value.signatures| && 1 <= t <= run.Previous()
    requires SIGNATURE !in touched && INSTANCE !in touched
    requires UntouchedGroupsAgree(Survivors(p, b, previousIndex, run), reconstructed, touched)
    ensures Input(c, p, Restored(Survivors(p, b, previousIndex, run), reconstructed, touched), t) == Input(c, p, b, t)
  {
    var pruned := Survivors(p, b, previousIndex, run);
    PruneKeepsInput(c, p, b, previousIndex, run, t);
    RestoredGroup(pruned, reconstructed, touched, SIGNATURE);
    RestoredGroup(pruned, reconstructed, touched, INSTANCE);
    SameProtocolSameInput(c, p, pruned, Restored(pruned, reconstructed, touched), t);
  }

  lemma {:induction false} ProtocolNamed(b: Block, name: octets)
    requires name == SIGNATURE || name == INSTANCE
    ensures Named(Protocol(b), name) == Named(b, name)
  {
    if b != [] {
      var init, f := b[..|b| - 1], b[|b| - 1];
      assert b == init + [f];
      ProtocolNamed(init, name);
      NamedSnoc(init, f, name);
      NamedSnoc(Protocol(init), f, name);
      assert Protocol(init) + [] == Protocol(init);
    }
  }

  /** The protocol check after a successful restore fails only if a recipe rewrote a protocol field name. */
  lemma ProtocolSurvivesRestore(pruned: Block, reconstructed: Block, touched: Names)
    requires UntouchedGroupsAgree(pruned, reconstructed, touched)
    requires SIGNATURE !in touched && INSTANCE !in touched
    ensures var floor := Restored(pruned, reconstructed, touched);
      && Named(Protocol(pruned), SIGNATURE) == Named(floor, SIGNATURE)
      && Named(Protocol(pruned), INSTANCE) == Named(floor, INSTANCE)
  {
    RestoredGroup(pruned, reconstructed, touched, SIGNATURE);
    RestoredGroup(pruned, reconstructed, touched, INSTANCE);
    ProtocolNamed(pruned, SIGNATURE);
    ProtocolNamed(pruned, INSTANCE);
  }

  /** A floor that passes the protocol check holds the previous hop's signature. */
  lemma FloorHoldsPreviousHop(pruned: Block, floor: Block, f: Field)
    requires f in pruned && f.Name() == SIGNATURE && Named(Protocol(pruned), SIGNATURE) == Named(floor, SIGNATURE)
    ensures f in floor
  {
    ProtocolNamed(pruned, SIGNATURE);
    assert f in Named(pruned, SIGNATURE);
  }

  // ---- The descent

  /** One authenticated recipe: no header part, or a new group for every name it mentions. */
  datatype Recipe = Unchanged | Rewritten(plans: map<octets, Block>)

  function Regrouped(names: seq<octets>, b: Block, plans: map<octets, Block>): Block {
    if names == [] then []
    else (if names[0] in plans then plans[names[0]] else Named(b, names[0])) + Regrouped(names[1..], b, plans)
  }

  /** The applier lists all names in ascending order and emits one group per name. */
  ghost predicate Applies(b: Block, recipe: Recipe, next: Block) {
    match recipe
    case Unchanged => next == b
    case Rewritten(plans) =>
      && (forall name, f | name in plans && f in plans[name] :: f.Name() == name)
      && exists names: seq<octets> ::
          && Sorting.SortedBy(names, Less)
          && (forall name :: name in names <==> name in NamesOf(b) || name in plans)
          && next == Regrouped(names, b, plans)
  }

  function Mentioned(recipe: Recipe): Names {
    match recipe case Unchanged => {} case Rewritten(plans) => plans.Keys
  }

  lemma {:induction false} RegroupedGroup(names: seq<octets>, b: Block, plans: map<octets, Block>, name: octets)
    requires forall n, f | n in plans && f in plans[n] :: f.Name() == n
    requires Sorting.SortedBy(names, Less) && name !in plans
    ensures Named(Regrouped(names, b, plans), name) == if name in names then Named(b, name) else []
  {
    hide Less, Lower;
    if names != [] {
      var first, rest := names[0], names[1..];
      var group := if first in plans then plans[first] else Named(b, first);
      RegroupedGroup(rest, b, plans, name);
      NamedConcat(group, Regrouped(rest, b, plans), name);
      NamedUniform(group, first, name);
      assert names == [first] + rest;
      forall i | 0 <= i < |rest| ensures rest[i] != first {
        assert Less(names[0], names[i + 1]);
        LessTotal(first, rest[i]);
      }
    }
  }

  /** A recipe leaves the group of every name it does not mention. */
  lemma AppliedGroup(b: Block, recipe: Recipe, next: Block, name: octets)
    requires Applies(b, recipe, next) && name !in Mentioned(recipe)
    ensures Named(next, name) == Named(b, name)
  {
    if recipe.Rewritten? {
      var names: seq<octets> :|
        && Sorting.SortedBy(names, Less)
        && (forall n :: n in names <==> n in NamesOf(b) || n in recipe.plans)
        && next == Regrouped(names, b, recipe.plans);
      RegroupedGroup(names, b, recipe.plans, name);
      NamedAbsent(b, name);
    }
  }

  /** `states` is a descent: every state follows from the one before by its recipe. */
  ghost predicate Descent(states: seq<Block>, recipes: seq<Recipe>) {
    && |states| == |recipes| + 1
    && forall i | 0 <= i < |recipes| :: Applies(states[i], recipes[i], states[i + 1])
  }

  function MentionedByAny(recipes: seq<Recipe>): Names {
    if recipes == [] then {} else MentionedByAny(recipes[..|recipes| - 1]) + Mentioned(recipes[|recipes| - 1])
  }

  /** After any descent, restoring the wire order with the names its recipes mention cannot fail. */
  lemma {:induction false} DescentCanBeRestored(states: seq<Block>, recipes: seq<Recipe>)
    requires Descent(states, recipes)
    ensures UntouchedGroupsAgree(states[0], states[|recipes|], MentionedByAny(recipes))
  {
    if recipes != [] {
      var k := |recipes| - 1;
      assert Descent(states[..k + 1], recipes[..k]) by {
        forall i | 0 <= i < k
          ensures Applies(states[..k + 1][i], recipes[..k][i], states[..k + 1][i + 1])
        {
          assert Applies(states[i], recipes[i], states[i + 1]);
        }
      }
      DescentCanBeRestored(states[..k + 1], recipes[..k]);
      assert Applies(states[k], recipes[k], states[k + 1]);
      forall name | name !in MentionedByAny(recipes) ensures Named(states[0], name) == Named(states[k + 1], name) {
        AppliedGroup(states[k], recipes[k], states[k + 1], name);
        assert Named(states[..k + 1][0], name) == Named(states[..k + 1][k], name);
      }
    }
  }
}
