/** The message/delivery-status part of a propagated report, and what the strict parser reads back from it. */
module MachinePart {
  import opened Octets
  import opened RawMessage
  import opened StatusFields
  import opened StatusGroup
  import opened StatusLines
  import opened StatusReport
  import StatusValues

  datatype OriginalType = Rfc822 | Rfc822Headers

  /** Everything the report generator renders, except the date text. */
  datatype Input = Input(
    reportingMta: octets,
    authorDomain: octets,
    timestamp: nat,
    token: octets,
    nextHop: octets,
    finalRecipient: octets,
    status: octets,
    envelopeId: Option<octets>,
    originalRecipient: Option<octets>,
    originalType: OriginalType,
    originalHeaders: octets,
    originalBody: octets)

  function FieldText(name: octets, value: octets): octets {
    name + ": " + value
  }

  function OptionalField(name: octets, value: Option<octets>): octets {
    match value case None => [] case Some(v) => FieldText(name, v) + CRLF
  }

  function MessageText(input: Input): octets {
    OptionalField("Original-Envelope-Id", input.envelopeId)
    + (FieldText("Reporting-MTA", "dns; " + input.reportingMta) + CRLF)
  }

  function RecipientText(input: Input): octets {
    OptionalField("Original-Recipient", input.originalRecipient)
    + (FieldText("Final-Recipient", "rfc822; " + input.finalRecipient) + CRLF
    + (FieldText("Action", "failed") + CRLF
    + (FieldText("Status", input.status) + CRLF)))
  }

  /** The per-message group first, then exactly one per-recipient group. */
  function MachineText(input: Input): octets {
    MessageText(input) + CRLF + RecipientText(input)
  }

  function MessageLines(input: Input): seq<octets> {
    (match input.envelopeId case None => [] case Some(id) => [FieldText("Original-Envelope-Id", id)])
    + [FieldText("Reporting-MTA", "dns; " + input.reportingMta)]
  }

  function RecipientLines(input: Input): seq<octets> {
    (match input.originalRecipient case None => [] case Some(r) => [FieldText("Original-Recipient", r)])
    + [FieldText("Final-Recipient", "rfc822; " + input.finalRecipient), FieldText("Action", "failed"),
       FieldText("Status", input.status)]
  }

  function MachineLines(input: Input): seq<octets> {
    MessageLines(input) + [[]] + RecipientLines(input)
  }

  lemma JoinedCons(line: octets, rest: seq<octets>)
    ensures Joined([line] + rest) == line + CRLF + Joined(rest)
  {
    assert ([line] + rest)[1..] == rest;
  }

  lemma JoinedOption(name: octets, value: Option<octets>, rest: seq<octets>)
    ensures Joined((match value case None => [] case Some(v) => [FieldText(name, v)]) + rest)
         == OptionalField(name, value) + Joined(rest)
  {
    if value.Some? {
      JoinedCons(FieldText(name, value.value), rest);
    } else {
      assert [] + rest == rest;
    }
  }

  lemma EnvelopeIdName()
    ensures Classify("Original-Envelope-Id") == OriginalEnvelopeId
  {
    LowerIs("Original-Envelope-Id", "original-envelope-id");
  }

  lemma ReportingMtaName()
    ensures Classify("Reporting-MTA") == ReportingMta
  {
    LowerIs("Reporting-MTA", "reporting-mta");
  }

  lemma OriginalRecipientName()
    ensures Classify("Original-Recipient") == OriginalRecipient
  {
    LowerIs("Original-Recipient", "original-recipient");
  }

  lemma FinalRecipientName()
    ensures Classify("Final-Recipient") == FinalRecipient
  {
    LowerIs("Final-Recipient", "final-recipient");
  }

  lemma ActionName()
    ensures Classify("Action") == Action
  {
    LowerIs("Action", "action");
  }

  lemma StatusName()
    ensures Classify("Status") == Status
  {
    LowerIs("Status", "status");
  }

  /** A written field reads back as its name and its trimmed value. */
  lemma FieldRead(name: octets, value: octets)
    requires ValidFieldName(name)
    ensures Parsed(FieldText(name, value)) == Some(FieldLine(name, Classify(name), Trim(" " + value)))
  {
    var text := FieldText(name, value);
    forall i | 0 <= i < |name| ensures name[i] != ':' {
      assert FieldNameChar(name[i]);
    }
    assert text == name + [':'] + (" " + value);
    IndexByteAt(name, ':', " " + value);
    assert text[..|name|] == name && text[|name| + 1..] == " " + value;
  }

  // ---- Trimming around typed text

  lemma PaddingMoved(p: octets, b: octets, text: octets, a: octets, q: octets)
    ensures p + (b + text + a) + q == (p + b) + text + (a + q)
  {
  }

  /** Padding at either end does not change what trimming leaves. */
  lemma TrimIgnoresPadding(before: octets, s: octets, after: octets)
    requires AllWsp(before) && AllWsp(after)
    ensures Trim(before + s + after) == Trim(s)
  {
    hide Trim;
    var b, a := TrimSplit(s);
    PaddingMoved(before, b, Trim(s), a, after);
    TrimPadded(before + b, Trim(s), a + after);
  }

  lemma IndexPadded(before: octets, s: octets, after: octets, mark: char)
    requires AllWsp(before) && AllWsp(after) && !IsWsp(mark)
    ensures match IndexByte(s, mark)
      case None => IndexByte(before + s + after, mark).None?
      case Some(i) => IndexByte(before + s + after, mark) == Some(|before| + i)
  {
    var r := IndexByte(s, mark);
    if r.Some? {
      var i := r.value;
      assert mark !in before + s[..i];
      assert before + s + after == (before + s[..i]) + [mark] + (s[i + 1..] + after);
      IndexByteAt(before + s[..i], mark, s[i + 1..] + after);
    } else {
      assert mark !in before + s + after;
      NotFound(before + s + after, mark);
    }
  }

  lemma NotFound(s: octets, mark: char)
    requires mark !in s
    ensures IndexByte(s, mark).None?
  {
  }

  /** Typed text reads the same with its ends trimmed. */
  lemma TypedTextTrimmed(value: octets, required: octets, allowEmpty: bool)
    ensures TypedText(Trim(value), required, allowEmpty) == TypedText(value, required, allowEmpty)
  {
    hide Atom, Text, EqualFold, Trim;
    var core := Trim(value);
    var before, after := TrimSplit(value);
    IndexPadded(before, core, after, ';');
    var at := IndexByte(core, ';');
    if at.Some? {
      var i := at.value;
      assert value[..|before| + i] == before + core[..i] + [];
      assert value[|before| + i + 1..] == [] + core[i + 1..] + after;
      TrimIgnoresPadding(before, core[..i], []);
      TrimIgnoresPadding([], core[i + 1..], after);
    }
  }

  /** Typed text reads back as the trimmed text after the type. */
  lemma TypedTextRead(kind: octets, text: octets, required: octets)
    requires Atom(kind) && (required != [] ==> EqualFold(kind, required))
    ensures TypedText(Trim(" " + (kind + "; " + text)), required, false)
         == if Trim(text) == [] || !Text(Trim(text)) then None else Some(Trim(text))
  {
    hide Text, EqualFold, Trim;
    var value := " " + (kind + "; " + text);
    TypedTextTrimmed(value, required, false);
    TypedTextCut(kind, text);
    TrimPadded(" ", kind, []);
    TrimIgnoresPadding(" ", text, []);
    assert " " + kind + [] == " " + kind && " " + text + [] == " " + text;
  }

  lemma TypedTextCut(kind: octets, text: octets)
    requires Atom(kind)
    ensures Trimmed(kind)
    ensures var value := " " + (kind + "; " + text);
      && IndexByte(value, ';') == Some(|kind| + 1)
      && value[..|kind| + 1] == " " + kind && value[|kind| + 2..] == " " + text
  {
    var value := " " + (kind + "; " + text);
    forall i | 0 <= i < |kind| ensures AtomChar(kind[i]) && kind[i] != ';' && !IsWsp(kind[i]) {
    }
    assert value == (" " + kind) + [';'] + (" " + text);
    IndexByteAt(" " + kind, ';', " " + text);
  }

  // ---- Well-formed inputs

  const MIN_TOKEN := 16
  const MAX_TOKEN := 64
  const MAX_TIMESTAMP := 0x7FFF_FFFF_FFFF_FFFF
  const MAX_ORIGINAL_RECIPIENT := 800

  predicate TokenOk(token: octets) {
    && MIN_TOKEN <= |token| <= MAX_TOKEN
    && forall i | 0 <= i < |token| :: '0' <= token[i] <= '9' || 'a' <= token[i] <= 'z' || 'A' <= token[i] <= 'Z'
  }

  predicate FailureCode(status: octets) {
    ValidCode(status) && (status[0] == '4' || status[0] == '5')
  }

  /** The generator's own check of its input. */
  predicate Valid(input: Input) {
    && input.reportingMta != [] && input.authorDomain != [] && 0 < input.timestamp <= MAX_TIMESTAMP
    && TokenOk(input.token) && |input.nextHop| >= 3 && input.finalRecipient != [] && FailureCode(input.status)
    && input.originalHeaders != []
    && !SourceRouted(input.nextHop) && input.finalRecipient[0] != '@'
    && (input.envelopeId.Some? ==>
          1 <= |input.envelopeId.value| <= MAX_ENVELOPE_ID && XText(input.envelopeId.value).Some?)
    && (input.originalRecipient.Some? ==>
          |input.originalRecipient.value| <= MAX_ORIGINAL_RECIPIENT && UnfoldedText(input.originalRecipient.value, false))
    && NoLineEnd(input.finalRecipient) && NoLineEnd(input.nextHop)
  }

  const MAX_DOMAIN := 253
  const MAX_PATH := 256

  /** Host and domain names within the DNS limit and without line ends, paths within section 4.5.3.1.3 of RFC 5321. */
  predicate Ordinary(input: Input) {
    && |input.reportingMta| <= MAX_DOMAIN && |input.authorDomain| <= MAX_DOMAIN
    && |input.nextHop| <= MAX_PATH && |input.finalRecipient| <= MAX_PATH
    && NoLineEnd(input.reportingMta) && NoLineEnd(input.authorDomain)
  }

  // ---- The groups the strict machine reads back

  function MessageGroup(input: Input): Group {
    var g := match input.envelopeId
      case None => EMPTY
      case Some(id) => EMPTY.With(OriginalEnvelopeId, 0, Trim(" " + id));
    g.With(ReportingMta, 1, Trim(" " + ("dns; " + input.reportingMta)))
  }

  function RecipientGroup(input: Input): Group {
    var g := match input.originalRecipient
      case None => EMPTY
      case Some(r) => EMPTY.With(OriginalRecipient, 0, Trim(" " + r));
    g.With(FinalRecipient, 1, Trim(" " + ("rfc822; " + input.finalRecipient)))
      .With(Action, 2, Trim(" " + "failed"))
      .With(Status, 3, Trim(" " + input.status))
  }

  lemma NamesValid()
    ensures ValidFieldName("Original-Envelope-Id") && ValidFieldName("Reporting-MTA")
    ensures ValidFieldName("Original-Recipient") && ValidFieldName("Final-Recipient")
    ensures ValidFieldName("Action") && ValidFieldName("Status")
  {
  }

  /** Adding a written field whose kind may stand next in its group. */
  lemma StepShown(g: Group, index: nat, name: octets, kind: Kind, value: octets)
    requires ValidFieldName(name) && Classify(name) == kind != Extension && Rank(index, kind).Some?
    requires !g.Has(kind) && !g.extensionStarted && g.Prerequisites(index, kind)
    requires g.fieldCount > 0 ==> g.lastRank <= Rank(index, kind).value
    ensures Step(g, index, FieldText(name, value), Strict)
         == Some(g.With(kind, Rank(index, kind).value, Trim(" " + value)))
  {
    hide Classify, Trim, Parsed, FieldText, ValidFieldName;
    FieldRead(name, value);
  }

  lemma MessageRun(input: Input)
    ensures Run(0, MessageLines(input), Strict) == Some(MessageGroup(input))
  {
    hide Step, Run, FieldText, Trim, Classify, ValidFieldName;
    NamesValid();
    EnvelopeIdName();
    ReportingMtaName();
    RunEmpty(0, Strict);
    var mta := "dns; " + input.reportingMta;
    match input.envelopeId
    case None =>
      StepShown(EMPTY, 0, "Reporting-MTA", ReportingMta, mta);
      RunSnoc(0, [], FieldText("Reporting-MTA", mta), Strict);
    case Some(id) =>
      StepShown(EMPTY, 0, "Original-Envelope-Id", OriginalEnvelopeId, id);
      RunSnoc(0, [], FieldText("Original-Envelope-Id", id), Strict);
      assert [] + [FieldText("Original-Envelope-Id", id)] == [FieldText("Original-Envelope-Id", id)];
      var g := EMPTY.With(OriginalEnvelopeId, 0, Trim(" " + id));
      StepShown(g, 0, "Reporting-MTA", ReportingMta, mta);
      RunSnoc(0, [FieldText("Original-Envelope-Id", id)], FieldText("Reporting-MTA", mta), Strict);
  }

  lemma RecipientTail(lines: seq<octets>, g: Group, input: Input)
    requires Run(1, lines, Strict) == Some(g) && !g.extensionStarted
    requires !g.Has(FinalRecipient) && !g.Has(Action) && !g.Has(Status) && g.lastRank <= 1
    ensures var final := FieldText("Final-Recipient", "rfc822; " + input.finalRecipient);
      Run(1, lines + [final, FieldText("Action", "failed"), FieldText("Status", input.status)], Strict) ==
        Some(g.With(FinalRecipient, 1, Trim(" " + ("rfc822; " + input.finalRecipient)))
              .With(Action, 2, Trim(" " + "failed")).With(Status, 3, Trim(" " + input.status)))
  {
    hide Step, Run, FieldText, Trim, Classify, ValidFieldName;
    NamesValid();
    FinalRecipientName();
    ActionName();
    StatusName();
    var value := "rfc822; " + input.finalRecipient;
    var final, action, status :=
      FieldText("Final-Recipient", value), FieldText("Action", "failed"), FieldText("Status", input.status);
    StepShown(g, 1, "Final-Recipient", FinalRecipient, value);
    RunSnoc(1, lines, final, Strict);
    var h := g.With(FinalRecipient, 1, Trim(" " + value));
    StepShown(h, 1, "Action", Action, "failed");
    RunSnoc(1, lines + [final], action, Strict);
    var k := h.With(Action, 2, Trim(" " + "failed"));
    StepShown(k, 1, "Status", Status, input.status);
    RunSnoc(1, lines + [final] + [action], status, Strict);
    assert lines + [final, action, status] == lines + [final] + [action] + [status];
  }

  lemma RecipientRun(input: Input)
    ensures Run(1, RecipientLines(input), Strict) == Some(RecipientGroup(input))
  {
    hide Step, Run, FieldText, Trim, Classify, ValidFieldName;
    RunEmpty(1, Strict);
    match input.originalRecipient
    case None =>
      RecipientTail([], EMPTY, input);
    case Some(r) =>
      NamesValid();
      OriginalRecipientName();
      StepShown(EMPTY, 1, "Original-Recipient", OriginalRecipient, r);
      RunSnoc(1, [], FieldText("Original-Recipient", r), Strict);
      assert [] + [FieldText("Original-Recipient", r)] == [FieldText("Original-Recipient", r)];
      RecipientTail([FieldText("Original-Recipient", r)], EMPTY.With(OriginalRecipient, 0, Trim(" " + r)), input);
  }

  // ---- The values read back

  lemma PrintableTrimmed(value: octets)
    requires forall i | 0 <= i < |value| :: 33 as char <= value[i] <= 126 as char
    ensures Trim(" " + value) == value && Text(value)
  {
    TrimPadded(" ", value, []);
    assert " " + value + [] == " " + value;
  }

  lemma TypedShown(value: octets, required: octets)
    ensures TypedText(Trim(" " + value), required, false) == TypedText(value, required, false)
  {
    hide TypedText;
    TrimIgnoresPadding(" ", value, []);
    assert " " + value + [] == " " + value;
    TypedTextTrimmed(value, required, false);
  }

  predicate ReadableMta(input: Input) {
    Trim(input.reportingMta) != [] && Text(Trim(input.reportingMta))
  }

  /** What the values must satisfy beyond the generator's own check for the strict parser to accept them. */
  predicate MachineReadable(o: Oracles, input: Input) {
    && ReadableMta(input)
    && FinalPath(o, "rfc822; " + input.finalRecipient).Some?
    && (input.originalRecipient.Some? ==> OriginalPath(o, input.originalRecipient.value).Some?)
  }

  /** The report the written machine part states. */
  function Stated(o: Oracles, input: Input): Report
    requires MachineReadable(o, input)
  {
    Report(input.envelopeId, None, [Recipient(
      1, FinalPath(o, "rfc822; " + input.finalRecipient).value,
      match input.originalRecipient case None => None case Some(r) => OriginalPath(o, r),
      match input.originalRecipient case None => [] case Some(r) => Trim(" " + r),
      "failed", input.status)])
  }

  lemma MtaRead(input: Input)
    ensures TypedText(Trim(" " + ("dns; " + input.reportingMta)), [], false).Some? <==> ReadableMta(input)
  {
    hide TypedText, Trim;
    var value := "dns; " + input.reportingMta;
    assert value == "dns" + "; " + input.reportingMta;
    TypedTextRead("dns", input.reportingMta, []);
    TypedTextTrimmed(" " + value, [], false);
  }

  lemma EnvelopeIdRead(id: octets)
    requires XText(id).Some?
    ensures Trim(" " + id) == id && UnfoldedText(id, true)
  {
    XTextPrintable(id);
    PrintableTrimmed(id);
  }

  lemma MessageFinish(o: Oracles, input: Input)
    requires Valid(input)
    ensures Finish(o, 0, MessageGroup(input), Strict)
         == if ReadableMta(input) then Some(MessageFacts(input.envelopeId, None)) else None
  {
    hide TypedText, ReadableMta, UnfoldedText, Trim, XText, TokenOk, FailureCode, SourceRouted;
    MtaRead(input);
    if input.envelopeId.Some? {
      EnvelopeIdRead(input.envelopeId.value);
    }
  }

  lemma StatusRead(status: octets)
    requires FailureCode(status)
    ensures Trim(" " + status) == status && ValidCode(Trim(" " + status))
  {
    var end := IndexByte(status[2..], '.').value;
    forall i | 0 <= i < |status| ensures 33 as char <= status[i] <= 126 as char {
      if 2 <= i < end + 2 {
        assert status[i] == status[2..end + 2][i - 2];
      } else if i >= end + 3 {
        assert status[i] == status[end + 3..][i - end - 3];
      } else if i == end + 2 {
        assert status[i] == status[2..][end];
      }
    }
    PrintableTrimmed(status);
  }

  lemma ActionRead()
    ensures Trim(" " + "failed") == "failed" && ValidAction("failed")
  {
    PrintableTrimmed("failed");
    LowerIs("failed", "failed");
  }

  lemma PathsRead(o: Oracles, value: octets)
    ensures FinalPath(o, Trim(" " + value)) == FinalPath(o, value)
    ensures OriginalPath(o, Trim(" " + value)) == OriginalPath(o, value)
  {
    hide TypedText, Trim, XText;
    TypedShown(value, "rfc822");
  }

  lemma RecipientFinish(o: Oracles, input: Input)
    requires Valid(input)
    ensures Finish(o, 1, RecipientGroup(input), Strict)
         == if FinalPath(o, "rfc822; " + input.finalRecipient).None?
               || (input.originalRecipient.Some? && OriginalPath(o, input.originalRecipient.value).None?) then None
            else Some(RecipientFacts(Recipient(
              1, FinalPath(o, "rfc822; " + input.finalRecipient).value,
              match input.originalRecipient case None => None case Some(r) => OriginalPath(o, r),
              match input.originalRecipient case None => [] case Some(r) => Trim(" " + r),
              "failed", input.status)))
  {
    hide TypedText, FinalPath, OriginalPath, ValidAction, ValidCode, XText, TokenOk, FailureCode, SourceRouted;
    hide Trim, UnfoldedText;
    RecipientValuesRead(o, input);
    PathsRead(o, "rfc822; " + input.finalRecipient);
    if input.originalRecipient.Some? {
      PathsRead(o, input.originalRecipient.value);
    }
  }

  lemma RecipientValuesRead(o: Oracles, input: Input)
    requires Valid(input)
    ensures RecipientValuesValid(o, RecipientGroup(input))
    ensures Trim(" " + "failed") == "failed" && Trim(" " + input.status) == input.status
  {
    hide TypedText, ValidAction, ValidCode, XText, TokenOk, FailureCode, SourceRouted, Trim, UnfoldedText;
    StatusRead(input.status);
    ActionRead();
  }

  // ---- The lines and groups of the machine part

  predicate NoBlank(lines: seq<octets>) {
    forall i | 0 <= i < |lines| :: lines[i] != []
  }

  lemma {:induction false} GroupedAfter(lines: seq<octets>, rest: seq<octets>)
    requires NoBlank(rest)
    ensures Grouped(lines + rest) == Grouping(Grouped(lines).complete, Grouped(lines).pending + rest)
    decreases |rest|
  {
    hide Grouped;
    if rest == [] {
      assert lines + rest == lines && Grouped(lines).pending + rest == Grouped(lines).pending;
    } else {
      var init, last := rest[..|rest| - 1], rest[|rest| - 1];
      GroupedAfter(lines, init);
      GroupedSnoc(lines + init, last);
      assert lines + rest == lines + init + [last] && rest == init + [last];
      assert Grouped(lines).pending + init + [last] == Grouped(lines).pending + rest;
    }
  }

  lemma GroupedNothing()
    ensures Grouped([]) == Grouping([], [])
  {
  }

  lemma GroupedPair(a: seq<octets>, b: seq<octets>)
    requires NoBlank(a) && NoBlank(b) && b != []
    ensures Grouped(a + [[]] + b).All() == [a, b]
  {
    GroupedNothing();
    hide Grouped;
    GroupedAfter([], a);
    assert [] + a == a;
    GroupedSnoc(a, []);
    GroupedAfter(a + [[]], b);
    assert [] + b == b;
  }

  lemma FieldTextOk(name: octets, value: octets)
    requires ValidFieldName(name) && |name| <= 64 && NoLineEnd(value) && |value| <= 4000
    ensures LineOk(FieldText(name, value)) && FieldText(name, value) != []
  {
    forall i | 0 <= i < |name| ensures name[i] != '\r' && name[i] != '\n' {
      assert FieldNameChar(name[i]);
    }
  }

  lemma TextNoLineEnd(value: octets)
    requires Text(value)
    ensures NoLineEnd(value)
  {
    forall i | 0 <= i < |value| ensures value[i] != '\r' && value[i] != '\n' {
      assert TextChar(value[i]);
    }
  }

  lemma ValuesPlain(input: Input)
    requires Valid(input) && Ordinary(input)
    ensures NoLineEnd(input.status) && |input.status| <= 16
    ensures input.envelopeId.Some? ==> NoLineEnd(input.envelopeId.value)
    ensures input.originalRecipient.Some? ==> NoLineEnd(input.originalRecipient.value)
  {
    if input.envelopeId.Some? {
      EnvelopeIdRead(input.envelopeId.value);
      TextNoLineEnd(input.envelopeId.value);
    }
    if input.originalRecipient.Some? {
      TextNoLineEnd(input.originalRecipient.value);
    }
    CodePlain(input.status);
  }

  lemma CodePlain(status: octets)
    requires FailureCode(status)
    ensures NoLineEnd(status) && |status| <= 16
  {
    hide ValidCode;
    StatusValues.CodeParts(status);
    var severity: char, subject: octets, detail: octets :| StatusValues.Code(status, severity, subject, detail);
    forall c | c in status ensures c != '\r' && c != '\n' {
      assert c == severity || c == '.' || c in subject || c in detail;
    }
    forall i | 0 <= i < |status| ensures status[i] != '\r' && status[i] != '\n' {
      assert status[i] in status;
    }
  }

  lemma MachineLinesOk(input: Input)
    requires Valid(input) && Ordinary(input)
    ensures LinesOk(MachineLines(input)) && NoBlank(MessageLines(input)) && NoBlank(RecipientLines(input))
  {
    hide LineOk, FieldText, Valid;
    ValuesPlain(input);
    ValidSizes(input);
    NamesValid();
    BlankOk();
    FieldTextOk("Reporting-MTA", "dns; " + input.reportingMta);
    FieldTextOk("Final-Recipient", "rfc822; " + input.finalRecipient);
    FieldTextOk("Action", "failed");
    FieldTextOk("Status", input.status);
    if input.envelopeId.Some? {
      FieldTextOk("Original-Envelope-Id", input.envelopeId.value);
    }
    if input.originalRecipient.Some? {
      FieldTextOk("Original-Recipient", input.originalRecipient.value);
    }
  }

  lemma ValidSizes(input: Input)
    requires Valid(input)
    ensures input.envelopeId.Some? ==> |input.envelopeId.value| <= MAX_ENVELOPE_ID
    ensures input.originalRecipient.Some? ==> |input.originalRecipient.value| <= MAX_ORIGINAL_RECIPIENT
    ensures NoLineEnd(input.finalRecipient) && NoLineEnd(input.nextHop)
  {
    hide XText, TokenOk, FailureCode;
  }

  lemma MessageTextJoined(input: Input)
    ensures MessageText(input) == Joined(MessageLines(input))
  {
    hide FieldText;
    var mta := FieldText("Reporting-MTA", "dns; " + input.reportingMta);
    JoinedCons(mta, []);
    assert [mta] + [] == [mta];
    JoinedOption("Original-Envelope-Id", input.envelopeId, [mta]);
  }

  lemma RecipientTextJoined(input: Input)
    ensures RecipientText(input) == Joined(RecipientLines(input))
  {
    hide FieldText, Joined, OptionalField;
    var final, action, status := FieldText("Final-Recipient", "rfc822; " + input.finalRecipient),
      FieldText("Action", "failed"), FieldText("Status", input.status);
    JoinedOption("Original-Recipient", input.originalRecipient, [final, action, status]);
    JoinedThree(final, action, status);
  }

  lemma JoinedThree(a: octets, b: octets, c: octets)
    ensures Joined([a, b, c]) == a + CRLF + (b + CRLF + (c + CRLF))
  {
    JoinedCons(c, []);
    JoinedCons(b, [c]);
    JoinedCons(a, [b, c]);
    assert [c] + [] == [c] && [b] + [c] == [b, c] && [a] + [b, c] == [a, b, c];
  }

  lemma MachineTextJoined(input: Input)
    ensures MachineText(input) == Joined(MachineLines(input))
  {
    hide MessageLines, RecipientLines, MessageText, RecipientText;
    MessageTextJoined(input);
    RecipientTextJoined(input);
    JoinedConcat(MessageLines(input), [[]]);
    JoinedConcat(MessageLines(input) + [[]], RecipientLines(input));
    var blank: octets := [];
    JoinedCons(blank, []);
    assert [blank] + [] == [blank] && blank + CRLF + [] == CRLF;
  }

  lemma MachineSize(input: Input)
    requires Valid(input) && Ordinary(input)
    ensures 0 < |MachineText(input)| <= 1600
  {
    hide Valid;
    ValidSizes(input);
    ValuesPlain(input);
  }

  lemma MachineRead(input: Input)
    requires Valid(input) && Ordinary(input)
    ensures LinesOk(Lines(MachineText(input)))
    ensures Grouped(Lines(MachineText(input))).All() == [MessageLines(input), RecipientLines(input)]
  {
    hide Valid, Ordinary, MessageLines, RecipientLines, MachineText, LineOk;
    MachineTextJoined(input);
    MachineLinesOk(input);
    forall i | 0 <= i < |MachineLines(input)| ensures NoLineEnd(MachineLines(input)[i]) {
      OkPlain(MachineLines(input)[i]);
    }
    LinesOfJoined(MachineLines(input));
    RecipientLinesPresent(input);
    GroupedPair(MessageLines(input), RecipientLines(input));
  }

  lemma OkPlain(line: octets)
    requires LineOk(line)
    ensures NoLineEnd(line)
  {
  }

  lemma RecipientLinesPresent(input: Input)
    ensures 1 <= |MessageLines(input)| <= 2 && 3 <= |RecipientLines(input)| <= 4
  {
  }

  lemma PairAccepted(o: Oracles, a: seq<octets>, b: seq<octets>)
    requires |a| + |b| <= MAX_TOTAL_FIELDS
    ensures Accepted(o, [a, b], Strict) <==> GroupFacts(o, 0, a, Strict).Some? && GroupFacts(o, 1, b, Strict).Some?
    ensures (&& Accepted(o, [a, b], Strict)
             && GroupFacts(o, 0, a, Strict).value.MessageFacts? && GroupFacts(o, 1, b, Strict).value.RecipientFacts?) ==>
        var m, r := GroupFacts(o, 0, a, Strict).value, GroupFacts(o, 1, b, Strict).value;
        ReportOf(o, [a, b], Strict) == Report(m.envelopeId, m.arrival, [r.recipient])
  {
    hide GroupFacts, Total, ReportOf;
    TotalSnoc([], a);
    TotalSnoc([a], b);
    assert [] + [a] == [a] && [a] + [b] == [a, b];
    ReportSnoc(o, [], a, Strict);
    ReportSnoc(o, [a], b, Strict);
    ReportEmpty(o);
    var groups := [a, b];
    assert groups[0] == a && groups[1] == b;
  }

  lemma ReportEmpty(o: Oracles)
    ensures ReportOf(o, [], Strict) == Report(None, None, []) && Total([]) == 0
  {
  }

  /** The strict parser accepts the machine part of a valid ordinary input exactly when its values are readable,
      and then reads back one failed recipient with the written values. */
  lemma MachineIff(o: Oracles, input: Input)
    requires Valid(input) && Ordinary(input)
    ensures ParseBody(o, MachineText(input), Strict)
         == if MachineReadable(o, input) then Some(Stated(o, input)) else None
  {
    hide Valid, Ordinary, MessageLines, RecipientLines, MachineText, Lines, Grouped, Accepted, ReportOf, Run, Finish;
    hide ReadableMta, FinalPath, OriginalPath, MessageGroup, RecipientGroup;
    MachineSize(input);
    MachineRead(input);
    RecipientLinesPresent(input);
    MessageRun(input);
    RecipientRun(input);
    MessageFinish(o, input);
    RecipientFinish(o, input);
    PairAccepted(o, MessageLines(input), RecipientLines(input));
  }

  const EXAMPLE := Input(
    "mx.example", "example.org", 1, "0123456789abcdef", "<a@b.example>", "c@d.example", "5.1.1", None, Some("unknown"),
    Rfc822Headers, "Subject: x\r\n", [])

  /** The generator's check does not imply readability: an Original-Recipient that is no typed address passes the
      check and is refused by the strict parser. */
  lemma UntypedOriginalRefused(o: Oracles)
    ensures Valid(EXAMPLE) && Ordinary(EXAMPLE) && ParseBody(o, MachineText(EXAMPLE), Strict) == None
  {
    hide ParseBody, MachineText, ReadableMta, FinalPath;
    ExampleValid();
    NotFound("unknown", ';');
    MachineIff(o, EXAMPLE);
  }

  lemma ExampleValid()
    ensures Valid(EXAMPLE) && Ordinary(EXAMPLE)
  {
    hide ValidCode, TokenOk, Text, NoLineEnd;
    ExampleCode();
    ExampleToken();
    ExampleText("unknown");
    ExampleText("mx.example");
    ExampleText("example.org");
    ExampleText("<a@b.example>");
    ExampleText("c@d.example");
  }

  lemma ExampleCode()
    ensures ValidCode("5.1.1")
  {
    IndexByteAt("1", '.', "1");
    assert "5.1.1"[2..] == "1" + ['.'] + "1";
    assert "5.1.1"[2..3] == "1" && "5.1.1"[4..] == "1";
  }

  lemma ExampleToken()
    ensures TokenOk("0123456789abcdef")
  {
  }

  lemma ExampleText(s: octets)
    requires forall i | 0 <= i < |s| :: ' ' <= s[i] <= '~'
    ensures Text(s) && NoLineEnd(s)
  {
  }
}
