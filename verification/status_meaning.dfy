/** What a received group of delivery-status fields states, said of its lines. */
module StatusMeaning {
  import opened Octets
  import opened StatusFields
  import opened StatusGroup
  import StatusLines
  import opened StatusReport

  /** Typed text is a type, a semicolon and a text, with white space around both. */
  lemma TypedIff(value: octets, required: octets, allowEmpty: bool, text: octets)
    ensures TypedText(value, required, allowEmpty) == Some(text) <==>
      exists name: octets, rest: octets ::
        && value == name + ";" + rest && ';' !in name && text == Trim(rest)
        && Atom(Trim(name)) && (required != [] ==> EqualFold(Trim(name), required))
        && Text(text) && (text == [] ==> allowEmpty)
  {
    hide Trim, Atom, Text, EqualFold;
    if TypedText(value, required, allowEmpty) == Some(text) {
      var i := IndexByte(value, ';').value;
      assert value == value[..i] + ";" + value[i + 1..];
    }
    forall name: octets, rest: octets
      | && value == name + ";" + rest && ';' !in name && text == Trim(rest)
        && Atom(Trim(name)) && (required != [] ==> EqualFold(Trim(name), required))
        && Text(text) && (text == [] ==> allowEmpty)
      ensures TypedText(value, required, allowEmpty) == Some(text)
    {
      assert name + ";" + rest == name + [';'] + rest;
      IndexByteAt(name, ';', rest);
      assert value[..|name|] == name && value[|name| + 1..] == rest;
    }
  }

  /** Some line is a field of this kind with this value. */
  ghost predicate States(lines: seq<octets>, kind: Kind, value: octets) {
    exists i :: 0 <= i < |lines| && KindOf(lines[i]) == kind && ValueOf(lines[i]) == value
  }

  ghost predicate Silent(lines: seq<octets>, kind: Kind) {
    forall i | 0 <= i < |lines| :: KindOf(lines[i]) != kind
  }

  lemma GatheredIff(g: Group, lines: seq<octets>, kind: Kind)
    requires Gathers(g, lines) && kind != Extension
    ensures g.Has(kind) <==> !Silent(lines, kind)
    ensures g.Has(kind) ==> States(lines, kind, ValueAt(g, kind))
    ensures forall value :: States(lines, kind, value) <==> g.Has(kind) && ValueAt(g, kind) == value
  {
    hide KindOf, ValueOf;
    forall value ensures States(lines, kind, value) <==> g.Has(kind) && ValueAt(g, kind) == value {
      if States(lines, kind, value) {
        var i :| 0 <= i < |lines| && KindOf(lines[i]) == kind && ValueOf(lines[i]) == value;
        assert Known(lines[i]);
      }
      if g.Has(kind) && ValueAt(g, kind) == value {
        var i :| 0 <= i < |lines| && Known(lines[i]) && KindOf(lines[i]) == kind;
      }
    }
    if !Silent(lines, kind) {
      var i :| 0 <= i < |lines| && KindOf(lines[i]) == kind;
      assert Known(lines[i]);
    }
    if g.Has(kind) {
      var i :| 0 <= i < |lines| && Known(lines[i]) && KindOf(lines[i]) == kind;
    }
  }

  /** The optional fields of a recipient group have the syntax of their kinds, and a retry time comes only with a
      delayed action. */
  ghost predicate OptionalOk(o: Oracles, lines: seq<octets>, action: octets) {
    && (forall v | States(lines, RemoteMta, v) :: TypedText(v, [], false).Some?)
    && (forall v | States(lines, DiagnosticCode, v) :: TypedText(v, [], true).Some?)
    && (forall v | States(lines, LastAttemptDate, v) :: o.date(v).Some?)
    && (forall v | States(lines, FinalLogId, v) :: UnfoldedText(v, true))
    && (forall v | States(lines, WillRetryUntil, v) :: o.date(v).Some? && EqualFold(action, "delayed"))
  }

  /** The lines state a recipient: the one final recipient, action and status, and the original recipient if there is
      one. */
  ghost predicate StatesRecipient(o: Oracles, lines: seq<octets>, r: Recipient) {
    && (exists v :: States(lines, FinalRecipient, v) && FinalPath(o, v) == Some(r.finalPath))
    && States(lines, Action, r.action) && ValidAction(r.action)
    && States(lines, Status, r.status) && ValidCode(r.status)
    && OptionalOk(o, lines, r.action)
    && if Silent(lines, OriginalRecipient) then r.originalPath.None? && r.originalRecipient == []
       else States(lines, OriginalRecipient, r.originalRecipient) && r.originalPath.Some?
            && OriginalPath(o, r.originalRecipient) == r.originalPath
  }

  lemma OptionalIff(o: Oracles, g: Group, lines: seq<octets>)
    requires Gathers(g, lines) && g.Has(Action)
    ensures OptionalOk(o, lines, ValueAt(g, Action)) <==>
      && OptionalTyped(g, RemoteMta, false) && OptionalTyped(g, DiagnosticCode, true)
      && OptionalDate(o, g, LastAttemptDate) && OptionalText(g, FinalLogId)
      && OptionalDate(o, g, WillRetryUntil)
      && (g.Has(WillRetryUntil) ==> EqualFold(ValueAt(g, Action), "delayed"))
  {
    hide Gathers, States, TypedText, UnfoldedText, EqualFold, ValueAt;
    GatheredIff(g, lines, RemoteMta);
    GatheredIff(g, lines, DiagnosticCode);
    GatheredIff(g, lines, LastAttemptDate);
    GatheredIff(g, lines, FinalLogId);
    GatheredIff(g, lines, WillRetryUntil);
  }

  lemma FinishedRecipient(o: Oracles, index: nat, g: Group, lines: seq<octets>, r: Recipient)
    requires index > 0 && Gathers(g, lines)
    ensures FinishRecipient(o, index, g) == Some(RecipientFacts(r)) <==>
      index <= MAX_RECIPIENTS && r.index == index && StatesRecipient(o, lines, r)
  {
    hide Gathers, States, Silent, FinalPath, OriginalPath, ValidAction, ValidCode, OptionalOk, ValueAt, EqualFold;
    hide OptionalTyped, OptionalDate, OptionalText;
    GatheredIff(g, lines, Action);
    GatheredIff(g, lines, Status);
    GatheredIff(g, lines, FinalRecipient);
    GatheredIff(g, lines, OriginalRecipient);
    if g.Has(Action) {
      OptionalIff(o, g, lines);
    }
  }

  /** A recipient group is accepted, with this recipient, exactly when its lines are distinct fields of such a group,
      not too many, and state that recipient. */
  lemma RecipientIff(o: Oracles, index: nat, lines: seq<octets>, r: Recipient)
    requires index > 0
    ensures GroupFacts(o, index, lines, Received) == Some(RecipientFacts(r)) <==>
      && 0 < |lines| <= MAX_GROUP_FIELDS && index <= MAX_RECIPIENTS && Admissible(index, lines)
      && r.index == index && StatesRecipient(o, lines, r)
  {
    hide Run, Admissible, StatesRecipient, FinishRecipient, FinishMessage;
    ReceivedRun(index, lines);
    if Run(index, lines, Received).Some? {
      var g := Run(index, lines, Received).value;
      FieldsCounted(g, lines);
      FinishedRecipient(o, index, g, lines, r);
    }
  }

  lemma FieldsCounted(g: Group, lines: seq<octets>)
    requires Gathers(g, lines)
    ensures g.fieldCount == |lines|
  {
  }

  /** The lines state the message facts: a reporting MTA, and the envelope ID and arrival date if there are any. */
  ghost predicate StatesMessage(o: Oracles, lines: seq<octets>, id: Option<octets>, arrival: Option<int>) {
    && (exists v :: States(lines, ReportingMta, v) && TypedText(v, [], false).Some?)
    && (forall v | States(lines, DsnGateway, v) :: TypedText(v, [], false).Some?)
    && (forall v | States(lines, ReceivedFromMta, v) :: TypedText(v, [], false).Some?)
    && (match id
        case None => Silent(lines, OriginalEnvelopeId)
        case Some(v) => States(lines, OriginalEnvelopeId, v) && UnfoldedText(v, true))
    && (match arrival
        case None => Silent(lines, ArrivalDate)
        case Some(_) => exists v :: States(lines, ArrivalDate, v) && o.date(v) == arrival)
  }

  lemma FinishedMessage(o: Oracles, g: Group, lines: seq<octets>, id: Option<octets>, arrival: Option<int>)
    requires Gathers(g, lines)
    ensures FinishMessage(o, g) == Some(MessageFacts(id, arrival)) <==> StatesMessage(o, lines, id, arrival)
  {
    hide Gathers, States, Silent, TypedText, UnfoldedText, ValueAt;
    GatheredIff(g, lines, ReportingMta);
    GatheredIff(g, lines, DsnGateway);
    GatheredIff(g, lines, ReceivedFromMta);
    GatheredIff(g, lines, OriginalEnvelopeId);
    GatheredIff(g, lines, ArrivalDate);
  }

  /** The message group is accepted, with these facts, exactly when its lines are distinct fields of such a group, not
      too many, and state those facts. */
  lemma MessageIff(o: Oracles, lines: seq<octets>, id: Option<octets>, arrival: Option<int>)
    ensures GroupFacts(o, 0, lines, Received) == Some(MessageFacts(id, arrival)) <==>
      0 < |lines| <= MAX_GROUP_FIELDS && Admissible(0, lines) && StatesMessage(o, lines, id, arrival)
  {
    hide Run, Admissible, StatesMessage, FinishRecipient, FinishMessage;
    ReceivedRun(0, lines);
    if Run(0, lines, Received).Some? {
      var g := Run(0, lines, Received).value;
      FieldsCounted(g, lines);
      FinishedMessage(o, g, lines, id, arrival);
    }
  }

  // ---- The whole report

  /** Groups of lines with one blank line between them. */
  function Separated(groups: seq<seq<octets>>): seq<octets> {
    if groups == [] then []
    else if |groups| == 1 then groups[0]
    else Separated(groups[..|groups| - 1]) + [[]] + groups[|groups| - 1]
  }

  predicate Filled(group: seq<octets>) {
    group != [] && forall i | 0 <= i < |group| :: group[i] != []
  }

  lemma {:induction false} PendingGrows(lines: seq<octets>, group: seq<octets>)
    requires forall i | 0 <= i < |group| :: group[i] != []
    ensures Grouped(lines + group) == Grouped(lines).(pending := Grouped(lines).pending + group)
  {
    hide Grouped;
    var pending := Grouped(lines).pending;
    if group == [] {
      assert lines + group == lines && pending + group == pending;
    } else {
      var init, last := group[..|group| - 1], group[|group| - 1];
      PendingGrows(lines, init);
      assert pending + group == (pending + init) + [last];
      assert lines + group == (lines + init) + [last];
      GroupedSnoc(lines + init, last);
    }
  }

  lemma SeparatedSnoc(groups: seq<seq<octets>>, last: seq<octets>)
    requires groups != []
    ensures Separated(groups + [last]) == Separated(groups) + [[]] + last
  {
    assert (groups + [last])[..|groups|] == groups;
  }

  lemma SeparatedOne(group: seq<octets>)
    ensures Separated([group]) == group && Grouped([]) == Grouping([], [])
  {
  }

  lemma {:induction false} GroupsSeparated(groups: seq<seq<octets>>)
    requires groups != [] && forall i | 0 <= i < |groups| :: Filled(groups[i])
    ensures Grouped(Separated(groups)) == Grouping(groups[..|groups| - 1], groups[|groups| - 1])
  {
    hide Grouped, Separated;
    var init, last := groups[..|groups| - 1], groups[|groups| - 1];
    assert Filled(last) && groups == init + [last];
    if init == [] {
      SeparatedOne(last);
      PendingGrows([], last);
      assert [] + last == last && groups == [last];
    } else {
      GroupsSeparated(init);
      SeparatedSnoc(init, last);
      GroupedSnoc(Separated(init), []);
      PendingGrows(Separated(init) + [[]], last);
      assert [] + last == last && init == init[..|init| - 1] + [init[|init| - 1]];
    }
  }

  /** Blank lines separate groups. */
  lemma GroupsRead(groups: seq<seq<octets>>)
    requires forall i | 0 <= i < |groups| :: Filled(groups[i])
    ensures Grouped(Separated(groups)).All() == groups
  {
    hide Grouped, Separated;
    if groups == [] {
      assert Separated([]) == [] && Grouped([]) == Grouping([], []) by {
        NothingRead();
      }
    } else {
      GroupsSeparated(groups);
      assert groups == groups[..|groups| - 1] + [groups[|groups| - 1]];
      assert Filled(groups[|groups| - 1]);
    }
  }

  lemma NothingRead()
    ensures Separated([]) == [] && Grouped([]) == Grouping([], [])
  {
  }

  /** The report states what its groups state: the message facts of the first, then one recipient per further group, in
      order. */
  ghost predicate StatesReport(o: Oracles, groups: seq<seq<octets>>, report: Report)
    requires |groups| >= 1
  {
    && GroupFacts(o, 0, groups[0], Received) == Some(MessageFacts(report.envelopeId, report.arrival))
    && |report.recipients| == |groups| - 1
    && forall i | 1 <= i < |groups| :: GroupFacts(o, i, groups[i], Received) == Some(RecipientFacts(report.recipients[i - 1]))
  }

  lemma FactsByIndex(o: Oracles, index: nat, lines: seq<octets>)
    requires GroupFacts(o, index, lines, Received).Some?
    ensures GroupFacts(o, index, lines, Received).value.MessageFacts? <==> index == 0
  {
    hide Run, RecipientValuesValid, FinalPath, OriginalPath, ValueAt, OptionalTyped, OptionalDate, OptionalText, TypedText;
  }

  lemma {:induction false} ReportStates(o: Oracles, groups: seq<seq<octets>>)
    requires |groups| >= 1 && forall i | 0 <= i < |groups| :: GroupFacts(o, i, groups[i], Received).Some?
    ensures StatesReport(o, groups, ReportOf(o, groups, Received))
  {
    hide GroupFacts;
    var init, last := groups[..|groups| - 1], groups[|groups| - 1];
    FactsByIndex(o, |init|, last);
    if init == [] {
      assert ReportOf(o, [], Received) == Report(None, None, []);
    } else {
      ReportStates(o, init);
    }
  }

  ghost predicate AllStated(o: Oracles, groups: seq<seq<octets>>) {
    forall i | 0 <= i < |groups| :: GroupFacts(o, i, groups[i], Received).Some?
  }

  lemma StatedAll(o: Oracles, groups: seq<seq<octets>>, report: Report)
    requires |groups| >= 1 && StatesReport(o, groups, report)
    ensures AllStated(o, groups)
  {
    hide GroupFacts;
  }

  lemma ParseSeparated(o: Oracles, groups: seq<seq<octets>>)
    requires forall i | 0 <= i < |groups| :: Filled(groups[i])
    ensures ParseLines(o, Separated(groups), Received) ==
      if StatusLines.LinesOk(Separated(groups)) && 2 <= |groups| <= MAX_RECIPIENTS + 1
         && Total(groups) <= MAX_TOTAL_FIELDS && AllStated(o, groups)
      then Some(ReportOf(o, groups, Received)) else None
  {
    hide GroupFacts, Grouped, Total, StatusLines.LinesOk, ReportOf, Separated, Filled, Grouping.All;
    GroupsRead(groups);
  }

  /** A received body of separated groups is accepted, with this report, exactly when its lines are not too long, its
      groups and fields not too many, and the groups state that report. */
  lemma ReportIff(o: Oracles, groups: seq<seq<octets>>, report: Report)
    requires forall i | 0 <= i < |groups| :: Filled(groups[i])
    ensures ParseLines(o, Separated(groups), Received) == Some(report) <==>
      && StatusLines.LinesOk(Separated(groups)) && 2 <= |groups| <= MAX_RECIPIENTS + 1
      && Total(groups) <= MAX_TOTAL_FIELDS && StatesReport(o, groups, report)
  {
    ParseSeparated(o, groups);
    if |groups| >= 1 {
      hide ParseLines, GroupFacts, Total, StatusLines.LinesOk, ReportOf, Separated, Filled, StatesReport;
      if AllStated(o, groups) {
        ReportStates(o, groups);
        SameReport(o, groups, report);
      }
      if StatesReport(o, groups, report) {
        StatedAll(o, groups, report);
      }
    }
  }

  lemma SameReport(o: Oracles, groups: seq<seq<octets>>, report: Report)
    requires |groups| >= 1 && StatesReport(o, groups, ReportOf(o, groups, Received))
    ensures StatesReport(o, groups, report) ==> report == ReportOf(o, groups, Received)
  {
    hide GroupFacts, ReportOf;
    if StatesReport(o, groups, report) {
      var other := ReportOf(o, groups, Received);
      forall i | 0 <= i < |report.recipients| ensures report.recipients[i] == other.recipients[i] {
        assert GroupFacts(o, i + 1, groups[i + 1], Received) == Some(RecipientFacts(report.recipients[i]));
      }
    }
  }
}
