/** RFC 3464 delivery-status bodies: the parser of all three profiles and what they agree on. */
module StatusReport {
  import opened Octets
  import opened RawMessage
  import opened StatusFields
  import opened StatusGroup
  import opened StatusLines

  /** Code outside this model: the canonical envelope path of an address in angle brackets, and the instant of an
      RFC 822 date-time. */
  datatype Oracles = Oracles(path: octets -> Option<octets>, date: octets -> Option<int>)

  datatype Recipient = Recipient(
    index: nat, finalPath: octets, originalPath: Option<octets>, originalRecipient: octets, action: octets,
    status: octets)

  /** What one group states. */
  datatype Facts = MessageFacts(envelopeId: Option<octets>, arrival: Option<int>) | RecipientFacts(recipient: Recipient)

  datatype Report = Report(envelopeId: Option<octets>, arrival: Option<int>, recipients: seq<Recipient>)

  const MAX_GROUP_FIELDS := 64
  const MAX_TOTAL_FIELDS := 2048
  const MAX_RECIPIENTS := 256

  // ---- One finished group

  function ValueAt(g: Group, kind: Kind): octets {
    if kind in g.values then g.values[kind] else []
  }

  predicate OptionalTyped(g: Group, kind: Kind, allowEmpty: bool) {
    g.Has(kind) ==> TypedText(ValueAt(g, kind), [], allowEmpty).Some?
  }

  predicate OptionalText(g: Group, kind: Kind) {
    g.Has(kind) ==> UnfoldedText(ValueAt(g, kind), true)
  }

  predicate OptionalDate(o: Oracles, g: Group, kind: Kind) {
    g.Has(kind) ==> o.date(ValueAt(g, kind)).Some?
  }

  function Bracketed(address: octets): octets {
    ['<'] + address + ['>']
  }

  function FinalPath(o: Oracles, value: octets): Option<octets> {
    match TypedText(value, "rfc822", false)
    case None => None
    case Some(address) => if UnfoldedText(address, false) then o.path(Bracketed(address)) else None
  }

  function OriginalPath(o: Oracles, value: octets): Option<octets> {
    match TypedText(value, "rfc822", false)
    case None => None
    case Some(encoded) =>
      match XText(encoded)
      case None => None
      case Some(address) => if UnfoldedText(address, false) then o.path(Bracketed(address)) else None
  }

  function FinishMessage(o: Oracles, g: Group): Option<Facts> {
    if !g.Mandatory(0) || !OptionalText(g, OriginalEnvelopeId) || !OptionalTyped(g, DsnGateway, false)
      || !OptionalTyped(g, ReceivedFromMta, false) || !OptionalDate(o, g, ArrivalDate)
      || TypedText(ValueAt(g, ReportingMta), [], false).None?
    then None
    else Some(MessageFacts(
      if g.Has(OriginalEnvelopeId) then Some(ValueAt(g, OriginalEnvelopeId)) else None,
      if g.Has(ArrivalDate) then o.date(ValueAt(g, ArrivalDate)) else None))
  }

  predicate RecipientValuesValid(o: Oracles, g: Group) {
    && ValidAction(ValueAt(g, Action)) && ValidCode(ValueAt(g, Status))
    && OptionalTyped(g, RemoteMta, false) && OptionalTyped(g, DiagnosticCode, true)
    && OptionalDate(o, g, LastAttemptDate) && OptionalText(g, FinalLogId)
    && OptionalDate(o, g, WillRetryUntil)
    && (g.Has(WillRetryUntil) ==> EqualFold(ValueAt(g, Action), "delayed"))
  }

  function FinishRecipient(o: Oracles, index: nat, g: Group): Option<Facts> {
    if index > MAX_RECIPIENTS || !g.Mandatory(index) || !RecipientValuesValid(o, g) then None
    else
      match FinalPath(o, ValueAt(g, FinalRecipient))
      case None => None
      case Some(finalPath) =>
        var recipient := Recipient(index, finalPath, None, [], ValueAt(g, Action), ValueAt(g, Status));
        if !g.Has(OriginalRecipient) then Some(RecipientFacts(recipient))
        else
          match OriginalPath(o, ValueAt(g, OriginalRecipient))
          case None => None
          case Some(path) =>
            Some(RecipientFacts(recipient.(
              originalPath := Some(path), originalRecipient := ValueAt(g, OriginalRecipient))))
  }

  function Finish(o: Oracles, index: nat, g: Group, profile: Profile): Option<Facts> {
    if g.fieldCount == 0 || (profile == Postfix && !PostfixExtra(g, index)) then None
    else if index == 0 then FinishMessage(o, g) else FinishRecipient(o, index, g)
  }

  predicate PostfixExtra(g: Group, index: nat) {
    if index == 0 then g.queueId != [] else g.Has(DiagnosticCode)
  }

  // ---- Groups of lines

  /** The groups ended by a blank line, and the lines after the last blank line. */
  datatype Grouping = Grouping(complete: seq<seq<octets>>, pending: seq<octets>) {
    function All(): seq<seq<octets>> {
      if pending == [] then complete else complete + [pending]
    }
  }

  function Grouped(lines: seq<octets>): Grouping {
    if lines == [] then Grouping([], [])
    else
      var init := Grouped(lines[..|lines| - 1]);
      var line := lines[|lines| - 1];
      if line == [] then Grouping(init.complete + [init.pending], [])
      else init.(pending := init.pending + [line])
  }

  function Total(groups: seq<seq<octets>>): nat {
    if groups == [] then 0 else Total(groups[..|groups| - 1]) + |groups[|groups| - 1]|
  }

  /** The facts of one group of lines, if the profile accepts it. */
  function GroupFacts(o: Oracles, index: nat, lines: seq<octets>, profile: Profile): Option<Facts> {
    if |lines| > MAX_GROUP_FIELDS then None
    else
      match Run(index, lines, profile)
      case None => None
      case Some(g) => Finish(o, index, g, profile)
  }

  ghost predicate Accepted(o: Oracles, groups: seq<seq<octets>>, profile: Profile) {
    && 2 <= |groups| <= MAX_RECIPIENTS + 1 && Total(groups) <= MAX_TOTAL_FIELDS
    && forall i | 0 <= i < |groups| :: GroupFacts(o, i, groups[i], profile).Some?
  }

  /** The report of the groups read so far. */
  function ReportOf(o: Oracles, groups: seq<seq<octets>>, profile: Profile): Report {
    if groups == [] then Report(None, None, [])
    else
      var before := ReportOf(o, groups[..|groups| - 1], profile);
      match GroupFacts(o, |groups| - 1, groups[|groups| - 1], profile)
      case None => before
      case Some(MessageFacts(envelopeId, arrival)) => before.(envelopeId := envelopeId, arrival := arrival)
      case Some(RecipientFacts(recipient)) => before.(recipients := before.recipients + [recipient])
  }

  ghost function ParseLines(o: Oracles, lines: seq<octets>, profile: Profile): Option<Report> {
    var groups := Grouped(lines).All();
    if LinesOk(lines) && Accepted(o, groups, profile) then Some(ReportOf(o, groups, profile)) else None
  }

  /** The report of a body under a profile, if the profile accepts the body. */
  ghost function ParseBody(o: Oracles, body: octets, profile: Profile): Option<Report> {
    if body == [] || |body| > MAX_BODY then None
    else if profile == Postfix then
      match Unfolded(body)
      case None => None
      case Some(unfolded) => ParseLines(o, Lines(unfolded), Postfix)
    else ParseLines(o, Lines(body), profile)
  }

  // ---- Reading more lines only extends the groups

  ghost predicate Extends(a: Grouping, b: Grouping) {
    && |a.complete| <= |b.complete| && b.complete[..|a.complete|] == a.complete
    && if |b.complete| == |a.complete| then a.pending <= b.pending else a.pending <= b.complete[|a.complete|]
  }

  lemma {:induction false} GroupedExtends(lines: seq<octets>, rest: seq<octets>)
    ensures Extends(Grouped(lines), Grouped(lines + rest))
    decreases |rest|
  {
    if rest == [] {
      assert lines + rest == lines;
    } else {
      var init := rest[..|rest| - 1];
      GroupedExtends(lines, init);
      assert (lines + rest)[..|lines + rest| - 1] == lines + init;
    }
  }

  lemma GroupedSnoc(lines: seq<octets>, line: octets)
    ensures var before, after := Grouped(lines), Grouped(lines + [line]);
      after == if line == [] then Grouping(before.complete + [before.pending], [])
               else before.(pending := before.pending + [line])
  {
    assert (lines + [line])[..|lines|] == lines;
  }

  lemma TotalSnoc(groups: seq<seq<octets>>, group: seq<octets>)
    ensures Total(groups + [group]) == Total(groups) + |group|
  {
    assert (groups + [group])[..|groups|] == groups;
  }

  lemma {:induction false} TotalPrefix(groups: seq<seq<octets>>, i: nat)
    requires i <= |groups|
    ensures Total(groups[..i]) <= Total(groups)
    decreases |groups|
  {
    if i == |groups| {
      assert groups[..i] == groups;
    } else {
      TotalPrefix(groups[..|groups| - 1], i);
      assert groups[..|groups| - 1][..i] == groups[..i];
    }
  }

  lemma {:induction false} RunCount(index: nat, lines: seq<octets>, profile: Profile)
    requires Run(index, lines, profile).Some?
    ensures Run(index, lines, profile).value.fieldCount == |lines|
  {
    hide Parsed, Rank, Atom, TypedText, EqualFold, HasPrefix, HasSuffix;
    if lines != [] {
      RunCount(index, lines[..|lines| - 1], profile);
    }
  }

  /** The final groups after `lines` and `rest`: the complete ones so far, then one that starts with the pending
      lines, if there are any. */
  lemma FinalGroups(lines: seq<octets>, rest: seq<octets>)
    ensures var now, all := Grouped(lines), Grouped(lines + rest).All();
      && |now.complete| <= |all| && all[..|now.complete|] == now.complete
      && (now.pending != [] ==> |now.complete| < |all| && now.pending <= all[|now.complete|])
  {
    GroupedExtends(lines, rest);
  }

  lemma RejectsLine(o: Oracles, profile: Profile, lines: seq<octets>, i: nat)
    requires i < |lines| && !LineOk(lines[i])
    ensures ParseLines(o, lines, profile) == None
  {
    hide LineOk, Accepted;
  }

  lemma RejectsGroup(o: Oracles, profile: Profile, lines: seq<octets>, rest: seq<octets>, i: nat)
    requires i < |Grouped(lines).complete| && GroupFacts(o, i, Grouped(lines).complete[i], profile).None?
    ensures ParseLines(o, lines + rest, profile) == None
  {
    hide GroupFacts, Grouped, LinesOk;
    FinalGroups(lines, rest);
    var all := Grouped(lines + rest).All();
    assert all[..|Grouped(lines).complete|][i] == all[i];
  }

  lemma RejectsPending(o: Oracles, profile: Profile, lines: seq<octets>, rest: seq<octets>)
    requires Grouped(lines).pending != []
    requires var now := Grouped(lines);
      || Run(|now.complete|, now.pending, profile).None? || |now.pending| > MAX_GROUP_FIELDS
      || Total(now.complete) + |now.pending| > MAX_TOTAL_FIELDS
    ensures ParseLines(o, lines + rest, profile) == None
  {
    hide Grouped, LinesOk, Finish, Run;
    FinalGroups(lines, rest);
    var now, all := Grouped(lines), Grouped(lines + rest).All();
    var index := |now.complete|;
    var group := all[index];
    assert group[..|now.pending|] == now.pending && all[..index] == now.complete;
    if Run(index, group, profile).Some? {
      RunPrefix(index, group, |now.pending|, profile);
    }
    TotalPrefix(all, index + 1);
    assert all[..index + 1] == all[..index] + [group];
    TotalSnoc(all[..index], group);
  }

  // ---- The parsing loop

  /** The parser's variables after the lines `done`. */
  ghost predicate Parsing(o: Oracles, profile: Profile, done: seq<octets>, report: Report, groupIndex: nat,
                          totalFields: nat, g: Group) {
    var now := Grouped(done);
    && LinesOk(done) && groupIndex == |now.complete|
    && totalFields == Total(now.complete) + |now.pending| <= MAX_TOTAL_FIELDS && |now.pending| <= MAX_GROUP_FIELDS
    && Run(groupIndex, now.pending, profile) == Some(g)
    && report == ReportOf(o, now.complete, profile)
    && forall i | 0 <= i < |now.complete| :: GroupFacts(o, i, now.complete[i], profile).Some?
  }

  function Updated(report: Report, facts: Facts): Report {
    match facts
    case MessageFacts(envelopeId, arrival) => report.(envelopeId := envelopeId, arrival := arrival)
    case RecipientFacts(recipient) => report.(recipients := report.recipients + [recipient])
  }

  lemma ParsingStart(o: Oracles, profile: Profile)
    ensures Parsing(o, profile, [], Report(None, None, []), 0, 0, EMPTY)
  {
  }

  lemma ReportSnoc(o: Oracles, groups: seq<seq<octets>>, group: seq<octets>, profile: Profile)
    ensures ReportOf(o, groups + [group], profile) ==
      match GroupFacts(o, |groups|, group, profile)
      case None => ReportOf(o, groups, profile)
      case Some(facts) => Updated(ReportOf(o, groups, profile), facts)
  {
    hide GroupFacts;
    assert (groups + [group])[..|groups|] == groups;
  }

  lemma ParsingBlank(o: Oracles, profile: Profile, done: seq<octets>, report: Report, groupIndex: nat,
                     totalFields: nat, g: Group)
    requires Parsing(o, profile, done, report, groupIndex, totalFields, g)
    requires Finish(o, groupIndex, g, profile).Some?
    ensures Parsing(o, profile, done + [[]], Updated(report, Finish(o, groupIndex, g, profile).value),
                    groupIndex + 1, totalFields, EMPTY)
  {
    hide Finish, Run, Grouped, Total, ReportOf;
    var now := Grouped(done);
    GroupedSnoc(done, []);
    TotalSnoc(now.complete, now.pending);
    ReportSnoc(o, now.complete, now.pending, profile);
    RunEmpty(groupIndex + 1, profile);
  }

  lemma ParsingField(o: Oracles, profile: Profile, done: seq<octets>, report: Report, groupIndex: nat,
                     totalFields: nat, g: Group, line: octets)
    requires Parsing(o, profile, done, report, groupIndex, totalFields, g)
    requires LineOk(line) && line != [] && Step(g, groupIndex, line, profile).Some?
    requires |Grouped(done).pending| < MAX_GROUP_FIELDS && totalFields < MAX_TOTAL_FIELDS
    ensures Parsing(o, profile, done + [line], report, groupIndex, totalFields + 1,
                    Step(g, groupIndex, line, profile).value)
  {
    hide GroupFacts, Grouped, Total, ReportOf, LineOk, Step, Run;
    GroupedSnoc(done, line);
    RunSnoc(groupIndex, Grouped(done).pending, line, profile);
  }

  lemma FieldRefused(o: Oracles, profile: Profile, done: seq<octets>, report: Report, groupIndex: nat,
                     totalFields: nat, g: Group, line: octets, rest: seq<octets>)
    requires Parsing(o, profile, done, report, groupIndex, totalFields, g) && line != []
    requires Step(g, groupIndex, line, profile).None? || g.fieldCount + 1 > MAX_GROUP_FIELDS
      || totalFields + 1 > MAX_TOTAL_FIELDS
    ensures ParseLines(o, done + [line] + rest, profile) == None
  {
    hide GroupFacts, Grouped, Total, ReportOf, LineOk, Step, Run, ParseLines;
    GroupedSnoc(done, line);
    RunSnoc(groupIndex, Grouped(done).pending, line, profile);
    RunCount(groupIndex, Grouped(done).pending, profile);
    RejectsPending(o, profile, done + [line], rest);
  }

  lemma BlankRefused(o: Oracles, profile: Profile, done: seq<octets>, report: Report, groupIndex: nat,
                     totalFields: nat, g: Group, rest: seq<octets>)
    requires Parsing(o, profile, done, report, groupIndex, totalFields, g)
    requires Finish(o, groupIndex, g, profile).None?
    ensures ParseLines(o, done + [[]] + rest, profile) == None
  {
    hide Grouped, Total, ReportOf, Finish, Run, ParseLines;
    GroupedSnoc(done, []);
    RejectsGroup(o, profile, done + [[]], rest, groupIndex);
  }

  /** One line: a blank one finishes the group, any other is added to it. */
  method ParseLine(o: Oracles, profile: Profile, line: octets, group: FieldGroup, report: Report, groupIndex: nat,
                   totalFields: nat, ghost done: seq<octets>, ghost rest: seq<octets>)
    returns (ok: bool, report': Report, groupIndex': nat, totalFields': nat)
    requires Parsing(o, profile, done, report, groupIndex, totalFields, group.Value())
    modifies group
    ensures ok ==> Parsing(o, profile, done + [line], report', groupIndex', totalFields', group.Value())
    ensures !ok ==> ParseLines(o, done + [line] + rest, profile) == None
  {
    hide Parsing, LineOk, Finish, Step, ParseLines;
    ok, report', groupIndex', totalFields' := false, report, groupIndex, totalFields;
    ghost var g := group.Value();
    if |line| > MAX_LINE || '\r' in line || '\n' in line {
      RefusedLine(o, profile, done, line, rest);
      return;
    }
    AcceptedLine(line);
    if line == [] {
      var facts := Finish(o, groupIndex, group.Value(), profile);
      if facts.None? {
        BlankRefused(o, profile, done, report, groupIndex, totalFields, g, rest);
        return;
      }
      ParsingBlank(o, profile, done, report, groupIndex, totalFields, g);
      group.Clear();
      return true, Updated(report, facts.value), groupIndex + 1, totalFields;
    }
    if IsWsp(line[0]) {
      FoldRefused(g, groupIndex, line, profile);
      FieldRefused(o, profile, done, report, groupIndex, totalFields, g, line, rest);
      return;
    }
    var added := group.Add(groupIndex, line, profile);
    if !added {
      FieldRefused(o, profile, done, report, groupIndex, totalFields, g, line, rest);
      return;
    }
    StepCount(g, groupIndex, line, profile);
    totalFields' := totalFields + 1;
    if group.fieldCount > MAX_GROUP_FIELDS || totalFields' > MAX_TOTAL_FIELDS {
      FieldRefused(o, profile, done, report, groupIndex, totalFields, g, line, rest);
      return;
    }
    PendingCount(o, profile, done, report, groupIndex, totalFields, g);
    ParsingField(o, profile, done, report, groupIndex, totalFields, g, line);
    ok := true;
  }

  lemma RefusedLine(o: Oracles, profile: Profile, done: seq<octets>, line: octets, rest: seq<octets>)
    requires |line| > MAX_LINE || '\r' in line || '\n' in line
    ensures ParseLines(o, done + [line] + rest, profile) == None
  {
    hide ParseLines;
    assert (done + [line] + rest)[|done|] == line;
    RejectsLine(o, profile, done + [line] + rest, |done|);
  }

  lemma AcceptedLine(line: octets)
    requires |line| <= MAX_LINE && '\r' !in line && '\n' !in line
    ensures LineOk(line)
  {
  }

  lemma PendingCount(o: Oracles, profile: Profile, done: seq<octets>, report: Report, groupIndex: nat,
                     totalFields: nat, g: Group)
    requires Parsing(o, profile, done, report, groupIndex, totalFields, g)
    ensures |Grouped(done).pending| == g.fieldCount
  {
    hide Grouped, Run, Total;
    RunCount(groupIndex, Grouped(done).pending, profile);
  }

  lemma StepCount(g: Group, index: nat, line: octets, profile: Profile)
    requires Step(g, index, line, profile).Some?
    ensures Step(g, index, line, profile).value.fieldCount == g.fieldCount + 1
  {
    hide Parsed, Rank, Atom, TypedText, EqualFold, HasPrefix, HasSuffix;
  }

  /** A field name starts with no WSP, so no profile admits a folded line. */
  lemma FoldRefused(g: Group, index: nat, line: octets, profile: Profile)
    requires line != [] && IsWsp(line[0])
    ensures Step(g, index, line, profile).None?
  {
    var colon := IndexByte(line, ':');
    if colon.Some? && colon.value >= 1 {
      assert !FieldNameChar(line[..colon.value][0]);
    }
  }

  method ParseText(o: Oracles, body: octets, profile: Profile) returns (r: Option<Report>)
    ensures r == ParseLines(o, Lines(body), profile)
  {
    hide Parsing, Lines, Finish, ParseLines;
    var group := new FieldGroup();
    var report := Report(None, None, []);
    var groupIndex, totalFields, position := 0, 0, 0;
    ghost var done: seq<octets> := [];
    ParsingStart(o, profile);
    assert body[0..] == body;
    assert [] + Lines(body) == Lines(body);
    while position < |body|
      invariant position <= |body| && (position < |body| ==> LineStart(body, position))
      invariant Lines(body) == done + Lines(body[position..])
      invariant Parsing(o, profile, done, report, groupIndex, totalFields, group.Value())
    {
      var line, next, ended := ReadLine(body, position);
      ghost var rest := Lines(body[next..]);
      assert done + ([line] + rest) == done + [line] + rest;
      var ok;
      ok, report, groupIndex, totalFields :=
        ParseLine(o, profile, line, group, report, groupIndex, totalFields, done, rest);
      if !ok {
        return None;
      }
      done := done + [line];
      position := next;
    }
    LinesOfNothing(body);
    assert done + [] == done;
    r := FinishReport(o, profile, group, report, groupIndex, totalFields, done);
  }

  method FinishReport(o: Oracles, profile: Profile, group: FieldGroup, report: Report, groupIndex: nat,
                      ghost totalFields: nat, ghost done: seq<octets>)
    returns (r: Option<Report>)
    requires Parsing(o, profile, done, report, groupIndex, totalFields, group.Value())
    ensures r == ParseLines(o, done, profile)
  {
    hide Grouped, ReportOf, Finish, Run, Total;
    ghost var now := Grouped(done);
    PendingCount(o, profile, done, report, groupIndex, totalFields, group.Value());
    var final, count := report, groupIndex;
    if group.fieldCount > 0 {
      var facts := Finish(o, groupIndex, group.Value(), profile);
      TotalSnoc(now.complete, now.pending);
      ReportSnoc(o, now.complete, now.pending, profile);
      if facts.None? {
        assert now.All()[groupIndex] == now.pending;
        return None;
      }
      final, count := Updated(report, facts.value), groupIndex + 1;
    }
    if count < 2 || count - 1 > MAX_RECIPIENTS {
      return None;
    }
    return Some(final);
  }

  method ParseDeliveryStatusBody(o: Oracles, body: octets, profile: Profile) returns (r: Option<Report>)
    ensures r == ParseBody(o, body, profile)
  {
    if body == [] || |body| > MAX_BODY {
      return None;
    }
    var text := body;
    if profile == Postfix {
      var unfolded := UnfoldPostfix(body);
      if unfolded.None? {
        return None;
      }
      text := unfolded.value;
    }
    r := ParseText(o, text, profile);
  }

  // ---- What the profiles agree on

  /** A group that a profile finishes depends on its values alone, and on the Postfix extras under Postfix. */
  lemma FinishBySameFields(o: Oracles, index: nat, g: Group, h: Group)
    requires SameFields(g, h)
    ensures Finish(o, index, g, Received) == Finish(o, index, h, Received)
    ensures Finish(o, index, g, Strict) == Finish(o, index, h, Received)
    ensures Finish(o, index, g, Postfix) == if PostfixExtra(g, index) then Finish(o, index, h, Received) else None
  {
    hide TypedText, UnfoldedText, ValidAction, ValidCode, EqualFold, XText;
  }

  lemma FinishedMandatory(o: Oracles, index: nat, g: Group, profile: Profile)
    requires Finish(o, index, g, profile).Some?
    ensures g.Mandatory(index)
  {
    hide OptionalTyped, OptionalText, OptionalDate, RecipientValuesValid, FinalPath, OriginalPath, TypedText;
  }

  lemma {:induction false} ReportBySameFacts(
    o: Oracles, a: seq<seq<octets>>, p: Profile, b: seq<seq<octets>>, q: Profile)
    requires |a| == |b|
    requires forall i | 0 <= i < |a| :: GroupFacts(o, i, a[i], p) == GroupFacts(o, i, b[i], q)
    ensures ReportOf(o, a, p) == ReportOf(o, b, q)
  {
    hide GroupFacts;
    if a != [] {
      var n := |a| - 1;
      assert forall i | 0 <= i < n :: a[..n][i] == a[i] && b[..n][i] == b[i];
      ReportBySameFacts(o, a[..n], p, b[..n], q);
    }
  }

  // Received ignores the order of lines inside groups

  /** The same groups, up to the order of the lines inside each. */
  ghost predicate SameUpToOrder(a: seq<seq<octets>>, b: seq<seq<octets>>) {
    |a| == |b| && forall i | 0 <= i < |a| :: multiset(a[i]) == multiset(b[i])
  }

  lemma PermutedFacts(o: Oracles, index: nat, a: seq<octets>, b: seq<octets>)
    requires multiset(a) == multiset(b)
    ensures GroupFacts(o, index, a, Received) == GroupFacts(o, index, b, Received)
  {
    hide Run, Finish;
    assert |multiset(a)| == |a| && |multiset(b)| == |b|;
    ReceivedPermuted(index, a, b);
    if Run(index, a, Received).Some? {
      FinishBySameFields(o, index, Run(index, a, Received).value, Run(index, b, Received).value);
    }
  }

  lemma {:induction false} TotalPermuted(a: seq<seq<octets>>, b: seq<seq<octets>>)
    requires SameUpToOrder(a, b)
    ensures Total(a) == Total(b)
  {
    if a != [] {
      var n := |a| - 1;
      assert |multiset(a[n])| == |a[n]| && |multiset(b[n])| == |b[n]|;
      assert forall i | 0 <= i < n :: a[..n][i] == a[i] && b[..n][i] == b[i];
      TotalPermuted(a[..n], b[..n]);
    }
  }

  ghost predicate GroupsOk(groups: seq<seq<octets>>) {
    forall i | 0 <= i < |groups| :: LinesOk(groups[i])
  }

  lemma {:induction false} LinesOkByGroups(lines: seq<octets>)
    ensures LinesOk(lines) <==> GroupsOk(Grouped(lines).complete) && LinesOk(Grouped(lines).pending)
  {
    hide LineOk;
    if lines != [] {
      var init, line := lines[..|lines| - 1], lines[|lines| - 1];
      LinesOkByGroups(init);
      assert lines == init + [line];
      GroupedSnoc(init, line);
      LinesOkSnoc(init, line);
      LinesOkSnoc(Grouped(init).pending, line);
      GroupsOkSnoc(Grouped(init).complete, Grouped(init).pending);
      BlankOk();
    }
  }

  lemma BlankOk()
    ensures LineOk([])
  {
  }

  lemma LinesOkSnoc(lines: seq<octets>, line: octets)
    ensures LinesOk(lines + [line]) <==> LinesOk(lines) && LineOk(line)
  {
    hide LineOk;
    var all := lines + [line];
    assert all[|lines|] == line && forall i | 0 <= i < |lines| :: all[i] == lines[i];
  }

  lemma GroupsOkSnoc(groups: seq<seq<octets>>, group: seq<octets>)
    ensures GroupsOk(groups + [group]) <==> GroupsOk(groups) && LinesOk(group)
  {
    hide LinesOk;
    var all := groups + [group];
    assert all[|groups|] == group && forall i | 0 <= i < |groups| :: all[i] == groups[i];
  }

  lemma LinesOkByAll(lines: seq<octets>)
    ensures LinesOk(lines) <==> GroupsOk(Grouped(lines).All())
  {
    hide LineOk, Grouped;
    LinesOkByGroups(lines);
    GroupsOkSnoc(Grouped(lines).complete, Grouped(lines).pending);
  }

  lemma GroupsOkPermuted(a: seq<seq<octets>>, b: seq<seq<octets>>)
    requires SameUpToOrder(a, b) && GroupsOk(a)
    ensures GroupsOk(b)
  {
    hide LineOk;
    forall i | 0 <= i < |b| ensures LinesOk(b[i]) {
      forall j | 0 <= j < |b[i]| ensures LineOk(b[i][j]) {
        assert b[i][j] in multiset(a[i]);
        var k :| 0 <= k < |a[i]| && a[i][k] == b[i][j];
        assert LinesOk(a[i]);
      }
    }
  }

  lemma AcceptedPermuted(o: Oracles, a: seq<seq<octets>>, b: seq<seq<octets>>)
    requires SameUpToOrder(a, b)
    ensures Accepted(o, a, Received) <==> Accepted(o, b, Received)
    ensures ReportOf(o, a, Received) == ReportOf(o, b, Received)
  {
    hide GroupFacts, ReportOf;
    TotalPermuted(a, b);
    forall i | 0 <= i < |a| ensures GroupFacts(o, i, a[i], Received) == GroupFacts(o, i, b[i], Received) {
      PermutedFacts(o, i, a[i], b[i]);
    }
    ReportBySameFacts(o, a, Received, b, Received);
  }

  /** The Received profile ignores line order: permuting the lines inside any group changes neither acceptance nor
      the envelope ID, arrival and recipient facts. */
  lemma ReceivedIgnoresOrder(o: Oracles, a: octets, b: octets)
    requires 0 < |a| <= MAX_BODY && 0 < |b| <= MAX_BODY
    requires SameUpToOrder(Grouped(Lines(a)).All(), Grouped(Lines(b)).All())
    ensures ParseBody(o, a, Received) == ParseBody(o, b, Received)
  {
    hide Accepted, ReportOf, Grouped, Lines, LinesOk, GroupsOk;
    var x, y := Grouped(Lines(a)).All(), Grouped(Lines(b)).All();
    LinesOkByAll(Lines(a));
    LinesOkByAll(Lines(b));
    if GroupsOk(x) {
      GroupsOkPermuted(x, y);
    }
    if GroupsOk(y) {
      GroupsOkPermuted(y, x);
    }
    AcceptedPermuted(o, x, y);
  }

  // Strict and Postfix refine Received

  /** The order a profile pins inside a group: the ABNF sequence, the Postfix sequence, or none. */
  ghost predicate InForm(profile: Profile, index: nat, lines: seq<octets>) {
    match profile
    case Strict => Ordered(index, lines)
    case Postfix => PostfixSequence(index, lines)
    case Received => true
  }

  ghost predicate AllInForm(profile: Profile, groups: seq<seq<octets>>) {
    forall i | 0 <= i < |groups| :: InForm(profile, i, groups[i])
  }

  lemma StrictFacts(o: Oracles, index: nat, lines: seq<octets>)
    ensures GroupFacts(o, index, lines, Strict) ==
      if Ordered(index, lines) then GroupFacts(o, index, lines, Received) else None
  {
    hide Run, Finish, Ordered;
    if Run(index, lines, Strict).Some? {
      var g := Run(index, lines, Strict).value;
      StrictRunReceived(index, lines);
      StrictRunOrdered(index, lines);
      FinishBySameFields(o, index, g, g);
    } else if Run(index, lines, Received).Some? {
      var g := Run(index, lines, Received).value;
      FinishBySameFields(o, index, g, g);
      if Finish(o, index, g, Received).Some? {
        FinishedMandatory(o, index, g, Received);
        StrictIff(index, lines, g);
      }
    }
  }

  lemma PostfixFacts(o: Oracles, index: nat, lines: seq<octets>)
    ensures GroupFacts(o, index, lines, Postfix) ==
      if PostfixSequence(index, lines) then GroupFacts(o, index, lines, Received) else None
  {
    hide Run, Finish, PostfixSequence;
    PostfixIff(index, lines);
    if Run(index, lines, Postfix).Some? {
      var g := Run(index, lines, Postfix).value;
      PostfixRunReceived(index, lines);
      FinishBySameFields(o, index, g, Run(index, lines, Received).value);
      if Finish(o, index, g, Postfix).Some? {
        FinishedMandatory(o, index, g, Postfix);
      }
      if PostfixExtra(g, index) && Finish(o, index, g, Received).Some? {
        FinishedMandatory(o, index, Run(index, lines, Received).value, Received);
      }
    }
  }

  lemma FactsInForm(o: Oracles, profile: Profile, index: nat, lines: seq<octets>)
    ensures GroupFacts(o, index, lines, profile) ==
      if InForm(profile, index, lines) then GroupFacts(o, index, lines, Received) else None
  {
    hide GroupFacts, Ordered, PostfixSequence;
    StrictFacts(o, index, lines);
    PostfixFacts(o, index, lines);
  }

  lemma AcceptedIff(o: Oracles, profile: Profile, groups: seq<seq<octets>>)
    ensures Accepted(o, groups, profile) <==> Accepted(o, groups, Received) && AllInForm(profile, groups)
    ensures Accepted(o, groups, profile) ==> ReportOf(o, groups, profile) == ReportOf(o, groups, Received)
  {
    hide GroupFacts, ReportOf, InForm;
    forall i | 0 <= i < |groups|
      ensures GroupFacts(o, i, groups[i], profile).Some?
         <==> InForm(profile, i, groups[i]) && GroupFacts(o, i, groups[i], Received).Some?
      ensures InForm(profile, i, groups[i]) ==>
        GroupFacts(o, i, groups[i], profile) == GroupFacts(o, i, groups[i], Received)
    {
      FactsInForm(o, profile, i, groups[i]);
    }
    if Accepted(o, groups, profile) {
      ReportBySameFacts(o, groups, profile, groups, Received);
    }
  }

  lemma ParseLinesIff(o: Oracles, profile: Profile, lines: seq<octets>)
    ensures ParseLines(o, lines, profile) ==
      if AllInForm(profile, Grouped(lines).All()) then ParseLines(o, lines, Received) else None
  {
    hide AllInForm, Accepted, ReportOf, Grouped, LinesOk;
    AcceptedIff(o, profile, Grouped(lines).All());
  }

  /** Strict accepts a body exactly when Received does and every group stands in ABNF order with its extensions
      last; both read the same report. */
  lemma StrictBodyIff(o: Oracles, body: octets)
    ensures ParseBody(o, body, Strict) ==
      if AllInForm(Strict, Grouped(Lines(body)).All()) then ParseBody(o, body, Received) else None
  {
    hide AllInForm, ParseLines, Grouped, Lines;
    ParseLinesIff(o, Strict, Lines(body));
  }

  /** Postfix accepts a body exactly when it unfolds to a body that Received accepts and whose groups all stand in
      the Postfix sequence; both read the same report. */
  lemma PostfixBodyIff(o: Oracles, body: octets)
    ensures ParseBody(o, body, Postfix) ==
      match Unfolded(body)
      case None => None
      case Some(text) =>
        if AllInForm(Postfix, Grouped(Lines(text)).All()) then ParseBody(o, text, Received) else None
  {
    hide AllInForm, ParseLines, Grouped, Lines, UnfoldLines, Written;
    if Unfolded(body).Some? {
      UnfoldedWithin(body);
      ParseLinesIff(o, Postfix, Lines(Unfolded(body).value));
    }
  }
}
