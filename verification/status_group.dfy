/** The RFC 3464 field-group state machine and its three profiles. */
module StatusGroup {
  import opened Octets
  import opened StatusFields
  import opened Sorting

  /** Strict pins the ABNF order of a group and the extension tail; Received takes any order; Postfix takes the
      exact field sequence of Postfix bounces. */
  datatype Profile = Strict | Received | Postfix

  /** The state of a group. The keys of `values` are the known fields seen. */
  datatype Group = Group(
    fieldCount: nat, values: map<Kind, octets>, lastRank: nat, extensionStarted: bool,
    mailName: octets, queueId: octets, sender: octets)
  {
    predicate Has(kind: Kind) {
      kind in values
    }

    predicate Mandatory(index: nat) {
      if index == 0 then Has(ReportingMta) else Has(FinalRecipient) && Has(Action) && Has(Status)
    }

    predicate Prerequisites(index: nat, kind: Kind) {
      if index == 0 then kind == OriginalEnvelopeId || kind == ReportingMta || Has(ReportingMta)
      else
        match kind
        case OriginalRecipient => true
        case FinalRecipient => true
        case Action => Has(FinalRecipient)
        case Status => Has(Action)
        case _ => Has(Status)
    }

    function With(kind: Kind, rank: nat, value: octets): Group {
      this.(fieldCount := fieldCount + 1, values := values[kind := value], lastRank := rank)
    }
  }

  const EMPTY := Group(0, map[], 0, false, [], [], [])

  datatype FieldLine = FieldLine(name: octets, kind: Kind, value: octets)

  function Parsed(line: octets): Option<FieldLine> {
    match IndexByte(line, ':')
    case None => None
    case Some(colon) =>
      if colon < 1 || !ValidFieldName(line[..colon]) then None
      else Some(FieldLine(line[..colon], Classify(line[..colon]), Trim(line[colon + 1..])))
  }

  // ---- One field

  function StepOrdered(g: Group, index: nat, f: FieldLine, anyOrder: bool): Option<Group> {
    match Rank(index, f.kind)
    case None => None
    case Some(rank) =>
      if f.kind == Extension then
        if !anyOrder && !g.Mandatory(index) then None
        else Some(g.(extensionStarted := true, fieldCount := g.fieldCount + 1))
      else if g.Has(f.kind) then None
      else if !anyOrder
        && (g.extensionStarted || (g.fieldCount > 0 && rank < g.lastRank) || !g.Prerequisites(index, f.kind)) then None
      else Some(g.With(f.kind, rank, f.value))
  }

  function PostfixRank(index: nat, kind: Kind): Option<nat> {
    if index == 0 then
      match kind
      case ReportingMta => Some(0)
      case OriginalEnvelopeId => Some(1)
      case ArrivalDate => Some(4)
      case _ => None
    else
      match kind
      case FinalRecipient => Some(0)
      case OriginalRecipient => Some(1)
      case Action => Some(2)
      case Status => Some(3)
      case RemoteMta => Some(4)
      case DiagnosticCode => Some(5)
      case WillRetryUntil => Some(6)
      case _ => None
  }

  predicate PostfixMisplaced(g: Group, index: nat, kind: Kind, rank: nat) {
    if index == 0 then
      (kind == ReportingMta && g.fieldCount != 0) || (kind == OriginalEnvelopeId && !g.Has(ReportingMta))
      || (kind == ArrivalDate && g.queueId == [])
    else
      (kind == FinalRecipient && g.fieldCount != 0) || (kind == OriginalRecipient && !g.Has(FinalRecipient))
      || (kind == Action && !g.Has(FinalRecipient)) || (kind == Status && !g.Has(Action))
      || (rank >= 4 && !g.Has(Status))
  }

  const QUEUE_SUFFIX: octets := "-queue-id"
  const SENDER_SUFFIX: octets := "-sender"

  predicate HasSuffix(name: octets, suffix: octets) {
    |name| > 2 + |suffix| && EqualFold(name[|name| - |suffix|..], suffix)
  }

  function Middle(name: octets, suffix: octets): octets
    requires HasSuffix(name, suffix)
  {
    name[2..|name| - |suffix|]
  }

  predicate HasPrefix(name: octets) {
    |name| >= 2 && EqualFold(name[..2], "x-")
  }

  function StepPostfixExtension(g: Group, f: FieldLine): Option<Group> {
    if !HasPrefix(f.name) || !g.Has(ReportingMta) || g.Has(ArrivalDate) then None
    else if HasSuffix(f.name, QUEUE_SUFFIX) then
      var mailName := Middle(f.name, QUEUE_SUFFIX);
      if g.queueId != [] || g.sender != [] || g.lastRank > 2 || !Atom(mailName) || !Atom(f.value) then None
      else Some(g.(queueId := f.value, mailName := mailName, lastRank := 2, fieldCount := g.fieldCount + 1))
    else if HasSuffix(f.name, SENDER_SUFFIX) then
      if g.queueId == [] || g.sender != [] || g.lastRank > 3
        || !EqualFold(Middle(f.name, SENDER_SUFFIX), g.mailName) || TypedText(f.value, [], false).None? then None
      else Some(g.(sender := f.value, lastRank := 3, fieldCount := g.fieldCount + 1))
    else None
  }

  function StepPostfix(g: Group, index: nat, f: FieldLine): Option<Group> {
    if index == 0 && f.kind == Extension then StepPostfixExtension(g, f)
    else
      match PostfixRank(index, f.kind)
      case None => None
      case Some(rank) =>
        if g.Has(f.kind) || (g.fieldCount > 0 && rank < g.lastRank) || PostfixMisplaced(g, index, f.kind, rank)
        then None
        else Some(g.With(f.kind, rank, f.value))
  }

  function Step(g: Group, index: nat, line: octets, profile: Profile): Option<Group> {
    match Parsed(line)
    case None => None
    case Some(f) =>
      match profile
      case Postfix => StepPostfix(g, index, f)
      case Received => StepOrdered(g, index, f, true)
      case Strict => StepOrdered(g, index, f, false)
  }

  /** The group after some lines, or none when a line is refused. */
  function Run(index: nat, lines: seq<octets>, profile: Profile): Option<Group> {
    if lines == [] then Some(EMPTY)
    else
      match Run(index, lines[..|lines| - 1], profile)
      case None => None
      case Some(g) => Step(g, index, lines[|lines| - 1], profile)
  }

  /** A group under construction, updated field by field. */
  class FieldGroup {
    var fieldCount: nat
    var values: map<Kind, octets>
    var lastRank: nat
    var extensionStarted: bool
    var mailName: octets
    var queueId: octets
    var sender: octets

    constructor ()
      ensures Value() == EMPTY
    {
      fieldCount, values, lastRank, extensionStarted := 0, map[], 0, false;
      mailName, queueId, sender := [], [], [];
    }

    function Value(): Group
      reads this
    {
      Group(fieldCount, values, lastRank, extensionStarted, mailName, queueId, sender)
    }

    method Clear()
      modifies this
      ensures Value() == EMPTY
    {
      fieldCount, values, lastRank, extensionStarted := 0, map[], 0, false;
      mailName, queueId, sender := [], [], [];
    }

    /** Admits one line under a profile, or refuses it and changes nothing. */
    method Add(index: nat, line: octets, profile: Profile) returns (ok: bool)
      modifies this
      ensures ok <==> Step(old(Value()), index, line, profile).Some?
      ensures Value() == if ok then Step(old(Value()), index, line, profile).value else old(Value())
    {
      hide Atom, TypedText, ValidFieldName, Classify, EqualFold;
      var colon := IndexByte(line, ':');
      if colon.None? || colon.value < 1 || !ValidFieldName(line[..colon.value]) {
        return false;
      }
      var name, value := line[..colon.value], Trim(line[colon.value + 1..]);
      var kind := Classify(name);
      if profile == Postfix {
        if index == 0 && kind == Extension {
          ok := AddPostfixExtension(name, value);
        } else {
          ok := AddPostfix(index, kind, value, name);
        }
      } else {
        ok := AddOrdered(index, kind, value, profile == Received, name);
      }
    }

    method AddOrdered(index: nat, kind: Kind, value: octets, anyOrder: bool, ghost name: octets) returns (ok: bool)
      modifies this
      ensures ok <==> StepOrdered(old(Value()), index, FieldLine(name, kind, value), anyOrder).Some?
      ensures Value() ==
        if ok then StepOrdered(old(Value()), index, FieldLine(name, kind, value), anyOrder).value else old(Value())
    {
      var rank := Rank(index, kind);
      if rank.None? {
        return false;
      }
      if kind == Extension {
        if !anyOrder && !Value().Mandatory(index) {
          return false;
        }
        extensionStarted := true;
        fieldCount := fieldCount + 1;
        return true;
      }
      if kind in values {
        return false;
      }
      if !anyOrder
        && (extensionStarted || (fieldCount > 0 && rank.value < lastRank) || !Value().Prerequisites(index, kind)) {
        return false;
      }
      lastRank := rank.value;
      fieldCount := fieldCount + 1;
      values := values[kind := value];
      return true;
    }

    method AddPostfix(index: nat, kind: Kind, value: octets, ghost name: octets) returns (ok: bool)
      requires !(index == 0 && kind == Extension)
      modifies this
      ensures ok <==> StepPostfix(old(Value()), index, FieldLine(name, kind, value)).Some?
      ensures Value() ==
        if ok then StepPostfix(old(Value()), index, FieldLine(name, kind, value)).value else old(Value())
    {
      var rank := PostfixRank(index, kind);
      if rank.None? {
        return false;
      }
      if kind in values || (fieldCount > 0 && rank.value < lastRank)
        || PostfixMisplaced(Value(), index, kind, rank.value) {
        return false;
      }
      lastRank := rank.value;
      fieldCount := fieldCount + 1;
      values := values[kind := value];
      return true;
    }

    method AddPostfixExtension(name: octets, value: octets) returns (ok: bool)
      modifies this
      ensures ok <==> StepPostfixExtension(old(Value()), FieldLine(name, Extension, value)).Some?
      ensures Value() ==
        if ok then StepPostfixExtension(old(Value()), FieldLine(name, Extension, value)).value else old(Value())
    {
      hide Atom, TypedText, EqualFold;
      if !HasPrefix(name) || ReportingMta !in values || ArrivalDate in values {
        return false;
      }
      if HasSuffix(name, QUEUE_SUFFIX) {
        if queueId != [] || sender != [] || lastRank > 2 {
          return false;
        }
        var middle := Middle(name, QUEUE_SUFFIX);
        if !Atom(middle) || !Atom(value) {
          return false;
        }
        queueId, mailName, lastRank := value, middle, 2;
      } else if HasSuffix(name, SENDER_SUFFIX) {
        if queueId == [] || sender != [] || lastRank > 3 {
          return false;
        }
        if !EqualFold(Middle(name, SENDER_SUFFIX), mailName) || TypedText(value, [], false).None? {
          return false;
        }
        sender, lastRank := value, 3;
      } else {
        return false;
      }
      fieldCount := fieldCount + 1;
      return true;
    }
  }

  // ---- Runs

  lemma RunSnoc(index: nat, lines: seq<octets>, line: octets, profile: Profile)
    ensures Run(index, lines + [line], profile) ==
      match Run(index, lines, profile) case None => None case Some(g) => Step(g, index, line, profile)
  {
    assert (lines + [line])[..|lines|] == lines;
  }

  lemma {:induction false} RunPrefix(index: nat, lines: seq<octets>, i: nat, profile: Profile)
    requires i <= |lines| && Run(index, lines, profile).Some?
    ensures Run(index, lines[..i], profile).Some?
    decreases |lines|
  {
    hide Step;
    if i == |lines| {
      assert lines[..i] == lines;
    } else {
      RunPrefix(index, lines[..|lines| - 1], i, profile);
      assert lines[..|lines| - 1][..i] == lines[..i];
    }
  }

  lemma RunStep(index: nat, lines: seq<octets>, i: nat, profile: Profile)
    requires i < |lines|
    ensures Run(index, lines[..i + 1], profile) ==
      match Run(index, lines[..i], profile) case None => None case Some(g) => Step(g, index, lines[i], profile)
  {
    hide Step;
    assert lines[..i + 1] == lines[..i] + [lines[i]];
    RunSnoc(index, lines[..i], lines[i], profile);
  }

  /** The kind of a line, when the line is a field. */
  function KindOf(line: octets): Kind {
    match Parsed(line) case None => Extension case Some(f) => f.kind
  }

  function ValueOf(line: octets): octets {
    match Parsed(line) case None => [] case Some(f) => f.value
  }

  predicate Known(line: octets) {
    KindOf(line) != Extension
  }

  /** What the Received profile asks of the lines of a group, in no particular order. */
  ghost predicate Admissible(index: nat, lines: seq<octets>) {
    && (forall i | 0 <= i < |lines| :: Parsed(lines[i]).Some? && Rank(index, KindOf(lines[i])).Some?)
    && (forall i, j | 0 <= i < j < |lines| && Known(lines[i]) :: KindOf(lines[i]) != KindOf(lines[j]))
  }

  /** The group holds exactly the known fields of the lines. */
  ghost predicate Gathers(g: Group, lines: seq<octets>) {
    && g.fieldCount == |lines|
    && (forall i | 0 <= i < |lines| && Known(lines[i]) ::
          KindOf(lines[i]) in g.values && g.values[KindOf(lines[i])] == ValueOf(lines[i]))
    && (forall k | k in g.values :: exists i :: 0 <= i < |lines| && Known(lines[i]) && KindOf(lines[i]) == k)
  }

  lemma GathersStep(g: Group, index: nat, lines: seq<octets>, line: octets)
    requires Gathers(g, lines) && Step(g, index, line, Received).Some?
    ensures Gathers(Step(g, index, line, Received).value, lines + [line])
  {
    hide Parsed, Rank;
    var next, all := Step(g, index, line, Received).value, lines + [line];
    forall i | 0 <= i < |all| && Known(all[i])
      ensures KindOf(all[i]) in next.values && next.values[KindOf(all[i])] == ValueOf(all[i])
    {
      assert i == |lines| || all[i] == lines[i];
    }
    forall k | k in next.values ensures exists i :: 0 <= i < |all| && Known(all[i]) && KindOf(all[i]) == k {
      if k in g.values {
        var i :| 0 <= i < |lines| && Known(lines[i]) && KindOf(lines[i]) == k;
        assert all[i] == lines[i];
      } else {
        assert all[|lines|] == line;
      }
    }
  }

  lemma AdmissibleStep(g: Group, index: nat, lines: seq<octets>, line: octets)
    requires Gathers(g, lines) && Admissible(index, lines)
    ensures Step(g, index, line, Received).Some? <==> Admissible(index, lines + [line])
  {
    hide Parsed, Rank;
    var all := lines + [line];
    assert all[|lines|] == line && forall i | 0 <= i < |lines| :: all[i] == lines[i];
    if Step(g, index, line, Received).Some? {
      forall i, j | 0 <= i < j < |all| && Known(all[i]) ensures KindOf(all[i]) != KindOf(all[j]) {
        if j == |lines| {
          assert KindOf(lines[i]) in g.values;
        }
      }
    }
    if Known(line) && g.Has(KindOf(line)) {
      var i :| 0 <= i < |lines| && Known(lines[i]) && KindOf(lines[i]) == KindOf(line);
      assert Known(all[i]) && KindOf(all[i]) == KindOf(all[|lines|]);
    }
  }

  /** The Received profile admits exactly the admissible listings, and gathers them. */
  lemma {:induction false} ReceivedRun(index: nat, lines: seq<octets>)
    ensures Run(index, lines, Received).Some? <==> Admissible(index, lines)
    ensures Run(index, lines, Received).Some? ==> Gathers(Run(index, lines, Received).value, lines)
  {
    hide Parsed, Rank, Step, Admissible, Gathers;
    if lines == [] {
      EmptyGathers(index);
    } else {
      var init, last := lines[..|lines| - 1], lines[|lines| - 1];
      assert lines == init + [last];
      ReceivedRun(index, init);
      if Admissible(index, init) {
        var g := Run(index, init, Received).value;
        AdmissibleStep(g, index, init, last);
        if Step(g, index, last, Received).Some? {
          GathersStep(g, index, init, last);
        }
      }
      AdmissiblePrefix(index, init, last);
    }
  }

  lemma EmptyGathers(index: nat)
    ensures Admissible(index, []) && Gathers(EMPTY, [])
  {
  }

  lemma AdmissiblePrefix(index: nat, lines: seq<octets>, line: octets)
    ensures Admissible(index, lines + [line]) ==> Admissible(index, lines)
  {
    var all := lines + [line];
    assert forall i | 0 <= i < |lines| :: all[i] == lines[i];
  }

  // ---- The Received profile ignores order

  lemma Position<T>(s: seq<T>, x: T) returns (i: nat)
    requires x in multiset(s)
    ensures i < |s| && s[i] == x
  {
    i :| 0 <= i < |s| && s[i] == x;
  }

  /** Two lines at different indexes of a listing stand at different indexes of any permutation of it. */
  lemma Positions<T>(a: seq<T>, b: seq<T>, i: nat, j: nat) returns (x: nat, y: nat)
    requires multiset(a) == multiset(b) && i < j < |b|
    ensures x < |a| && y < |a| && x != y && a[x] == b[i] && a[y] == b[j]
  {
    assert b[i] in multiset(b) && b[j] == Without(b, i)[j - 1];
    x := Position(a, b[i]);
    WithoutMultiset(a, x);
    WithoutMultiset(b, i);
    assert b[j] in multiset(Without(b, i));
    var z := Position(Without(a, x), b[j]);
    y := if z < x then z else z + 1;
  }

  lemma AdmissiblePermuted(index: nat, a: seq<octets>, b: seq<octets>)
    requires multiset(a) == multiset(b) && Admissible(index, a)
    ensures Admissible(index, b)
  {
    hide Parsed, Rank;
    forall i | 0 <= i < |b| ensures Parsed(b[i]).Some? && Rank(index, KindOf(b[i])).Some? {
      assert b[i] in multiset(a);
      var x :| 0 <= x < |a| && a[x] == b[i];
    }
    forall i, j | 0 <= i < j < |b| && Known(b[i]) ensures KindOf(b[i]) != KindOf(b[j]) {
      var x, y := Positions(a, b, i, j);
      assert if x < y then KindOf(a[x]) != KindOf(a[y]) else Known(a[y]) ==> KindOf(a[y]) != KindOf(a[x]);
    }
  }

  lemma GathersPermuted(g: Group, h: Group, a: seq<octets>, b: seq<octets>)
    requires multiset(a) == multiset(b) && Gathers(g, a) && Gathers(h, b)
    ensures g.values == h.values && g.fieldCount == h.fieldCount
  {
    hide Known, KindOf, ValueOf;
    assert |multiset(a)| == |a| && |multiset(b)| == |b|;
    GathersWithin(g, h, a, b);
    GathersWithin(h, g, b, a);
  }

  lemma GathersWithin(g: Group, h: Group, a: seq<octets>, b: seq<octets>)
    requires multiset(a) == multiset(b) && Gathers(g, a) && Gathers(h, b)
    ensures forall k | k in g.values :: k in h.values && h.values[k] == g.values[k]
  {
    hide Known, KindOf, ValueOf;
    forall k | k in g.values ensures k in h.values && h.values[k] == g.values[k] {
      var i :| 0 <= i < |a| && Known(a[i]) && KindOf(a[i]) == k;
      assert a[i] in multiset(b);
      var j :| 0 <= j < |b| && b[j] == a[i];
    }
  }

  /** Permuting the lines of a group changes neither its acceptance nor the fields it gathers. */
  lemma ReceivedPermuted(index: nat, a: seq<octets>, b: seq<octets>)
    requires multiset(a) == multiset(b)
    ensures Run(index, a, Received).Some? <==> Run(index, b, Received).Some?
    ensures Run(index, a, Received).Some? ==>
      var g, h := Run(index, a, Received).value, Run(index, b, Received).value;
      g.values == h.values && g.fieldCount == h.fieldCount
  {
    hide Parsed, Rank, Step, Admissible, Gathers, Run;
    ReceivedRun(index, a);
    ReceivedRun(index, b);
    if Admissible(index, a) {
      AdmissiblePermuted(index, a, b);
      GathersPermuted(Run(index, a, Received).value, Run(index, b, Received).value, a, b);
    }
    if Admissible(index, b) {
      AdmissiblePermuted(index, b, a);
    }
  }

  // ---- Strict is Received in ABNF order

  function RankOf(index: nat, line: octets): nat {
    match Rank(index, KindOf(line)) case None => 0 case Some(rank) => rank
  }

  /** The known fields stand in increasing rank, before all extensions, which rank highest. */
  ghost predicate Ordered(index: nat, lines: seq<octets>) {
    forall i, j | 0 <= i < j < |lines| && Known(lines[j]) :: RankOf(index, lines[i]) < RankOf(index, lines[j])
  }

  /** The order bookkeeping of a run. */
  ghost predicate Marks(g: Group, index: nat, lines: seq<octets>) {
    && (g.extensionStarted <==> exists i :: 0 <= i < |lines| && !Known(lines[i]))
    && (!g.extensionStarted && lines != [] ==> g.lastRank == RankOf(index, lines[|lines| - 1]))
  }

  lemma MarksStep(g: Group, index: nat, lines: seq<octets>, line: octets)
    requires Marks(g, index, lines) && Step(g, index, line, Received).Some?
    ensures Marks(Step(g, index, line, Received).value, index, lines + [line])
  {
    hide Parsed;
    var all := lines + [line];
    assert all[|lines|] == line && forall i | 0 <= i < |lines| :: all[i] == lines[i];
    if g.extensionStarted {
      var i :| 0 <= i < |lines| && !Known(lines[i]);
      assert !Known(all[i]);
    }
    if !Known(line) {
      assert !Known(all[|lines|]);
    }
  }

  lemma {:induction false} RunMarks(index: nat, lines: seq<octets>)
    requires Run(index, lines, Received).Some?
    ensures Marks(Run(index, lines, Received).value, index, lines)
  {
    hide Step, Marks;
    if lines == [] {
      EmptyMarks(index);
    } else {
      var init, last := lines[..|lines| - 1], lines[|lines| - 1];
      RunMarks(index, init);
      MarksStep(Run(index, init, Received).value, index, init, last);
      assert lines == init + [last];
    }
  }

  lemma EmptyMarks(index: nat)
    ensures Marks(EMPTY, index, [])
  {
  }

  lemma StrictStepReceived(g: Group, index: nat, line: octets)
    requires Step(g, index, line, Strict).Some?
    ensures Step(g, index, line, Received) == Step(g, index, line, Strict)
  {
    hide Parsed, Rank;
  }

  lemma {:induction false} StrictRunReceived(index: nat, lines: seq<octets>)
    requires Run(index, lines, Strict).Some?
    ensures Run(index, lines, Received) == Run(index, lines, Strict)
  {
    hide Step;
    if lines != [] {
      var init := lines[..|lines| - 1];
      StrictRunReceived(index, init);
      StrictStepReceived(Run(index, init, Strict).value, index, lines[|lines| - 1]);
    }
  }

  lemma KnownRank(index: nat, line: octets)
    requires Known(line)
    ensures RankOf(index, line) < 100
  {
  }

  lemma ExtensionRank(index: nat, line: octets)
    requires !Known(line)
    ensures RankOf(index, line) == 100
  {
  }

  /** A line that Strict admits outranks the line before it. */
  lemma StrictStepOrdered(g: Group, index: nat, lines: seq<octets>, line: octets)
    requires Marks(g, index, lines) && Gathers(g, lines) && Admissible(index, lines)
    requires Step(g, index, line, Strict).Some? && Known(line) && lines != []
    ensures RankOf(index, lines[|lines| - 1]) < RankOf(index, line)
  {
    hide Parsed;
    var before := lines[|lines| - 1];
    assert Known(before);
    assert KindOf(before) in g.values;
    if Rank(index, KindOf(before)) == Rank(index, KindOf(line)) {
      RankInjective(index, KindOf(before), KindOf(line));
    }
  }

  lemma OrderedSnoc(index: nat, lines: seq<octets>, line: octets)
    requires Ordered(index, lines)
    requires Known(line) && lines != [] ==> RankOf(index, lines[|lines| - 1]) < RankOf(index, line)
    ensures Ordered(index, lines + [line])
  {
    hide RankOf, Known;
    var all := lines + [line];
    forall i, j | 0 <= i < j < |all| && Known(all[j]) ensures RankOf(index, all[i]) < RankOf(index, all[j]) {
      if j < |lines| {
        assert all[i] == lines[i] && all[j] == lines[j];
      } else {
        assert all[j] == line && all[i] == lines[i];
        LastRanksHighest(index, lines, i);
        KnownRank(index, line);
      }
    }
  }

  lemma LastRanksHighest(index: nat, lines: seq<octets>, i: nat)
    requires Ordered(index, lines) && i < |lines|
    ensures RankOf(index, lines[i]) <= RankOf(index, lines[|lines| - 1]) || RankOf(index, lines[|lines| - 1]) == 100
  {
    var last := lines[|lines| - 1];
    if !Known(last) {
      ExtensionRank(index, last);
    }
  }

  lemma {:induction false} StrictRunOrdered(index: nat, lines: seq<octets>)
    requires Run(index, lines, Strict).Some?
    ensures Ordered(index, lines)
  {
    hide Step, Marks, Gathers, Admissible, Ordered, Known, RankOf;
    if lines == [] {
      EmptyOrdered(index);
    } else {
      var init, last := lines[..|lines| - 1], lines[|lines| - 1];
      StrictRunOrdered(index, init);
      StrictRunReceived(index, init);
      RunMarks(index, init);
      ReceivedRun(index, init);
      if Known(last) && init != [] {
        StrictStepOrdered(Run(index, init, Strict).value, index, init, last);
      }
      OrderedSnoc(index, init, last);
      assert lines == init + [last];
    }
  }

  lemma EmptyOrdered(index: nat)
    ensures Ordered(index, [])
  {
  }

  /** In an ordered listing a field of lower rank, and any known field for an extension, stands before. */
  lemma StandsBefore(index: nat, lines: seq<octets>, i: nat, j: nat)
    requires Ordered(index, lines) && i < |lines| && j < |lines| && Known(lines[j])
    requires RankOf(index, lines[j]) < RankOf(index, lines[i])
    ensures j < i
  {
  }

  /** A kind of the whole listing that ranks below line i has been gathered before line i. */
  lemma GatheredBefore(g: Group, h: Group, index: nat, lines: seq<octets>, i: nat, kind: Kind)
    requires Ordered(index, lines) && i < |lines| && Gathers(g, lines) && Gathers(h, lines[..i])
    requires g.Has(kind) && Rank(index, kind).Some? && Rank(index, kind).value < RankOf(index, lines[i])
    ensures h.Has(kind)
  {
    hide Known, KindOf, Ordered;
    var j :| 0 <= j < |lines| && Known(lines[j]) && KindOf(lines[j]) == kind;
    StandsBefore(index, lines, i, j);
    assert lines[..i][j] == lines[j];
  }

  /** The Strict step at line i of an ordered listing whose mandatory fields are all present. */
  lemma OrderedStep(g: Group, h: Group, index: nat, lines: seq<octets>, i: nat)
    requires Ordered(index, lines) && i < |lines| && Gathers(g, lines) && g.Mandatory(index)
    requires Gathers(h, lines[..i]) && Marks(h, index, lines[..i])
    requires Step(h, index, lines[i], Received).Some?
    ensures Step(h, index, lines[i], Strict) == Step(h, index, lines[i], Received)
  {
    hide Gathers, Ordered, Parsed;
    var line := lines[i];
    var rank := RankOf(index, line);
    if !Known(line) {
      ExtensionRank(index, line);
    } else {
      OrderedMarks(h, index, lines, i);
      GathersCount(h, lines[..i]);
    }
    if index == 0 {
      if rank > 1 {
        GatheredBefore(g, h, index, lines, i, ReportingMta);
      }
    } else {
      if rank > 1 {
        GatheredBefore(g, h, index, lines, i, FinalRecipient);
      }
      if rank > 2 {
        GatheredBefore(g, h, index, lines, i, Action);
      }
      if rank > 3 {
        GatheredBefore(g, h, index, lines, i, Status);
      }
    }
  }

  lemma GathersCount(g: Group, lines: seq<octets>)
    requires Gathers(g, lines)
    ensures g.fieldCount == |lines|
  {
  }

  lemma OrderedMarks(h: Group, index: nat, lines: seq<octets>, i: nat)
    requires Ordered(index, lines) && i < |lines| && Known(lines[i]) && Marks(h, index, lines[..i])
    ensures !h.extensionStarted && (i > 0 ==> h.lastRank < RankOf(index, lines[i]))
  {
    KnownRank(index, lines[i]);
    forall j | 0 <= j < i ensures Known(lines[..i][j]) && RankOf(index, lines[j]) < RankOf(index, lines[i]) {
      if !Known(lines[j]) {
        ExtensionRank(index, lines[j]);
      }
    }
  }

  lemma {:induction false} OrderedRun(g: Group, index: nat, lines: seq<octets>, i: nat)
    requires Run(index, lines, Received) == Some(g) && g.Mandatory(index) && Ordered(index, lines) && i <= |lines|
    ensures Run(index, lines[..i], Strict) == Run(index, lines[..i], Received)
  {
    hide Step, Gathers, Marks, Ordered, Run, Admissible;
    if i == 0 {
      assert lines[..0] == [];
      RunEmpty(index, Strict);
      RunEmpty(index, Received);
    } else {
      OrderedRun(g, index, lines, i - 1);
      RunPrefix(index, lines, i - 1, Received);
      RunPrefix(index, lines, i, Received);
      RunStep(index, lines, i - 1, Received);
      RunStep(index, lines, i - 1, Strict);
      ReceivedRun(index, lines);
      ReceivedRun(index, lines[..i - 1]);
      RunMarks(index, lines[..i - 1]);
      OrderedStep(g, Run(index, lines[..i - 1], Received).value, index, lines, i - 1);
    }
  }

  lemma RunEmpty(index: nat, profile: Profile)
    ensures Run(index, [], profile) == Some(EMPTY)
  {
  }

  /** With its mandatory fields present, a group passes Strict exactly when it passes Received and stands in ABNF
      order; both gather the same. So `Prerequisites` only repeats rank order and the final mandatory check. */
  lemma StrictIff(index: nat, lines: seq<octets>, g: Group)
    requires g.Mandatory(index)
    ensures Run(index, lines, Strict) == Some(g) <==> Run(index, lines, Received) == Some(g) && Ordered(index, lines)
  {
    hide Step, Ordered, Run;
    if Run(index, lines, Strict) == Some(g) {
      StrictRunReceived(index, lines);
      StrictRunOrdered(index, lines);
    }
    if Run(index, lines, Received) == Some(g) && Ordered(index, lines) {
      OrderedRun(g, index, lines, |lines|);
      assert lines[..|lines|] == lines;
    }
  }

  // ---- Postfix is Received in the exact Postfix sequence

  ghost predicate SameFields(g: Group, h: Group) {
    g.values == h.values && g.fieldCount == h.fieldCount
  }

  lemma PostfixStepReceived(g: Group, h: Group, index: nat, line: octets)
    requires SameFields(g, h) && Step(g, index, line, Postfix).Some?
    ensures Step(h, index, line, Received).Some?
    ensures SameFields(Step(g, index, line, Postfix).value, Step(h, index, line, Received).value)
  {
    hide Parsed, HasPrefix, HasSuffix, Atom, TypedText, EqualFold;
  }

  /** Whatever Postfix admits Received admits, and both gather the same fields. */
  lemma {:induction false} PostfixRunReceived(index: nat, lines: seq<octets>)
    requires Run(index, lines, Postfix).Some?
    ensures Run(index, lines, Received).Some?
    ensures SameFields(Run(index, lines, Postfix).value, Run(index, lines, Received).value)
  {
    hide Step;
    if lines != [] {
      var init := lines[..|lines| - 1];
      PostfixRunReceived(index, init);
      PostfixStepReceived(
        Run(index, init, Postfix).value, Run(index, init, Received).value, index, lines[|lines| - 1]);
    }
  }

  predicate QueueLine(line: octets) {
    match Parsed(line)
    case None => false
    case Some(f) => f.kind == Extension && HasPrefix(f.name) && HasSuffix(f.name, QUEUE_SUFFIX)
  }

  predicate SenderLine(line: octets) {
    match Parsed(line)
    case None => false
    case Some(f) =>
      f.kind == Extension && HasPrefix(f.name) && !HasSuffix(f.name, QUEUE_SUFFIX) && HasSuffix(f.name, SENDER_SUFFIX)
  }

  /** The mail name inside a queue or sender field name. */
  function MailName(line: octets): octets {
    match Parsed(line)
    case None => []
    case Some(f) =>
      if HasSuffix(f.name, QUEUE_SUFFIX) then Middle(f.name, QUEUE_SUFFIX)
      else if HasSuffix(f.name, SENDER_SUFFIX) then Middle(f.name, SENDER_SUFFIX) else []
  }

  /** The place of a line in the Postfix sequence of its group. */
  function PlaceOf(index: nat, line: octets): Option<nat> {
    if Parsed(line).None? then None
    else if index == 0 && QueueLine(line) then Some(2)
    else if index == 0 && SenderLine(line) then Some(3)
    else PostfixRank(index, KindOf(line))
  }

  ghost predicate Increasing(index: nat, lines: seq<octets>) {
    && (forall i | 0 <= i < |lines| :: PlaceOf(index, lines[i]).Some?)
    && forall i, j | 0 <= i < j < |lines| :: PlaceOf(index, lines[i]).value < PlaceOf(index, lines[j]).value
  }

  ghost predicate Present(index: nat, lines: seq<octets>, place: nat) {
    exists i :: 0 <= i < |lines| && PlaceOf(index, lines[i]) == Some(place)
  }

  /** The queue and sender fields name one mail system and carry an atom and a typed address. */
  ghost predicate QueueDetails(lines: seq<octets>) {
    && (forall i | 0 <= i < |lines| && QueueLine(lines[i]) :: Atom(MailName(lines[i])) && Atom(ValueOf(lines[i])))
    && (forall i | 0 <= i < |lines| && SenderLine(lines[i]) :: TypedText(ValueOf(lines[i]), [], false).Some?)
    && forall i, j | 0 <= i < |lines| && 0 <= j < |lines| && QueueLine(lines[i]) && SenderLine(lines[j]) ::
         EqualFold(MailName(lines[j]), MailName(lines[i]))
  }

  /** A group Postfix may end: its mandatory fields, the queue field, and a diagnostic per recipient. */
  predicate PostfixComplete(g: Group, index: nat) {
    g.Mandatory(index) && if index == 0 then g.queueId != [] else g.Has(DiagnosticCode)
  }

  /** R [O] Q [S] [A] for the message, F [O] A S [Rm] D [W] for a recipient. */
  ghost predicate PostfixSequence(index: nat, lines: seq<octets>) {
    && Increasing(index, lines)
    && Present(index, lines, 0) && Present(index, lines, 2)
    && (index > 0 ==> Present(index, lines, 3) && Present(index, lines, 5))
    && (index == 0 ==> QueueDetails(lines))
  }

  ghost predicate QueueMarks(g: Group, lines: seq<octets>) {
    && (forall i | 0 <= i < |lines| && QueueLine(lines[i]) ::
          g.queueId == ValueOf(lines[i]) != [] && g.mailName == MailName(lines[i]))
    && (g.queueId != [] ==> exists i :: 0 <= i < |lines| && QueueLine(lines[i]))
    && (g.sender != [] <==> exists i :: 0 <= i < |lines| && SenderLine(lines[i]))
  }

  /** The Postfix bookkeeping of a run. */
  ghost predicate PostfixMarks(g: Group, index: nat, lines: seq<octets>) {
    && Gathers(g, lines)
    && (lines != [] ==> PlaceOf(index, lines[|lines| - 1]) == Some(g.lastRank))
    && (index == 0 ==> QueueMarks(g, lines))
  }

  lemma PlaceKinds(index: nat, line: octets)
    requires PlaceOf(index, line).Some?
    ensures var place := PlaceOf(index, line).value;
      if index == 0 then
        && (place == 0 <==> KindOf(line) == ReportingMta) && (place == 1 <==> KindOf(line) == OriginalEnvelopeId)
        && (place == 2 <==> QueueLine(line)) && (place == 3 <==> SenderLine(line))
        && (place == 4 <==> KindOf(line) == ArrivalDate) && place <= 4
      else
        && (place == 0 <==> KindOf(line) == FinalRecipient) && (place == 1 <==> KindOf(line) == OriginalRecipient)
        && (place == 2 <==> KindOf(line) == Action) && (place == 3 <==> KindOf(line) == Status)
        && (place == 4 <==> KindOf(line) == RemoteMta) && (place == 5 <==> KindOf(line) == DiagnosticCode)
        && (place == 6 <==> KindOf(line) == WillRetryUntil) && place <= 6
  {
    hide HasPrefix, HasSuffix;
  }

  lemma TypedTextPresent(value: octets)
    requires TypedText(value, [], false).Some?
    ensures value != []
  {
  }

  lemma PostfixStepPlace(g: Group, index: nat, lines: seq<octets>, line: octets)
    requires PostfixMarks(g, index, lines) && Step(g, index, line, Postfix).Some?
    ensures PlaceOf(index, line).Some?
    ensures if lines == [] then PlaceOf(index, line) == Some(0) else g.lastRank < PlaceOf(index, line).value
    ensures PlaceOf(index, line) == Some(Step(g, index, line, Postfix).value.lastRank)
  {
    hide HasPrefix, HasSuffix, Parsed, Atom, EqualFold;
    PlaceKinds(index, line);
    if lines != [] {
      PlaceKinds(index, lines[|lines| - 1]);
      assert Known(lines[|lines| - 1]) ==> KindOf(lines[|lines| - 1]) in g.values;
    }
  }

  lemma PostfixStepGathers(g: Group, index: nat, lines: seq<octets>, line: octets)
    requires Gathers(g, lines) && Step(g, index, line, Postfix).Some?
    ensures Gathers(Step(g, index, line, Postfix).value, lines + [line])
  {
    hide Step, Parsed, Known, KindOf, ValueOf;
    PostfixStepReceived(g, g, index, line);
    GathersStep(g, index, lines, line);
  }

  lemma PostfixStepQueue(g: Group, line: octets)
    requires Step(g, 0, line, Postfix).Some?
    ensures var next := Step(g, 0, line, Postfix).value;
      if QueueLine(line) then
        && g.queueId == [] && g.sender == next.sender == []
        && next.queueId == ValueOf(line) && next.mailName == MailName(line)
        && Atom(next.queueId) && Atom(next.mailName)
      else if SenderLine(line) then
        && g.queueId == next.queueId != [] && g.mailName == next.mailName && next.sender == ValueOf(line)
        && EqualFold(MailName(line), g.mailName) && TypedText(next.sender, [], false).Some?
      else g.queueId == next.queueId && g.mailName == next.mailName && g.sender == next.sender
  {
    hide HasPrefix, HasSuffix, Atom, EqualFold, TypedText;
  }

  lemma NotQueueAndSender(line: octets)
    ensures !(QueueLine(line) && SenderLine(line))
  {
  }

  lemma QueueMarksStep(g: Group, lines: seq<octets>, line: octets)
    requires QueueMarks(g, lines) && Step(g, 0, line, Postfix).Some?
    ensures QueueMarks(Step(g, 0, line, Postfix).value, lines + [line])
  {
    hide QueueLine, SenderLine, ValueOf, MailName, Step;
    PostfixStepQueue(g, line);
    NotQueueAndSender(line);
    var next, all := Step(g, 0, line, Postfix).value, lines + [line];
    assert all[|lines|] == line && forall i | 0 <= i < |lines| :: all[i] == lines[i];
    if g.queueId != [] {
      var i :| 0 <= i < |lines| && QueueLine(lines[i]);
      assert QueueLine(all[i]);
    }
    if g.sender != [] {
      var i :| 0 <= i < |lines| && SenderLine(lines[i]);
      assert SenderLine(all[i]);
    }
    if SenderLine(line) {
      TypedTextPresent(ValueOf(line));
      assert SenderLine(all[|lines|]);
    }
    if QueueLine(line) {
      assert QueueLine(all[|lines|]);
    }
  }

  lemma QueueDetailsStep(g: Group, lines: seq<octets>, line: octets)
    requires QueueMarks(g, lines) && QueueDetails(lines) && Step(g, 0, line, Postfix).Some?
    ensures QueueDetails(lines + [line])
  {
    hide QueueLine, SenderLine, ValueOf, MailName, Step, Atom, EqualFold, TypedText;
    PostfixStepQueue(g, line);
    NotQueueAndSender(line);
    var all := lines + [line];
    assert all[|lines|] == line && forall i | 0 <= i < |lines| :: all[i] == lines[i];
  }

  lemma PostfixMarksStep(g: Group, index: nat, lines: seq<octets>, line: octets)
    requires PostfixMarks(g, index, lines) && Step(g, index, line, Postfix).Some?
    ensures PostfixMarks(Step(g, index, line, Postfix).value, index, lines + [line])
  {
    hide QueueMarks, Gathers, Step, PlaceOf;
    PostfixStepGathers(g, index, lines, line);
    PostfixStepPlace(g, index, lines, line);
    if index == 0 {
      QueueMarksStep(g, lines, line);
    }
  }

  lemma PlacesSnoc(index: nat, lines: seq<octets>, line: octets)
    requires Increasing(index, lines) && PlaceOf(index, line).Some?
    requires lines != [] ==> PlaceOf(index, lines[|lines| - 1]).value < PlaceOf(index, line).value
    ensures Increasing(index, lines + [line])
  {
    hide PlaceOf;
    var all := lines + [line];
    forall i, j | 0 <= i < j < |all| ensures PlaceOf(index, all[i]).value < PlaceOf(index, all[j]).value {
      if j == |lines| {
        assert i == |lines| - 1 || PlaceOf(index, lines[i]).value < PlaceOf(index, lines[|lines| - 1]).value;
      }
    }
  }

  /** What a run keeps of the Postfix sequence. */
  ghost predicate PostfixShape(g: Group, index: nat, lines: seq<octets>) {
    && PostfixMarks(g, index, lines) && Increasing(index, lines)
    && (lines != [] ==> PlaceOf(index, lines[0]) == Some(0))
    && (index == 0 ==> QueueDetails(lines))
  }

  lemma PostfixShapeStep(g: Group, index: nat, lines: seq<octets>, line: octets)
    requires PostfixShape(g, index, lines) && Step(g, index, line, Postfix).Some?
    ensures PostfixShape(Step(g, index, line, Postfix).value, index, lines + [line])
  {
    hide Step, Gathers, QueueMarks, PlaceOf, QueueDetails, Increasing;
    PostfixStepPlace(g, index, lines, line);
    PostfixMarksStep(g, index, lines, line);
    PlacesSnoc(index, lines, line);
    if index == 0 {
      QueueDetailsStep(g, lines, line);
    }
  }

  lemma {:induction false} PostfixRunSequence(index: nat, lines: seq<octets>)
    requires Run(index, lines, Postfix).Some?
    ensures PostfixShape(Run(index, lines, Postfix).value, index, lines)
  {
    hide Step, PostfixShape;
    if lines == [] {
      PostfixEmpty(index);
    } else {
      var init, last := lines[..|lines| - 1], lines[|lines| - 1];
      assert lines == init + [last];
      PostfixRunSequence(index, init);
      PostfixShapeStep(Run(index, init, Postfix).value, index, init, last);
    }
  }

  lemma PostfixEmpty(index: nat)
    ensures PostfixShape(EMPTY, index, [])
  {
  }

  lemma PresentBefore(index: nat, lines: seq<octets>, i: nat, place: nat) returns (j: nat)
    requires Increasing(index, lines) && i < |lines| && Present(index, lines, place)
    requires place < PlaceOf(index, lines[i]).value
    ensures j < i && lines[..i][j] == lines[j] && PlaceOf(index, lines[j]) == Some(place)
  {
    hide PlaceOf;
    j :| 0 <= j < |lines| && PlaceOf(index, lines[j]) == Some(place);
  }

  lemma PlacesBefore(index: nat, lines: seq<octets>, i: nat)
    requires Increasing(index, lines) && i < |lines| && Present(index, lines, 0)
    ensures i == 0 ==> PlaceOf(index, lines[i]) == Some(0)
    ensures forall j | 0 <= j < i :: PlaceOf(index, lines[..i][j]).Some?
              && PlaceOf(index, lines[..i][j]).value < PlaceOf(index, lines[i]).value
  {
    hide PlaceOf;
    var first :| 0 <= first < |lines| && PlaceOf(index, lines[first]) == Some(0);
    assert PlaceOf(index, lines[0]).Some?;
    assert first == 0;
  }

  /** No field seen before line i has the kind of line i or of a later place. */
  lemma NotGathered(g: Group, index: nat, lines: seq<octets>, i: nat, line: octets)
    requires Increasing(index, lines) && i < |lines| && Present(index, lines, 0) && Gathers(g, lines[..i])
    requires PlaceOf(index, line).Some? && PlaceOf(index, lines[i]).value <= PlaceOf(index, line).value
    requires Known(line)
    ensures !g.Has(KindOf(line))
  {
    hide Parsed, PlaceOf, Increasing;
    PlacesBefore(index, lines, i);
    PlaceKinds(index, line);
    if g.Has(KindOf(line)) {
      var j :| 0 <= j < i && Known(lines[..i][j]) && KindOf(lines[..i][j]) == KindOf(line);
      PlaceKinds(index, lines[..i][j]);
    }
  }

  lemma PlaceGathered(g: Group, index: nat, lines: seq<octets>, i: nat, place: nat, kind: Kind)
    requires Increasing(index, lines) && i < |lines| && Present(index, lines, place) && Gathers(g, lines[..i])
    requires place < PlaceOf(index, lines[i]).value && PostfixRank(index, kind) == Some(place)
    requires index == 0 ==> place !in {2, 3}
    ensures g.Has(kind)
  {
    hide Parsed, PlaceOf, Increasing;
    var j := PresentBefore(index, lines, i, place);
    PlaceKinds(index, lines[j]);
  }

  lemma QueueGathered(g: Group, lines: seq<octets>, i: nat)
    requires Increasing(0, lines) && i < |lines| && Present(0, lines, 0) && Present(0, lines, 2)
    requires QueueMarks(g, lines[..i])
    ensures g.queueId != [] <==> 2 < PlaceOf(0, lines[i]).value
    ensures g.sender != [] ==> 3 < PlaceOf(0, lines[i]).value
  {
    hide Parsed, PlaceOf, Increasing, QueueLine, SenderLine;
    IncreasingAt(0, lines, i);
    PlacesBefore(0, lines, i);
    forall j | 0 <= j < i ensures QueueLine(lines[..i][j]) <==> PlaceOf(0, lines[..i][j]) == Some(2) {
      PlaceKinds(0, lines[..i][j]);
    }
    forall j | 0 <= j < i ensures SenderLine(lines[..i][j]) <==> PlaceOf(0, lines[..i][j]) == Some(3) {
      PlaceKinds(0, lines[..i][j]);
    }
    if 2 < PlaceOf(0, lines[i]).value {
      var j := PresentBefore(0, lines, i, 2);
    }
  }

  lemma QueueAgrees(g: Group, lines: seq<octets>, i: nat)
    requires Increasing(0, lines) && i < |lines| && Present(0, lines, 2)
    requires QueueMarks(g, lines[..i]) && QueueDetails(lines)
    requires SenderLine(lines[i])
    ensures EqualFold(MailName(lines[i]), g.mailName)
  {
    hide EqualFold, MailName, ValueOf, PlaceOf, QueueLine, SenderLine;
    PlaceKinds(0, lines[i]);
    var j := PresentBefore(0, lines, i, 2);
    PlaceKinds(0, lines[j]);
  }

  lemma LastPlace(g: Group, index: nat, lines: seq<octets>, i: nat)
    requires Increasing(index, lines) && i < |lines| && PostfixMarks(g, index, lines[..i])
    ensures i > 0 ==> g.lastRank < PlaceOf(index, lines[i]).value
    ensures g.fieldCount == i
  {
    hide PlaceOf;
    if i > 0 {
      assert lines[..i][i - 1] == lines[i - 1];
    }
  }

  /** The message group admits line i of a Postfix sequence. */
  lemma MessageStep(g: Group, lines: seq<octets>, i: nat)
    requires PostfixSequence(0, lines) && i < |lines| && PostfixMarks(g, 0, lines[..i])
    ensures Step(g, 0, lines[i], Postfix).Some?
  {
    hide Gathers, QueueMarks, Increasing, Present, QueueDetails, HasPrefix, HasSuffix, Atom, EqualFold, TypedText;
    MessageStepFacts(g, lines, i);
    PlaceKinds(0, lines[i]);
  }

  lemma MessageStepFacts(g: Group, lines: seq<octets>, i: nat)
    requires PostfixSequence(0, lines) && i < |lines| && PostfixMarks(g, 0, lines[..i])
    ensures PlaceOf(0, lines[i]).Some?
    ensures var line, place := lines[i], PlaceOf(0, lines[i]).value;
      && (i == 0 ==> place == 0) && (i > 0 ==> g.lastRank < place) && g.fieldCount == i
      && (Known(line) ==> !g.Has(KindOf(line)))
      && (place > 0 ==> g.Has(ReportingMta)) && (place < 4 ==> !g.Has(ArrivalDate))
      && (g.queueId != [] <==> 2 < place) && (g.sender != [] ==> 3 < place)
      && (QueueLine(line) ==> Atom(MailName(line)) && Atom(ValueOf(line)))
      && (SenderLine(line) ==> EqualFold(MailName(line), g.mailName) && TypedText(ValueOf(line), [], false).Some?)
  {
    hide Gathers, QueueMarks, Increasing, Present, PlaceOf, Atom, EqualFold, TypedText, MailName, ValueOf;
    var line := lines[i];
    IncreasingAt(0, lines, i);
    var place := PlaceOf(0, line).value;
    PlacesBefore(0, lines, i);
    LastPlace(g, 0, lines, i);
    if Known(line) {
      NotGathered(g, 0, lines, i, line);
    }
    if place > 0 {
      PlaceGathered(g, 0, lines, i, 0, ReportingMta);
    }
    if place < 4 {
      NotArrived(g, lines, i);
    }
    QueueGathered(g, lines, i);
    if SenderLine(line) {
      QueueAgrees(g, lines, i);
    }
  }

  lemma IncreasingAt(index: nat, lines: seq<octets>, i: nat)
    requires Increasing(index, lines) && i < |lines|
    ensures PlaceOf(index, lines[i]).Some?
  {
  }

  lemma NotArrived(g: Group, lines: seq<octets>, i: nat)
    requires Increasing(0, lines) && i < |lines| && Present(0, lines, 0) && Gathers(g, lines[..i])
    requires PlaceOf(0, lines[i]).value < 4
    ensures !g.Has(ArrivalDate)
  {
    hide Parsed, PlaceOf, Increasing;
    PlacesBefore(0, lines, i);
    if g.Has(ArrivalDate) {
      var j :| 0 <= j < i && Known(lines[..i][j]) && KindOf(lines[..i][j]) == ArrivalDate;
      PlaceKinds(0, lines[..i][j]);
    }
  }

  /** A recipient group admits line i of a Postfix sequence. */
  lemma RecipientStep(g: Group, index: nat, lines: seq<octets>, i: nat)
    requires index > 0 && PostfixSequence(index, lines) && i < |lines| && PostfixMarks(g, index, lines[..i])
    ensures Step(g, index, lines[i], Postfix).Some?
  {
    hide Gathers, Increasing, Present;
    var line := lines[i];
    IncreasingAt(index, lines, i);
    PlaceKinds(index, line);
    var place := PlaceOf(index, line).value;
    PlacesBefore(index, lines, i);
    LastPlace(g, index, lines, i);
    NotGathered(g, index, lines, i, line);
    if place > 0 {
      PlaceGathered(g, index, lines, i, 0, FinalRecipient);
    }
    if place > 2 {
      PlaceGathered(g, index, lines, i, 2, Action);
    }
    if place > 3 {
      PlaceGathered(g, index, lines, i, 3, Status);
    }
  }

  lemma {:induction false} SequenceRun(index: nat, lines: seq<octets>, i: nat)
    requires PostfixSequence(index, lines) && i <= |lines|
    ensures Run(index, lines[..i], Postfix).Some?
  {
    hide Step, PostfixSequence, Run;
    if i == 0 {
      assert lines[..0] == [];
      RunEmpty(index, Postfix);
    } else {
      SequenceRun(index, lines, i - 1);
      PostfixRunSequence(index, lines[..i - 1]);
      RunStep(index, lines, i - 1, Postfix);
      var g := Run(index, lines[..i - 1], Postfix).value;
      if index == 0 {
        MessageStep(g, lines, i - 1);
      } else {
        RecipientStep(g, index, lines, i - 1);
      }
    }
  }

  lemma GatheredPresent(g: Group, index: nat, lines: seq<octets>, kind: Kind)
    requires Gathers(g, lines) && Increasing(index, lines) && PostfixRank(index, kind).Some?
    ensures g.Has(kind) <==> Present(index, lines, PostfixRank(index, kind).value)
  {
    hide Parsed, PlaceOf;
    forall i | 0 <= i < |lines|
      ensures Known(lines[i]) && KindOf(lines[i]) == kind <==> PlaceOf(index, lines[i]) == PostfixRank(index, kind)
    {
      PlaceKinds(index, lines[i]);
    }
  }

  lemma QueuePresent(g: Group, lines: seq<octets>)
    requires QueueMarks(g, lines) && Increasing(0, lines)
    ensures g.queueId != [] <==> Present(0, lines, 2)
  {
    hide Parsed, PlaceOf, QueueLine;
    forall i | 0 <= i < |lines| ensures QueueLine(lines[i]) <==> PlaceOf(0, lines[i]) == Some(2) {
      PlaceKinds(0, lines[i]);
    }
  }

  /** The Postfix profile completes a group exactly when its lines stand in the Postfix sequence. */
  lemma PostfixIff(index: nat, lines: seq<octets>)
    ensures Run(index, lines, Postfix).Some? && PostfixComplete(Run(index, lines, Postfix).value, index)
       <==> PostfixSequence(index, lines)
  {
    hide Step, Gathers, Increasing, Present, QueueDetails, QueueMarks, PlaceOf, Run;
    if PostfixSequence(index, lines) {
      SequenceRun(index, lines, |lines|);
      assert lines[..|lines|] == lines;
    }
    if Run(index, lines, Postfix).Some? {
      PostfixRunSequence(index, lines);
      var g := Run(index, lines, Postfix).value;
      if index == 0 {
        GatheredPresent(g, 0, lines, ReportingMta);
        QueuePresent(g, lines);
      } else {
        GatheredPresent(g, index, lines, FinalRecipient);
        GatheredPresent(g, index, lines, Action);
        GatheredPresent(g, index, lines, Status);
        GatheredPresent(g, index, lines, DiagnosticCode);
      }
    }
  }
}
