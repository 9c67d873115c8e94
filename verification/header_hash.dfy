/** Section 6.2 canonical header hash input (draft-ietf-dkim-dkim2-spec-09). */
module HeaderHash {
  import opened Octets
  import opened RawMessage
  import opened Sorting

  datatype Limits = Limits(maxFieldCount: nat, maxFieldBytes: nat, maxHeaderInputBytes: nat)

  datatype LimitName = MaxFieldCount | MaxFieldBytes | MaxHeaderInputBytes

  /** The first resource limit a header block violates. */
  datatype LimitExceeded = LimitExceeded(name: LimitName, count: nat, limit: nat, fieldIndex: nat)

  datatype ExcludedKind =
    | NotExcluded
    | Received
    | ReturnPath
    | DeliveredTo
    | AuthenticationResults
    | XHeader
    | DkimSignature
    | ExactUnsigned
    | Arc
    | MessageInstance
    | Dkim2Signature

  const INSTANCE_NAME: octets := "message-instance"
  const SIGNATURE_NAME: octets := "dkim2-signature"

  function Classify(name: octets): ExcludedKind {
    if name == "received" || "received-" <= name then Received
    else if name == "return-path" then ReturnPath
    else if name == "delivered-to" then DeliveredTo
    else if name == "authentication-results" then AuthenticationResults
    else if "x-" <= name then XHeader
    else if name == "dkim-signature" then DkimSignature
    else if ExactUnsignedName(name) then ExactUnsigned
    else if name == "arc-authentication-results" || name == "arc-message-signature" || name == "arc-seal" then Arc
    else if name == INSTANCE_NAME then MessageInstance
    else if name == SIGNATURE_NAME then Dkim2Signature
    else NotExcluded
  }

  predicate ExactUnsignedName(name: octets) {
    name in ["apparently-to", "dl-expansion-history", "original-recipient",
             "sio-label-history", "x400-received", "x400-trace"]
  }

  /** The classifier that pruning shares with the header hash. */
  predicate Relevant(name: octets) {
    Classify(name) == NotExcluded
  }

  /** The names of Section 6.2 that are not signed, apart from those with an unsigned prefix. */
  const TRACE: seq<octets> := ["received", "return-path", "delivered-to", "authentication-results"]
  const SEALS: seq<octets> := ["dkim-signature", "arc-authentication-results", "arc-message-signature", "arc-seal"]
  const PROTOCOL: seq<octets> := ["message-instance", "dkim2-signature"]
  const LOCAL: seq<octets> :=
    ["apparently-to", "dl-expansion-history", "original-recipient", "sio-label-history", "x400-received", "x400-trace"]

  /** A field is signed exactly when its name is none of the unsigned ones and starts with neither received- nor x-. */
  lemma RelevantIff(name: octets)
    ensures Relevant(name) <==>
      && name !in TRACE && name !in SEALS && name !in PROTOCOL && name !in LOCAL
      && !("received-" <= name) && !("x-" <= name)
  {
    assert name in TRACE <==> name == TRACE[0] || name == TRACE[1] || name == TRACE[2] || name == TRACE[3];
    assert name in SEALS <==> name == SEALS[0] || name == SEALS[1] || name == SEALS[2] || name == SEALS[3];
    assert name in PROTOCOL <==> name == PROTOCOL[0] || name == PROTOCOL[1];
  }

  // ---- Value canonicalization

  function Compress(value: octets, inWsp: bool): octets {
    if value == [] then []
    else if IsWsp(value[0]) then (if inWsp then [] else [' ']) + Compress(value[1..], true)
    else [value[0]] + Compress(value[1..], false)
  }

  function CanonicalValue(value: octets): octets {
    Compress(Trim(value), false)
  }

  /** One canonical line, before it is rendered. */
  datatype Line = Line(name: octets, value: octets) {
    function Bytes(): octets {
      name + [':'] + value + CRLF
    }
  }

  function CanonicalLine(f: Field): Line {
    Line(f.Name(), CanonicalValue(f.Value()))
  }

  method TrimWsp(value: octets) returns (r: octets)
    ensures r == Trim(value)
  {
    var start := 0;
    while start < |value| && IsWsp(value[start])
      invariant 0 <= start <= |value|
      invariant TrimLeft(value) == TrimLeft(value[start..])
    {
      assert value[start..][1..] == value[start + 1..];
      start := start + 1;
    }
    var end := |value|;
    assert value[start..end] == value[start..];
    while end > start && IsWsp(value[end - 1])
      invariant start <= end <= |value|
      invariant TrimLeft(value) == value[start..]
      invariant TrimRight(value[start..]) == TrimRight(value[start..end])
    {
      assert value[start..end][..end - start - 1] == value[start..end - 1];
      end := end - 1;
    }
    r := value[start..end];
  }

  /** One octet moves to the compressed side. */
  lemma CompressStep(r: octets, value: octets, i: nat, inWsp: bool)
    requires i < |value|
    ensures r + Compress(value[i..], inWsp)
         == (r + if !IsWsp(value[i]) then [value[i]] else if inWsp then [] else [' '])
            + Compress(value[i + 1..], IsWsp(value[i]))
  {
    hide IsWsp;
    assert value[i..][1..] == value[i + 1..];
  }

  lemma CompressEnd(r: octets, value: octets, inWsp: bool)
    ensures value[0..] == value && [] + Compress(value, false) == Compress(value, false)
    ensures r + Compress(value[|value|..], inWsp) == r
  {
  }

  method CompressWsp(value: octets) returns (r: octets)
    ensures r == Compress(value, false)
  {
    r := [];
    var inWsp := false;
    var i := 0;
    CompressEnd(r, value, inWsp);
    while i < |value|
      invariant 0 <= i <= |value|
      invariant Compress(value, false) == r + Compress(value[i..], inWsp)
    {
      hide IsWsp, Compress;
      CompressStep(r, value, i, inWsp);
      if IsWsp(value[i]) {
        if !inWsp {
          r := r + [' '];
          inWsp := true;
        } else {
          assert r + [] == r;
        }
      } else {
        r := r + [value[i]];
        inWsp := false;
      }
      i := i + 1;
    }
    CompressEnd(r, value, inWsp);
  }

  lemma {:induction false} CompressKeepsLineEndFree(value: octets, inWsp: bool)
    requires NoLineEnd(value)
    ensures NoLineEnd(Compress(value, inWsp))
  {
    if value != [] {
      assert value[0] in value && forall c | c in value[1..] :: c in value;
      CompressKeepsLineEndFree(value[1..], true);
      CompressKeepsLineEndFree(value[1..], false);
    }
  }

  // ---- Records and their order

  datatype Record = Record(name: octets, index: nat, value: octets) {
    function ToLine(): Line {
      Line(name, value)
    }
  }

  /** By name, then later occurrences first. */
  predicate Precedes(a: Record, b: Record) {
    if a.name != b.name then Less(a.name, b.name) else a.index > b.index
  }

  /** One record per signed field, in block order. */
  function Records(b: Block): (r: seq<Record>)
    ensures forall i | 0 <= i < |r| :: r[i].index < |b| && Relevant(r[i].name)
  {
    if b == [] then []
    else
      var f := b[|b| - 1];
      var init := Records(b[..|b| - 1]);
      if Relevant(f.Name()) then init + [Record(f.Name(), |b| - 1, CanonicalValue(f.Value()))] else init
  }

  lemma {:induction false} RecordsIndexed(b: Block)
    ensures forall i, j | 0 <= i < j < |Records(b)| :: Records(b)[i].index < Records(b)[j].index
  {
    if b != [] {
      RecordsIndexed(b[..|b| - 1]);
    }
  }

  lemma PrecedesOrders(s: seq<Record>)
    requires forall i, j | 0 <= i < j < |s| :: s[i].index < s[j].index
    ensures Distinct(s) && Orders(s, Precedes)
  {
    forall a, b | a in s && b in s && a != b ensures Precedes(a, b) || Precedes(b, a) {
      LessTotal(a.name, b.name);
    }
    forall a, b, c | a in s && b in s && c in s && Precedes(a, b) && Precedes(b, c) ensures Precedes(a, c) {
      PrecedesTransitive(a, b, c);
    }
  }

  lemma PrecedesTransitive(a: Record, b: Record, c: Record)
    requires Precedes(a, b) && Precedes(b, c)
    ensures Precedes(a, c)
  {
    LessTotal(a.name, b.name);
    if a.name != b.name && b.name != c.name {
      LessTransitive(a.name, b.name, c.name);
      LessTotal(a.name, c.name);
    }
  }

  lemma PrecedesAsymmetric()
    ensures Asymmetric(Precedes)
  {
    forall a, b | Precedes(a, b) ensures !Precedes(b, a) {
      LessTotal(a.name, b.name);
    }
  }

  /** Insertion before the first record whose name is not smaller. */
  function Insert(x: Record, s: seq<Record>): (r: seq<Record>)
    ensures multiset(r) == multiset(s) + multiset{x}
  {
    if s == [] || !Less(s[0].name, x.name) then [x] + s
    else
      assert s == [s[0]] + s[1..];
      [s[0]] + Insert(x, s[1..])
  }

  /** The sorted records of a block: the meaning of the record sort. */
  function SortedRecords(b: Block): seq<Record> {
    if b == [] then []
    else
      var f := b[|b| - 1];
      var init := SortedRecords(b[..|b| - 1]);
      if Relevant(f.Name()) then Insert(Record(f.Name(), |b| - 1, CanonicalValue(f.Value())), init) else init
  }

  lemma {:induction false} InsertSortedBy(x: Record, s: seq<Record>)
    requires SortedBy(s, Precedes)
    requires forall i | 0 <= i < |s| :: s[i].index < x.index
    ensures SortedBy(Insert(x, s), Precedes)
  {
    if s != [] {
      LessTotal(s[0].name, x.name);
      if Less(s[0].name, x.name) {
        InsertSortedBy(x, s[1..]);
        forall y | y in Insert(x, s[1..]) ensures Precedes(s[0], y) {
          assert y in multiset(Insert(x, s[1..]));
        }
      } else {
        assert Precedes(x, s[0]);
        forall i | 0 < i < |s| ensures Precedes(x, s[i]) {
          PrecedesTransitive(x, s[0], s[i]);
        }
      }
    }
  }

  lemma {:induction false} SortedRecordsSorted(b: Block)
    ensures multiset(SortedRecords(b)) == multiset(Records(b))
    ensures SortedBy(SortedRecords(b), Precedes)
  {
    if b != [] {
      var init := b[..|b| - 1];
      SortedRecordsSorted(init);
      forall i | 0 <= i < |SortedRecords(init)| ensures SortedRecords(init)[i].index < |b| - 1 {
        assert SortedRecords(init)[i] in multiset(Records(init));
      }
      if Relevant(b[|b| - 1].Name()) {
        InsertSortedBy(Record(b[|b| - 1].Name(), |b| - 1, CanonicalValue(b[|b| - 1].Value())), SortedRecords(init));
      }
    }
  }

  function Lines(s: seq<Record>): (r: seq<Line>)
    ensures |r| == |s| && forall i | 0 <= i < |s| :: r[i] == s[i].ToLine()
  {
    seq(|s|, i requires 0 <= i < |s| => s[i].ToLine())
  }

  // ---- Assembly

  function Rendered(lines: seq<Line>): octets {
    if lines == [] then [] else lines[0].Bytes() + Rendered(lines[1..])
  }

  lemma {:induction false} RenderedSnoc(lines: seq<Line>, last: Line)
    ensures Rendered(lines + [last]) == Rendered(lines) + last.Bytes()
  {
    if lines == [] {
      assert [] + [last] == [last] && [last][1..] == [];
      assert Rendered([last]) == last.Bytes() + Rendered([]);
    } else {
      assert (lines + [last])[1..] == lines[1..] + [last];
      RenderedSnoc(lines[1..], last);
    }
  }

  /** The first field, in block order, whose canonical line is too long. */
  function Oversized(limits: Limits, b: Block): Option<LimitExceeded> {
    if b == [] then None
    else
      var f := b[|b| - 1];
      match Oversized(limits, b[..|b| - 1])
      case Some(e) => Some(e)
      case None =>
        var size := |CanonicalLine(f).Bytes()|;
        if Relevant(f.Name()) && size > limits.maxFieldBytes
        then Some(LimitExceeded(MaxFieldBytes, size, limits.maxFieldBytes, |b| - 1))
        else None
  }

  function Assemble(limits: Limits, s: seq<Record>): (r: Result<octets, LimitExceeded>) {
    if s == [] then Ok([])
    else
      var last := s[|s| - 1];
      match Assemble(limits, s[..|s| - 1])
      case Err(e) => Err(e)
      case Ok(canonical) =>
        var size := |canonical| + |last.ToLine().Bytes()|;
        if size > limits.maxHeaderInputBytes
        then Err(LimitExceeded(MaxHeaderInputBytes, size, limits.maxHeaderInputBytes, last.index))
        else Ok(canonical + last.ToLine().Bytes())
  }

  /** The Section 6.2 input of a header block, or the first limit it violates. */
  function HashInput(limits: Limits, b: Block): Result<octets, LimitExceeded> {
    if |b| > limits.maxFieldCount
    then Err(LimitExceeded(MaxFieldCount, |b|, limits.maxFieldCount, 0))
    else
      match Oversized(limits, b)
      case Some(e) => Err(e)
      case None => Assemble(limits, SortedRecords(b))
  }

  method CollectRecords(limits: Limits, b: Block) returns (r: Result<seq<Record>, LimitExceeded>)
    ensures r == match Oversized(limits, b) case Some(e) => Err(e) case None => Ok(Records(b))
  {
    var records := [];
    var i := 0;
    assert b[..|b|] == b;
    while i < |b|
      invariant 0 <= i <= |b|
      invariant records == Records(b[..i])
      invariant Oversized(limits, b[..i]) == None
    {
      assert b[..i + 1][..i] == b[..i];
      var f := b[i];
      if Relevant(f.Name()) {
        var trimmed := TrimWsp(f.Value());
        var value := CompressWsp(trimmed);
        var size := |Line(f.Name(), value).Bytes()|;
        if size > limits.maxFieldBytes {
          OversizedStays(limits, b, i + 1);
          return Err(LimitExceeded(MaxFieldBytes, size, limits.maxFieldBytes, i));
        }
        records := records + [Record(f.Name(), i, value)];
      }
      i := i + 1;
    }
    return Ok(records);
  }

  method SortRecords(b: Block, records: seq<Record>) returns (sorted: seq<Record>)
    requires records == Records(b)
    ensures sorted == SortedRecords(b)
  {
    RecordsIndexed(b);
    PrecedesOrders(records);
    sorted := SortBy(records, Precedes);
    SortedRecordsSorted(b);
    PrecedesAsymmetric();
    SortedUnique(sorted, SortedRecords(b), Precedes);
  }

  method HeaderHashInput(limits: Limits, b: Block) returns (r: Result<octets, LimitExceeded>)
    ensures r == HashInput(limits, b)
  {
    if |b| > limits.maxFieldCount {
      return Err(LimitExceeded(MaxFieldCount, |b|, limits.maxFieldCount, 0));
    }
    var collected := CollectRecords(limits, b);
    if collected.Err? {
      return Err(collected.error);
    }
    var sorted := SortRecords(b, collected.value);
    r := AssembleLines(limits, sorted);
  }

  method AssembleLines(limits: Limits, sorted: seq<Record>) returns (r: Result<octets, LimitExceeded>)
    ensures r == Assemble(limits, sorted)
  {
    var canonical := [];
    var i := 0;
    assert sorted[..|sorted|] == sorted;
    while i < |sorted|
      invariant 0 <= i <= |sorted|
      invariant Assemble(limits, sorted[..i]) == Ok(canonical)
    {
      assert sorted[..i + 1][..i] == sorted[..i];
      var bytes := sorted[i].ToLine().Bytes();
      var size := |canonical| + |bytes|;
      if size > limits.maxHeaderInputBytes {
        AssembleStays(limits, sorted, i + 1);
        return Err(LimitExceeded(MaxHeaderInputBytes, size, limits.maxHeaderInputBytes, sorted[i].index));
      }
      canonical := canonical + bytes;
      i := i + 1;
    }
    return Ok(canonical);
  }

  lemma {:induction false} OversizedStays(limits: Limits, b: Block, i: nat)
    requires i <= |b| && Oversized(limits, b[..i]).Some?
    ensures Oversized(limits, b) == Oversized(limits, b[..i])
    decreases |b|
  {
    if i < |b| {
      assert b[..|b| - 1][..i] == b[..i];
      OversizedStays(limits, b[..|b| - 1], i);
    } else {
      assert b[..i] == b;
    }
  }

  lemma {:induction false} AssembleStays(limits: Limits, s: seq<Record>, i: nat)
    requires i <= |s| && Assemble(limits, s[..i]).Err?
    ensures Assemble(limits, s) == Assemble(limits, s[..i])
    decreases |s|
  {
    if i < |s| {
      assert s[..|s| - 1][..i] == s[..i];
      AssembleStays(limits, s[..|s| - 1], i);
    } else {
      assert s[..i] == s;
    }
  }

  lemma {:induction false} AssembleMeaning(limits: Limits, s: seq<Record>)
    ensures Assemble(limits, s).Ok? <==> |Rendered(Lines(s))| <= limits.maxHeaderInputBytes || s == []
    ensures Assemble(limits, s).Ok? ==> Assemble(limits, s).value == Rendered(Lines(s))
  {
    if s != [] {
      var init := s[..|s| - 1];
      AssembleMeaning(limits, init);
      assert Lines(s) == Lines(init) + [s[|s| - 1].ToLine()];
      RenderedSnoc(Lines(init), s[|s| - 1].ToLine());
    }
  }

  // ---- The normal-form theorem

  /** The canonical values of one name, in block order. */
  function Values(b: Block, name: octets): seq<octets> {
    if b == [] then []
    else
      Values(b[..|b| - 1], name)
      + if b[|b| - 1].Name() == name then [CanonicalValue(b[|b| - 1].Value())] else []
  }

  function ValuesNamed(lines: seq<Line>, name: octets): seq<octets> {
    if lines == [] then []
    else (if lines[0].name == name then [lines[0].value] else []) + ValuesNamed(lines[1..], name)
  }

  function Reversed<T>(s: seq<T>): (r: seq<T>)
    ensures |r| == |s| && forall i | 0 <= i < |s| :: r[i] == s[|s| - 1 - i]
  {
    seq(|s|, i requires 0 <= i < |s| => s[|s| - 1 - i])
  }

  predicate NameSorted(lines: seq<Line>) {
    forall i, j | 0 <= i < j < |lines| :: !Less(lines[j].name, lines[i].name)
  }

  lemma ValuesCons(x: Record, s: seq<Record>, name: octets)
    ensures ValuesNamed(Lines([x] + s), name)
         == (if x.name == name then [x.value] else []) + ValuesNamed(Lines(s), name)
  {
    assert Lines([x] + s) == [x.ToLine()] + Lines(s);
  }

  lemma {:induction false} InsertValues(x: Record, s: seq<Record>, name: octets)
    ensures ValuesNamed(Lines(Insert(x, s)), name)
         == (if x.name == name then [x.value] else []) + ValuesNamed(Lines(s), name)
  {
    hide Less, Lines, ValuesNamed;
    if s == [] || !Less(s[0].name, x.name) {
      ValuesCons(x, s, name);
    } else {
      InsertValues(x, s[1..], name);
      ValuesCons(s[0], Insert(x, s[1..]), name);
      ValuesCons(s[0], s[1..], name);
      assert s == [s[0]] + s[1..];
      if s[0].name == x.name {
        LessTotal(s[0].name, x.name);
      }
    }
  }

  lemma ValuesStep(b: Block, name: octets)
    requires b != []
    ensures Reversed(Values(b, name))
         == (if b[|b| - 1].Name() == name then [CanonicalValue(b[|b| - 1].Value())] else [])
            + Reversed(Values(b[..|b| - 1], name))
  {
    if b[|b| - 1].Name() == name {
      ReversedSnoc(Values(b[..|b| - 1], name), CanonicalValue(b[|b| - 1].Value()));
    }
  }

  lemma RecordValuesStep(b: Block, name: octets)
    requires b != []
    ensures ValuesNamed(Lines(SortedRecords(b)), name)
         == (if Relevant(b[|b| - 1].Name()) && b[|b| - 1].Name() == name
             then [CanonicalValue(b[|b| - 1].Value())] else [])
            + ValuesNamed(Lines(SortedRecords(b[..|b| - 1])), name)
  {
    var f := b[|b| - 1];
    InsertValues(Record(f.Name(), |b| - 1, CanonicalValue(f.Value())), SortedRecords(b[..|b| - 1]), name);
  }

  /** The sorted lines list each name's canonical values bottom-up, and only signed names occur. */
  lemma {:induction false} SortedValues(b: Block, name: octets)
    ensures ValuesNamed(Lines(SortedRecords(b)), name) == if Relevant(name) then Reversed(Values(b, name)) else []
  {
    if b != [] {
      SortedValues(b[..|b| - 1], name);
      ValuesStep(b, name);
      RecordValuesStep(b, name);
    }
  }

  lemma ReversedSnoc<T>(s: seq<T>, x: T)
    ensures Reversed(s + [x]) == [x] + Reversed(s)
  {
  }

  lemma SortedRecordsNameSorted(b: Block)
    ensures NameSorted(Lines(SortedRecords(b)))
  {
    SortedRecordsSorted(b);
    var s := SortedRecords(b);
    forall i, j | 0 <= i < j < |s| ensures !Less(s[j].name, s[i].name) {
      assert Precedes(s[i], s[j]);
      LessTotal(s[i].name, s[j].name);
    }
  }

  lemma {:induction false} ValuesNamedAbsent(lines: seq<Line>, name: octets)
    ensures ValuesNamed(lines, name) != [] <==> exists i :: 0 <= i < |lines| && lines[i].name == name
  {
    if lines != [] {
      ValuesNamedAbsent(lines[1..], name);
      assert lines == [lines[0]] + lines[1..];
      if exists i :: 0 <= i < |lines| && lines[i].name == name {
        var i :| 0 <= i < |lines| && lines[i].name == name;
        assert i == 0 || lines[1..][i - 1].name == name;
      }
    }
  }

  /** Two name-sorted listings with the same values under every name are the same listing. */
  lemma {:induction false} SameValuesSameLines(a: seq<Line>, b: seq<Line>)
    requires NameSorted(a) && NameSorted(b)
    requires forall name :: ValuesNamed(a, name) == ValuesNamed(b, name)
    ensures a == b
    decreases |a|
  {
    var some := if a != [] then a[0].name else if b != [] then b[0].name else [];
    assert ValuesNamed(a, some) == ValuesNamed(b, some);
    ValuesNamedAbsent(a, some);
    ValuesNamedAbsent(b, some);
    if a != [] && b != [] {
      SameFirstName(a, b);
      assert ValuesNamed(a, a[0].name) == ValuesNamed(b, a[0].name);
      forall name ensures ValuesNamed(a[1..], name) == ValuesNamed(b[1..], name) {
        assert ValuesNamed(a, name) == ValuesNamed(b, name);
        ValuesTail(a, name);
        ValuesTail(b, name);
      }
      assert a[0].value == ValuesNamed(a, a[0].name)[0] && b[0].value == ValuesNamed(b, b[0].name)[0];
      SameValuesSameLines(a[1..], b[1..]);
      assert a == [a[0]] + a[1..] && b == [b[0]] + b[1..];
    }
  }

  lemma ValuesTail(lines: seq<Line>, name: octets)
    requires lines != []
    ensures ValuesNamed(lines, lines[0].name) != []
    ensures lines[0].name == name ==> ValuesNamed(lines[1..], name) == ValuesNamed(lines, name)[1..]
    ensures lines[0].name != name ==> ValuesNamed(lines[1..], name) == ValuesNamed(lines, name)
  {
  }

  lemma SameFirstName(a: seq<Line>, b: seq<Line>)
    requires a != [] && b != [] && NameSorted(a) && NameSorted(b)
    requires forall name :: ValuesNamed(a, name) == ValuesNamed(b, name)
    ensures a[0].name == b[0].name
  {
    var n, m := a[0].name, b[0].name;
    assert ValuesNamed(a, n) == ValuesNamed(b, n) && ValuesNamed(a, m) == ValuesNamed(b, m);
    ValuesNamedAbsent(a, n);
    ValuesNamedAbsent(b, n);
    ValuesNamedAbsent(a, m);
    ValuesNamedAbsent(b, m);
    var j :| 0 <= j < |b| && b[j].name == n;
    var i :| 0 <= i < |a| && a[i].name == m;
    assert !Less(n, m) || j == 0;
    assert !Less(m, n) || i == 0;
    LessTotal(n, m);
  }

  predicate PlainLine(l: Line) {
    ':' !in l.name && '\r' !in l.value
  }

  lemma {:induction false} RenderedInjective(a: seq<Line>, b: seq<Line>)
    requires forall i | 0 <= i < |a| :: PlainLine(a[i])
    requires forall i | 0 <= i < |b| :: PlainLine(b[i])
    requires Rendered(a) == Rendered(b)
    ensures a == b
  {
    if a != [] && b != [] {
      var x, y := Rendered(a[1..]), Rendered(b[1..]);
      var u, w := a[0], b[0];
      assert Rendered(a) == u.name + [':'] + (u.value + CRLF + x);
      assert Rendered(b) == w.name + [':'] + (w.value + CRLF + y);
      CutAtFirst(u.name, u.value + CRLF + x, w.name, w.value + CRLF + y, ':');
      assert u.value + CRLF + x == u.value + ['\r'] + (['\n'] + x);
      assert w.value + CRLF + y == w.value + ['\r'] + (['\n'] + y);
      CutAtFirst(u.value, ['\n'] + x, w.value, ['\n'] + y, '\r');
      assert x == (['\n'] + x)[1..] && y == (['\n'] + y)[1..];
      RenderedInjective(a[1..], b[1..]);
      assert a == [a[0]] + a[1..] && b == [b[0]] + b[1..];
    }
  }

  lemma {:induction false} RecordsPlain(b: Block)
    requires ValidBlock(b)
    ensures forall i | 0 <= i < |Records(b)| :: PlainLine(Records(b)[i].ToLine())
  {
    if b != [] {
      var f := b[|b| - 1];
      assert ValidBlock(b[..|b| - 1]);
      RecordsPlain(b[..|b| - 1]);
      NameHasNoMark(f.rawName, ':');
      UnfoldedHasNoLineEnd(f.rawValue);
      CompressKeepsLineEndFree(Trim(f.Value()), false);
    }
  }

  lemma SortedLinesPlain(b: Block)
    requires ValidBlock(b)
    ensures forall i | 0 <= i < |SortedRecords(b)| :: PlainLine(Lines(SortedRecords(b))[i])
  {
    RecordsPlain(b);
    SortedRecordsSorted(b);
    forall i | 0 <= i < |SortedRecords(b)| ensures PlainLine(Lines(SortedRecords(b))[i]) {
      assert SortedRecords(b)[i] in multiset(Records(b));
    }
  }

  /** The order and interleaving of names do not matter: equal values per signed name give equal lines. */
  lemma SameValuesSameRecords(a: Block, b: Block)
    requires forall name | Relevant(name) :: Values(a, name) == Values(b, name)
    ensures Lines(SortedRecords(a)) == Lines(SortedRecords(b))
  {
    forall name
      ensures ValuesNamed(Lines(SortedRecords(a)), name) == ValuesNamed(Lines(SortedRecords(b)), name)
    {
      SortedValues(a, name);
      SortedValues(b, name);
      assert Relevant(name) ==> Values(a, name) == Values(b, name);
    }
    SortedRecordsNameSorted(a);
    SortedRecordsNameSorted(b);
    SameValuesSameLines(Lines(SortedRecords(a)), Lines(SortedRecords(b)));
  }

  /** Section 6.2 input is a true normal form: within limits, two blocks have equal input exactly when
      every signed name lists the same canonical values in the same order. */
  lemma NormalForm(limits: Limits, a: Block, b: Block)
    requires ValidBlock(a) && ValidBlock(b)
    requires HashInput(limits, a).Ok? && HashInput(limits, b).Ok?
    ensures HashInput(limits, a) == HashInput(limits, b)
       <==> forall name | Relevant(name) :: Values(a, name) == Values(b, name)
  {
    AssembleMeaning(limits, SortedRecords(a));
    AssembleMeaning(limits, SortedRecords(b));
    if HashInput(limits, a) == HashInput(limits, b) {
      SortedLinesPlain(a);
      SortedLinesPlain(b);
      RenderedInjective(Lines(SortedRecords(a)), Lines(SortedRecords(b)));
      forall name | Relevant(name) ensures Values(a, name) == Values(b, name) {
        SortedValues(a, name);
        SortedValues(b, name);
        assert Values(a, name) == Reversed(Reversed(Values(a, name)));
        assert Values(b, name) == Reversed(Reversed(Values(b, name)));
      }
    }
    if forall name | Relevant(name) :: Values(a, name) == Values(b, name) {
      SameValuesSameRecords(a, b);
    }
  }

  // ---- Limits under a change of representation

  predicate Fits(limits: Limits, f: Field) {
    Relevant(f.Name()) ==> |CanonicalLine(f).Bytes()| <= limits.maxFieldBytes
  }

  lemma OversizedStep(limits: Limits, b: Block)
    requires b != []
    ensures Oversized(limits, b) == None <==> Oversized(limits, b[..|b| - 1]) == None && Fits(limits, b[|b| - 1])
  {
  }

  lemma {:induction false} WithinFieldLimit(limits: Limits, b: Block)
    ensures Oversized(limits, b) == None <==> forall i | 0 <= i < |b| :: Fits(limits, b[i])
  {
    if b != [] {
      var init := b[..|b| - 1];
      OversizedStep(limits, b);
      WithinFieldLimit(limits, init);
      if Oversized(limits, b) == None {
        forall i | 0 <= i < |b| ensures Fits(limits, b[i]) {
          assert i == |b| - 1 || b[i] == init[i];
        }
      } else if Fits(limits, b[|b| - 1]) {
        var i :| 0 <= i < |init| && !Fits(limits, init[i]);
        assert b[i] == init[i];
      }
    }
  }

  lemma {:induction false} ValuesMembers(b: Block, name: octets)
    ensures forall v | v in Values(b, name)
              :: exists i :: 0 <= i < |b| && b[i].Name() == name && CanonicalValue(b[i].Value()) == v
    ensures forall i | 0 <= i < |b| && b[i].Name() == name :: CanonicalValue(b[i].Value()) in Values(b, name)
  {
    if b != [] {
      var init := b[..|b| - 1];
      ValuesMembers(init, name);
      assert forall i | 0 <= i < |init| :: b[i] == init[i];
      forall v | v in Values(b, name)
        ensures exists i :: 0 <= i < |b| && b[i].Name() == name && CanonicalValue(b[i].Value()) == v
      {
        if v in Values(init, name) {
          var i :| 0 <= i < |init| && init[i].Name() == name && CanonicalValue(init[i].Value()) == v;
          assert b[i] == init[i];
        } else {
          assert b[|b| - 1].Name() == name && CanonicalValue(b[|b| - 1].Value()) == v;
        }
      }
    }
  }

  /** A block with the same signed values has the same input, unless it alone holds too many fields. */
  lemma SameValuesSameInput(limits: Limits, a: Block, b: Block)
    requires HashInput(limits, a).Ok? && |b| <= limits.maxFieldCount
    requires forall name | Relevant(name) :: Values(a, name) == Values(b, name)
    ensures HashInput(limits, b) == HashInput(limits, a)
  {
    WithinFieldLimit(limits, a);
    WithinFieldLimit(limits, b);
    forall i | 0 <= i < |b| ensures Fits(limits, b[i]) {
      var name := b[i].Name();
      if Relevant(name) {
        ValuesMembers(b, name);
        ValuesMembers(a, name);
        assert CanonicalValue(b[i].Value()) in Values(a, name);
        var j :| 0 <= j < |a| && a[j].Name() == name && CanonicalValue(a[j].Value()) == CanonicalValue(b[i].Value());
        assert Fits(limits, a[j]) && CanonicalLine(a[j]) == CanonicalLine(b[i]);
      }
    }
    SameValuesSameRecords(a, b);
    AssembleMeaning(limits, SortedRecords(a));
    AssembleMeaning(limits, SortedRecords(b));
  }

  /** Values are read off the subsequence of one name. */
  lemma {:induction false} SameNamedSameValues(a: Block, b: Block, name: octets)
    requires Named(a, name) == Named(b, name)
    ensures Values(a, name) == Values(b, name)
  {
    ValuesOfNamed(a, name);
    ValuesOfNamed(b, name);
  }

  lemma ValuesSnoc(b: Block, f: Field, name: octets)
    ensures Values(b + [f], name) == Values(b, name) + if f.Name() == name then [CanonicalValue(f.Value())] else []
  {
    assert (b + [f])[..|b|] == b;
  }

  lemma {:induction false} ValuesOfNamed(b: Block, name: octets)
    ensures Values(b, name) == Values(Named(b, name), name)
  {
    hide CanonicalValue, Lower, Unfold;
    if b != [] {
      var init, f := b[..|b| - 1], b[|b| - 1];
      ValuesOfNamed(init, name);
      assert b == init + [f];
      NamedSnoc(init, f, name);
      ValuesSnoc(init, f, name);
      if f.Name() == name {
        ValuesSnoc(Named(init, name), f, name);
      } else {
        assert Named(b, name) == Named(init, name);
      }
    }
  }
}
