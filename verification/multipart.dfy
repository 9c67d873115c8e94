/** MIME multipart framing (section 5.1.1 of RFC 2046): the delimiter scan, the splitter, and the printer it
    inverts. */
module Multipart {
  import opened Octets

  datatype Delimiter = Delimiter(end: nat, closing: bool)

  /** A delimiter line found after a CRLF: where its CRLF starts, where the line ends, and whether it closes. */
  datatype Found = Found(start: nat, end: nat, closing: bool)

  datatype SplitError = MalformedMultipart | InvalidPartCount

  const MAX_PARTS := 3

  // ---- Delimiter lines

  function SkipWsp(body: octets, i: nat): (r: nat)
    requires i <= |body|
    ensures i <= r <= |body|
    decreases |body| - i
  {
    if i < |body| && IsWsp(body[i]) then SkipWsp(body, i + 1) else i
  }

  function Dashed(boundary: octets): octets {
    "--" + boundary
  }

  /** Where the octets after a dashed boundary let a line end. */
  function LineEnd(body: octets, after: nat): (r: Option<Delimiter>)
    requires after <= |body|
    ensures r.Some? ==> after + 2 <= r.value.end <= |body|
  {
    var closing := OccursAt(body, after, "--");
    var end := SkipWsp(body, if closing then after + 2 else after);
    if OccursAt(body, end, CRLF) then Some(Delimiter(end + 2, closing)) else None
  }

  /** One complete boundary line at `offset`. */
  function DelimiterAt(body: octets, offset: nat, boundary: octets): (r: Option<Delimiter>)
    ensures r.Some? ==> offset + 4 + |boundary| <= r.value.end <= |body|
  {
    if !OccursAt(body, offset, Dashed(boundary)) then None
    else LineEnd(body, offset + 2 + |boundary|)
  }

  method FindDelimiterAt(body: octets, offset: nat, boundary: octets) returns (r: Option<Delimiter>)
    requires offset <= |body|
    ensures r == DelimiterAt(body, offset, boundary)
  {
    if !OccursAt(body, offset, Dashed(boundary)) {
      return None;
    }
    var position := offset + |Dashed(boundary)|;
    var closing := false;
    if OccursAt(body, position, "--") {
      closing := true;
      position := position + 2;
    }
    ghost var start := position;
    while position < |body| && IsWsp(body[position])
      invariant start <= position <= |body|
      invariant SkipWsp(body, start) == SkipWsp(body, position)
    {
      position := position + 1;
    }
    if !OccursAt(body, position, CRLF) {
      return None;
    }
    return Some(Delimiter(position + 2, closing));
  }

  /** A CRLF at `from` followed by a complete boundary line. */
  predicate AnchoredAt(body: octets, from: nat, boundary: octets) {
    OccursAt(body, from, CRLF) && DelimiterAt(body, from + 2, boundary).Some?
  }

  /** The first anchored boundary line whose CRLF starts at or after `from`. */
  function Next(body: octets, from: nat, boundary: octets): (r: Option<Found>)
    ensures r.Some? ==> from <= r.value.start && r.value.start + 2 < r.value.end <= |body|
    decreases |body| - from
  {
    if |body| <= from then None
    else if AnchoredAt(body, from, boundary) then
      var d := DelimiterAt(body, from + 2, boundary).value;
      Some(Found(from, d.end, d.closing))
    else Next(body, from + 1, boundary)
  }

  lemma {:induction false} NextIsFirst(body: octets, from: nat, boundary: octets)
    requires Next(body, from, boundary).Some?
    ensures var found := Next(body, from, boundary).value;
      && AnchoredAt(body, found.start, boundary)
      && DelimiterAt(body, found.start + 2, boundary) == Some(Delimiter(found.end, found.closing))
    ensures forall i | from <= i < Next(body, from, boundary).value.start :: !AnchoredAt(body, i, boundary)
    decreases |body| - from
  {
    if !AnchoredAt(body, from, boundary) {
      NextIsFirst(body, from + 1, boundary);
      var start := Next(body, from + 1, boundary).value.start;
      assert Next(body, from, boundary) == Next(body, from + 1, boundary);
      forall i | from <= i < start ensures !AnchoredAt(body, i, boundary) {
        if from < i {
        }
      }
    }
  }

  lemma {:induction false} NextSkips(body: octets, from: nat, to: nat, boundary: octets)
    requires from <= to <= |body| && forall i | from <= i < to :: !AnchoredAt(body, i, boundary)
    ensures Next(body, from, boundary) == Next(body, to, boundary)
    decreases |body| - from
  {
    if from < to {
      assert !AnchoredAt(body, from, boundary);
      NextSkips(body, from + 1, to, boundary);
    }
  }

  lemma {:induction false} NextNone(body: octets, from: nat, boundary: octets)
    requires forall i | from <= i :: !AnchoredAt(body, i, boundary)
    ensures Next(body, from, boundary).None?
    decreases |body| - from
  {
    if from < |body| {
      assert !AnchoredAt(body, from, boundary);
      NextNone(body, from + 1, boundary);
    }
  }

  lemma NoAnchor(body: octets, from: nat, to: nat, boundary: octets)
    requires from <= to
    requires forall i | from <= i < to :: !OccursAt(body, i, "\r\n--")
    ensures forall i | from <= i < to :: !AnchoredAt(body, i, boundary)
  {
    forall i | from <= i < to ensures !AnchoredAt(body, i, boundary) {
      if OccursAt(body, i, CRLF) && OccursAt(body, i + 2, Dashed(boundary)) {
        AnchorText(body, i, boundary);
      }
    }
  }

  lemma AnchorText(body: octets, i: nat, boundary: octets)
    requires OccursAt(body, i, CRLF) && OccursAt(body, i + 2, Dashed(boundary))
    ensures OccursAt(body, i, "\r\n--")
  {
    assert Dashed(boundary)[..2] == "--";
    assert body[i + 2..i + 4] == body[i + 2..i + 2 + |Dashed(boundary)|][..2];
    assert body[i..i + 4] == body[i..i + 2] + body[i + 2..i + 4];
  }

  lemma AnchorOfText(body: octets, i: nat)
    requires OccursAt(body, i, "\r\n--")
    ensures OccursAt(body, i, CRLF)
    ensures !OccursAt(body, i + 1, "\r\n--") && !OccursAt(body, i + 2, "\r\n--")
  {
    var text := body[i..i + 4];
    assert body[i..i + 2] == text[..2];
    assert body[i + 1] == text[1] == '\n' && body[i + 2] == text[2] == '-';
    if i + 5 <= |body| {
      assert body[i + 1..i + 5][0] == '\n';
    }
    if i + 6 <= |body| {
      assert body[i + 2..i + 6][0] == '-';
    }
  }

  /** Every line start before `lineStart + 1` is dealt with once the line at `lineStart` is rejected. */
  lemma NextRejected(body: octets, offset: nat, at: nat, boundary: octets)
    requires offset <= at && OccursAt(body, at, "\r\n--")
    requires forall i | offset <= i < at :: !OccursAt(body, i, "\r\n--")
    requires DelimiterAt(body, at + 2, boundary).None?
    ensures at + 3 <= |body| && Next(body, offset, boundary) == Next(body, at + 3, boundary)
  {
    NoAnchor(body, offset, at, boundary);
    AnchorOfText(body, at);
    NoAnchor(body, at + 1, at + 3, boundary);
    assert !AnchoredAt(body, at, boundary);
    NextSkips(body, offset, at + 3, boundary);
  }

  lemma NextAccepted(body: octets, offset: nat, at: nat, boundary: octets)
    requires offset <= at && OccursAt(body, at, "\r\n--")
    requires forall i | offset <= i < at :: !OccursAt(body, i, "\r\n--")
    requires DelimiterAt(body, at + 2, boundary).Some?
    ensures var d := DelimiterAt(body, at + 2, boundary).value;
      Next(body, offset, boundary) == Some(Found(at, d.end, d.closing))
  {
    NoAnchor(body, offset, at, boundary);
    AnchorOfText(body, at);
    NextSkips(body, offset, at, boundary);
    assert AnchoredAt(body, at, boundary);
  }

  lemma NextAbsent(body: octets, offset: nat, boundary: octets)
    requires (forall i | offset <= i :: !OccursAt(body, i, "\r\n--")) || |body| < offset + 2 + |boundary|
    ensures Next(body, offset, boundary).None?
  {
    if forall i | offset <= i :: !OccursAt(body, i, "\r\n--") {
      NoAnchor(body, offset, offset + |body|, boundary);
    }
    NextNone(body, offset, boundary);
  }

  /** The scan with skip-ahead finds exactly the first anchored boundary line: continuing one octet past a
      rejected line start misses none. */
  method NextDelimiter(body: octets, start: nat, boundary: octets) returns (r: Option<Found>)
    ensures r == Next(body, start, boundary)
  {
    var offset := start;
    while offset + 2 + |boundary| <= |body|
      invariant start <= offset
      invariant Next(body, start, boundary) == Next(body, offset, boundary)
      decreases |body| - offset
    {
      var at := Find(body, offset, "\r\n--");
      if at.None? {
        NextAbsent(body, offset, boundary);
        return None;
      }
      var lineStart := at.value + 2;
      var d := FindDelimiterAt(body, lineStart, boundary);
      if d.Some? {
        NextAccepted(body, offset, at.value, boundary);
        return Some(Found(lineStart - 2, d.value.end, d.value.closing));
      }
      NextRejected(body, offset, at.value, boundary);
      offset := lineStart + 1;
    }
    NextAbsent(body, offset, boundary);
    return None;
  }

  /** The opening line: at the very start, or after a preamble. */
  function First(body: octets, boundary: octets): (r: Option<Found>) {
    match DelimiterAt(body, 0, boundary)
    case Some(d) => Some(Found(0, d.end, d.closing))
    case None => Next(body, 0, boundary)
  }

  method FirstDelimiter(body: octets, boundary: octets) returns (r: Option<Found>)
    ensures r == First(body, boundary)
  {
    var d := FindDelimiterAt(body, 0, boundary);
    if d.Some? {
      return Some(Found(0, d.value.end, d.value.closing));
    }
    r := NextDelimiter(body, 0, boundary);
  }

  // ---- Splitting

  function Prefixed(parts: seq<octets>, rest: Result<seq<octets>, SplitError>): Result<seq<octets>, SplitError> {
    match rest case Err(e) => Err(e) case Ok(more) => Ok(parts + more)
  }

  /** The parts from `start` on, when `count` parts precede them. */
  function PartsFrom(body: octets, start: nat, boundary: octets, count: nat): (r: Result<seq<octets>, SplitError>)
    requires start <= |body|
    ensures r.Ok? ==> 1 <= |r.value| && count + |r.value| <= MAX_PARTS
    decreases |body| - start
  {
    match Next(body, start, boundary)
    case None => Err(MalformedMultipart)
    case Some(next) =>
      if count + 1 > MAX_PARTS then Err(InvalidPartCount)
      else if next.closing then Ok([body[start..next.start]])
      else Prefixed([body[start..next.start]], PartsFrom(body, next.end, boundary, count + 1))
  }

  function Split(body: octets, boundary: octets): Result<seq<octets>, SplitError> {
    match First(body, boundary)
    case None => Err(MalformedMultipart)
    case Some(first) => if first.closing then Err(InvalidPartCount) else PartsFrom(body, first.end, boundary, 0)
  }

  method SplitMultipart(body: octets, boundary: octets) returns (r: Result<seq<octets>, SplitError>)
    ensures r == Split(body, boundary)
  {
    var first := FirstDelimiter(body, boundary);
    if first.None? {
      return Err(MalformedMultipart);
    }
    if first.value.closing {
      return Err(InvalidPartCount);
    }
    var start := first.value.end;
    var parts := [];
    PrefixedNone(PartsFrom(body, start, boundary, 0));
    while true
      invariant start <= |body| && |parts| <= MAX_PARTS
      invariant Split(body, boundary) == Prefixed(parts, PartsFrom(body, start, boundary, |parts|))
      decreases |body| - start
    {
      var next := NextDelimiter(body, start, boundary);
      if next.None? {
        return Err(MalformedMultipart);
      }
      PrefixedStep(parts, body, start, boundary);
      parts := parts + [body[start..next.value.start]];
      if |parts| > MAX_PARTS {
        return Err(InvalidPartCount);
      }
      if next.value.closing {
        return Ok(parts);
      }
      start := next.value.end;
    }
  }

  lemma PrefixedNone(rest: Result<seq<octets>, SplitError>)
    ensures Prefixed([], rest) == rest
  {
    if rest.Ok? {
      assert [] + rest.value == rest.value;
    }
  }

  lemma PrefixedStep(parts: seq<octets>, body: octets, start: nat, boundary: octets)
    requires start <= |body| && Next(body, start, boundary).Some?
    ensures var next := Next(body, start, boundary).value;
      Prefixed(parts, PartsFrom(body, start, boundary, |parts|)) ==
        if |parts| + 1 > MAX_PARTS then Err(InvalidPartCount)
        else if next.closing then Ok(parts + [body[start..next.start]])
        else Prefixed(parts + [body[start..next.start]], PartsFrom(body, next.end, boundary, |parts| + 1))
  {
    var next := Next(body, start, boundary).value;
    if !next.closing && |parts| < MAX_PARTS {
      var rest := PartsFrom(body, next.end, boundary, |parts| + 1);
      if rest.Ok? {
        assert parts + ([body[start..next.start]] + rest.value) == (parts + [body[start..next.start]]) + rest.value;
      }
    }
  }

  // ---- A boundary line read in a longer body

  lemma {:induction false} SkipWspShift(body: octets, k: nat, i: nat)
    requires k + i <= |body|
    ensures SkipWsp(body, k + i) == k + SkipWsp(body[k..], i)
    decreases |body| - i
  {
    if k + i < |body| && IsWsp(body[k + i]) {
      SkipWspShift(body, k, i + 1);
    }
  }

  function Shifted(d: Option<Delimiter>, k: nat): Option<Delimiter> {
    match d case None => None case Some(d) => Some(Delimiter(k + d.end, d.closing))
  }

  lemma LineEndShift(body: octets, k: nat, tail: octets, after: nat)
    requires k <= |body| && tail == body[k..] && after <= |tail|
    ensures LineEnd(body, k + after) == Shifted(LineEnd(tail, after), k)
  {
    OccursShift(body, k, after, "--");
    var pad := if OccursAt(tail, after, "--") then after + 2 else after;
    SkipWspShift(body, k, pad);
    OccursShift(body, k, SkipWsp(tail, pad), CRLF);
  }

  lemma DelimiterShift(body: octets, k: nat, tail: octets, offset: nat, boundary: octets)
    requires k <= |body| && tail == body[k..]
    ensures DelimiterAt(body, k + offset, boundary) == Shifted(DelimiterAt(tail, offset, boundary), k)
  {
    OccursShift(body, k, offset, Dashed(boundary));
    if OccursAt(tail, offset, Dashed(boundary)) {
      LineEndShift(body, k, tail, offset + 2 + |boundary|);
    }
  }

  lemma AnchoredShift(body: octets, k: nat, tail: octets, i: nat, boundary: octets)
    requires k <= |body| && tail == body[k..]
    ensures AnchoredAt(body, k + i, boundary) <==> AnchoredAt(tail, i, boundary)
  {
    OccursShift(body, k, i, CRLF);
    DelimiterShift(body, k, tail, i + 2, boundary);
  }

  function ShiftedFound(f: Option<Found>, k: nat): Option<Found> {
    match f case None => None case Some(f) => Some(Found(k + f.start, k + f.end, f.closing))
  }

  lemma {:induction false} NextShift(body: octets, k: nat, tail: octets, from: nat, boundary: octets)
    requires k <= |body| && tail == body[k..]
    ensures Next(body, k + from, boundary) == ShiftedFound(Next(tail, from, boundary), k)
    decreases |tail| - from
  {
    hide DelimiterAt, OccursAt;
    if from < |tail| {
      AnchoredShift(body, k, tail, from, boundary);
      DelimiterShift(body, k, tail, from + 2, boundary);
      if !AnchoredAt(tail, from, boundary) {
        NextShift(body, k, tail, from + 1, boundary);
      }
    }
  }

  /** The parts from an offset on depend only on the octets from there. */
  lemma {:induction false} PartsShift(body: octets, k: nat, tail: octets, start: nat, boundary: octets, count: nat)
    requires k <= |body| && tail == body[k..] && start <= |tail|
    ensures PartsFrom(body, k + start, boundary, count) == PartsFrom(tail, start, boundary, count)
    decreases |tail| - start
  {
    hide AnchoredAt, DelimiterAt;
    NextShift(body, k, tail, start, boundary);
    var next := Next(tail, start, boundary);
    if next.Some? {
      PartShift(body, k, tail, start, next.value.start);
      if !next.value.closing && count < MAX_PARTS {
        PartsShift(body, k, tail, next.value.end, boundary, count + 1);
      }
    }
  }

  lemma PartShift(body: octets, k: nat, tail: octets, from: nat, to: nat)
    requires k <= |body| && tail == body[k..] && from <= to <= |tail|
    ensures body[k + from..k + to] == tail[from..to]
  {
  }

  lemma OccursChars(hay: octets, i: nat, needle: octets)
    requires OccursAt(hay, i, needle)
    ensures forall j | i <= j < i + |needle| :: hay[j] == needle[j - i]
  {
    forall j | i <= j < i + |needle| ensures hay[j] == needle[j - i] {
      assert hay[j] == hay[i..i + |needle|][j - i];
    }
  }

  lemma OccursAvoids(hay: octets, i: nat, needle: octets, k: nat)
    requires OccursAt(hay, i, needle) && i <= k < |hay| && hay[k] !in needle
    ensures i + |needle| <= k
  {
    OccursChars(hay, i, needle);
  }

  /** A mark without a CR that occurs before a CR ends before it. */
  lemma OccursBefore(text: octets, after: octets, i: nat, needle: octets)
    requires '\r' !in needle && i <= |text|
    ensures OccursAt(text + CRLF + after, i, needle) <==> OccursAt(text + CRLF, i, needle)
    ensures OccursAt(text + CRLF, i, needle) ==> i + |needle| <= |text|
  {
    var long, short := text + CRLF + after, text + CRLF;
    assert long[|text|] == short[|text|] == '\r';
    if OccursAt(long, i, needle) {
      OccursAvoids(long, i, needle, |text|);
    }
    if OccursAt(short, i, needle) {
      OccursAvoids(short, i, needle, |text|);
    }
    if i + |needle| <= |text| {
      assert long[i..i + |needle|] == short[i..i + |needle|];
    }
  }

  lemma {:induction false} SkipWspBefore(text: octets, after: octets, i: nat)
    requires i <= |text|
    ensures SkipWsp(text + CRLF + after, i) == SkipWsp(text + CRLF, i) <= |text|
    decreases |text| - i
  {
    if i < |text| && IsWsp(text[i]) {
      SkipWspBefore(text, after, i + 1);
    }
  }

  /** Whether a line before a CRLF is a boundary line does not depend on what follows that CRLF. */
  lemma DelimiterLocal(text: octets, after: octets, offset: nat, boundary: octets)
    requires '\r' !in boundary && offset <= |text|
    ensures DelimiterAt(text + CRLF + after, offset, boundary) == DelimiterAt(text + CRLF, offset, boundary)
  {
    hide LineEnd, OccursAt;
    OccursBefore(text, after, offset, Dashed(boundary));
    if OccursAt(text + CRLF, offset, Dashed(boundary)) {
      LineEndLocal(text, after, offset + 2 + |boundary|);
    }
  }

  lemma LineEndLocal(text: octets, after: octets, line: nat)
    requires line <= |text|
    ensures LineEnd(text + CRLF + after, line) == LineEnd(text + CRLF, line)
  {
    OccursBefore(text, after, line, "--");
    var tail := if OccursAt(text + CRLF, line, "--") then line + 2 else line;
    SkipWspBefore(text, after, tail);
    var end := SkipWsp(text + CRLF, tail);
    assert (text + CRLF + after)[end..end + 2] == (text + CRLF)[end..end + 2];
  }

  // ---- Written multiparts

  /** One boundary line with its transport padding. */
  function Line(boundary: octets, closing: bool, padding: octets): octets {
    Dashed(boundary) + (if closing then "--" else "") + padding + CRLF
  }

  lemma {:induction false} SkipPadding(before: octets, padding: octets, after: octets)
    requires AllWsp(padding)
    ensures SkipWsp(before + padding + CRLF + after, |before|) == |before + padding|
    decreases |padding|
  {
    if padding != [] {
      var body := before + padding + CRLF + after;
      assert body[|before|] == padding[0];
      assert body == (before + [padding[0]]) + padding[1..] + CRLF + after;
      SkipPadding(before + [padding[0]], padding[1..], after);
    }
  }

  lemma OccursAfter(before: octets, needle: octets, after: octets)
    ensures OccursAt(before + needle + after, |before|, needle)
  {
    assert (before + needle + after)[|before|..|before| + |needle|] == needle;
  }

  lemma LineParts(boundary: octets, closing: bool, padding: octets, after: octets)
    ensures var body := Line(boundary, closing, padding) + after;
      var marks := Dashed(boundary) + if closing then "--" else "";
      body == marks + padding + CRLF + after && body == Dashed(boundary) + (body[|Dashed(boundary)|..])
  {
  }

  lemma LineRead(boundary: octets, closing: bool, padding: octets, after: octets)
    requires AllWsp(padding)
    ensures var line := Line(boundary, closing, padding);
      DelimiterAt(line + after, 0, boundary) == Some(Delimiter(|line|, closing))
  {
    var body := Line(boundary, closing, padding) + after;
    var dashed := Dashed(boundary);
    var marks := dashed + if closing then "--" else "";
    LineParts(boundary, closing, padding, after);
    OccursAfter([], dashed, body[|dashed|..]);
    assert [] + dashed + body[|dashed|..] == body;
    var mark := body[|dashed|];
    if closing {
      OccursAfter(dashed, "--", padding + CRLF + after);
      assert dashed + "--" + (padding + CRLF + after) == body;
    } else {
      assert mark == (padding + CRLF)[0] && mark != '-';
      if OccursAt(body, |dashed|, "--") {
        OccursChars(body, |dashed|, "--");
      }
    }
    SkipPadding(marks, padding, after);
    OccursAfter(marks + padding, CRLF, after);
  }

  lemma {:induction false} SkippedIsWsp(body: octets, i: nat)
    requires i <= |body|
    ensures AllWsp(body[i..SkipWsp(body, i)])
    decreases |body| - i
  {
    if i < |body| && IsWsp(body[i]) {
      SkippedIsWsp(body, i + 1);
      assert body[i..SkipWsp(body, i)] == [body[i]] + body[i + 1..SkipWsp(body, i)];
    }
  }

  lemma SlicesJoin(s: octets, i: nat, j: nat, k: nat)
    requires i <= j <= k <= |s|
    ensures s[i..k] == s[i..j] + s[j..k]
  {
  }

  lemma LineWritten(body: octets, offset: nat, boundary: octets) returns (padding: octets)
    requires DelimiterAt(body, offset, boundary).Some?
    ensures AllWsp(padding)
    ensures var d := DelimiterAt(body, offset, boundary).value;
      body[offset..d.end] == Line(boundary, d.closing, padding)
  {
    var after := offset + 2 + |boundary|;
    var d := DelimiterAt(body, offset, boundary).value;
    var from := if d.closing then after + 2 else after;
    var to := SkipWsp(body, from);
    SkippedIsWsp(body, from);
    padding := body[from..to];
    SlicesJoin(body, offset, after, from);
    SlicesJoin(body, offset, from, to);
    SlicesJoin(body, offset, to, d.end);
  }

  /** No complete boundary line starts inside the part or at the CRLF that ends it, other than the one after. */
  ghost predicate Clean(part: octets, boundary: octets) {
    forall i | 0 <= i < |part| :: !AnchoredAt(part + CRLF, i, boundary)
  }

  lemma AnchoredLocal(part: octets, after: octets, i: nat, boundary: octets)
    requires '\r' !in boundary && i < |part|
    ensures AnchoredAt(part + CRLF + after, i, boundary) <==> AnchoredAt(part + CRLF, i, boundary)
  {
    var long, short := part + CRLF + after, part + CRLF;
    assert long[i..i + 2] == short[i..i + 2];
    if OccursAt(short, i, CRLF) {
      assert short[i + 1] == short[i..i + 2][1] == '\n';
      assert short[|part|] == '\r';
      DelimiterLocal(part, after, i + 2, boundary);
    }
  }

  lemma CleanPartSkipped(part: octets, after: octets, boundary: octets)
    requires '\r' !in boundary && Clean(part, boundary)
    ensures Next(part + CRLF + after, 0, boundary) == Next(part + CRLF + after, |part|, boundary)
  {
    var body := part + CRLF + after;
    forall i | 0 <= i < |part| ensures !AnchoredAt(body, i, boundary) {
      AnchoredLocal(part, after, i, boundary);
      assert !AnchoredAt(part + CRLF, i, boundary);
    }
    NextSkips(body, 0, |part|, boundary);
  }

  lemma NextHere(body: octets, at: nat, end: nat, closing: bool, boundary: octets)
    requires OccursAt(body, at, CRLF)
    requires DelimiterAt(body, at + 2, boundary) == Some(Delimiter(end, closing))
    ensures Next(body, at, boundary) == Some(Found(at, end, closing))
  {
    assert AnchoredAt(body, at, boundary);
  }

  lemma AnchoredHere(part: octets, after: octets, boundary: octets)
    requires DelimiterAt(after, 0, boundary).Some?
    ensures var d := DelimiterAt(after, 0, boundary).value;
      Next(part + CRLF + after, |part|, boundary) == Some(Found(|part|, |part| + 2 + d.end, d.closing))
  {
    hide AnchoredAt, DelimiterAt;
    var body := part + CRLF + after;
    OccursAfter(part, CRLF, after);
    assert body[|part| + 2..] == after;
    DelimiterShift(body, |part| + 2, after, 0, boundary);
    var d := DelimiterAt(after, 0, boundary).value;
    NextHere(body, |part|, |part| + 2 + d.end, d.closing, boundary);
  }

  lemma NextAfterClean(part: octets, closing: bool, padding: octets, after: octets, boundary: octets)
    requires '\r' !in boundary && AllWsp(padding) && Clean(part, boundary)
    ensures var line := Line(boundary, closing, padding);
      Next(part + CRLF + (line + after), 0, boundary) == Some(Found(|part|, |part| + 2 + |line|, closing))
  {
    hide DelimiterAt, Clean, Next;
    var line := Line(boundary, closing, padding);
    LineRead(boundary, closing, padding, after);
    CleanPartSkipped(part, line + after, boundary);
    AnchoredHere(part, line + after, boundary);
  }

  // ---- Exactly the multiparts that split

  /** A multipart body taken apart: an optional preamble before the opening line, the parts, the transport
      padding of the boundary line after each part, and what follows the closing line. */
  datatype Multi = Multi(
    preamble: Option<octets>, opening: octets, parts: seq<octets>, paddings: seq<octets>, epilogue: octets)

  ghost predicate CleanTail(parts: seq<octets>, paddings: seq<octets>, boundary: octets) {
    && 1 <= |parts| == |paddings|
    && (forall i | 0 <= i < |parts| :: Clean(parts[i], boundary))
    && forall i | 0 <= i < |parts| :: AllWsp(paddings[i])
  }

  ghost predicate WellFormed(m: Multi, boundary: octets) {
    && AllWsp(m.opening)
    && CleanTail(m.parts, m.paddings, boundary)
    && |m.parts| <= MAX_PARTS
    && match m.preamble
       case None => true
       case Some(text) => Clean(text, boundary) && DelimiterAt(text + CRLF, 0, boundary).None?
  }

  /** The parts from one on, each closed by the boundary line after it. */
  function Tail(parts: seq<octets>, paddings: seq<octets>, epilogue: octets, boundary: octets): octets
    requires 1 <= |parts| == |paddings|
  {
    parts[0] + CRLF + (Line(boundary, |parts| == 1, paddings[0]) +
      if |parts| == 1 then epilogue else Tail(parts[1..], paddings[1..], epilogue, boundary))
  }

  function Written(m: Multi, boundary: octets): octets
    requires 1 <= |m.parts| == |m.paddings|
  {
    (match m.preamble case None => [] case Some(text) => text + CRLF)
    + (Line(boundary, false, m.opening) + Tail(m.parts, m.paddings, m.epilogue, boundary))
  }

  lemma FirstPart(body: octets, part: octets, end: nat, closing: bool, after: octets, boundary: octets, count: nat)
    requires Next(body, 0, boundary) == Some(Found(|part|, end, closing))
    requires part == body[..|part|] && after == body[end..]
    ensures PartsFrom(body, 0, boundary, count) ==
      if count + 1 > MAX_PARTS then Err(InvalidPartCount)
      else if closing then Ok([part])
      else Prefixed([part], PartsFrom(after, 0, boundary, count + 1))
  {
    hide AnchoredAt, DelimiterAt, Next;
    assert body[0..|part|] == part;
    PartsShift(body, end, after, 0, boundary, count + 1);
  }

  lemma TailCut(parts: seq<octets>, paddings: seq<octets>, epilogue: octets, boundary: octets)
    returns (line: octets, after: octets)
    requires 1 <= |parts| == |paddings|
    ensures line == Line(boundary, |parts| == 1, paddings[0])
    ensures after == if |parts| == 1 then epilogue else Tail(parts[1..], paddings[1..], epilogue, boundary)
    ensures var body := Tail(parts, paddings, epilogue, boundary);
      && body == parts[0] + CRLF + (line + after)
      && body[..|parts[0]|] == parts[0] && body[|parts[0]| + 2 + |line|..] == after
  {
    hide Line;
    line := Line(boundary, |parts| == 1, paddings[0]);
    after := if |parts| == 1 then epilogue else Tail(parts[1..], paddings[1..], epilogue, boundary);
  }

  lemma {:induction false} TailRead(
    parts: seq<octets>, paddings: seq<octets>, epilogue: octets, boundary: octets, count: nat)
    requires '\r' !in boundary && CleanTail(parts, paddings, boundary) && count <= MAX_PARTS
    ensures PartsFrom(Tail(parts, paddings, epilogue, boundary), 0, boundary, count) ==
      if count + |parts| <= MAX_PARTS then Ok(parts) else Err(InvalidPartCount)
  {
    hide AnchoredAt, DelimiterAt, Next, Clean, PartsFrom, Line, Tail;
    var last := |parts| == 1;
    var body := Tail(parts, paddings, epilogue, boundary);
    var line, after := TailCut(parts, paddings, epilogue, boundary);
    NextAfterClean(parts[0], last, paddings[0], after, boundary);
    FirstPart(body, parts[0], |parts[0]| + 2 + |line|, last, after, boundary, count);
    assert parts == [parts[0]] + parts[1..];
    if last {
      assert parts == [parts[0]];
    } else if count + 1 <= MAX_PARTS {
      TailRead(parts[1..], paddings[1..], epilogue, boundary, count + 1);
    }
  }

  /** A part cut out at the next boundary line holds none. */
  lemma CutIsClean(body: octets, part: octets, boundary: octets)
    requires '\r' !in boundary
    requires Next(body, 0, boundary).Some? && part == body[..Next(body, 0, boundary).value.start]
    ensures Clean(part, boundary)
    ensures var found := Next(body, 0, boundary).value;
      body == part + CRLF + body[found.start + 2..]
  {
    hide DelimiterAt, AnchoredAt, Next;
    NextIsFirst(body, 0, boundary);
    AnchoredIsCrlf(body, |part|, boundary);
    var after := body[|part| + 2..];
    assert body == part + CRLF + after;
    forall i | 0 <= i < |part| ensures !AnchoredAt(part + CRLF, i, boundary) {
      AnchoredLocal(part, after, i, boundary);
    }
  }

  lemma AnchoredIsCrlf(body: octets, at: nat, boundary: octets)
    requires AnchoredAt(body, at, boundary)
    ensures at + 2 <= |body| && body[at..at + 2] == CRLF
  {
  }

  lemma NextLine(body: octets, boundary: octets) returns (padding: octets)
    requires Next(body, 0, boundary).Some?
    ensures AllWsp(padding)
    ensures var found := Next(body, 0, boundary).value;
      body[found.start + 2..] == Line(boundary, found.closing, padding) + body[found.end..]
  {
    hide AnchoredAt, DelimiterAt, Next;
    NextIsFirst(body, 0, boundary);
    var found := Next(body, 0, boundary).value;
    padding := LineWritten(body, found.start + 2, boundary);
    assert body[found.start + 2..] == body[found.start + 2..found.end] + body[found.end..];
  }

  lemma {:induction false} TailWritten(body: octets, boundary: octets, count: nat)
    returns (paddings: seq<octets>, epilogue: octets)
    requires '\r' !in boundary && PartsFrom(body, 0, boundary, count).Ok?
    ensures var parts := PartsFrom(body, 0, boundary, count).value;
      CleanTail(parts, paddings, boundary) && body == Tail(parts, paddings, epilogue, boundary)
    decreases |body|
  {
    hide AnchoredAt, DelimiterAt, Next, Clean;
    var found := Next(body, 0, boundary).value;
    var part := body[0..found.start];
    CutIsClean(body, part, boundary);
    var padding := NextLine(body, boundary);
    var rest := body[found.end..];
    if found.closing {
      paddings, epilogue := [padding], rest;
    } else {
      PartsShift(body, found.end, rest, 0, boundary, count + 1);
      paddings, epilogue := TailWritten(rest, boundary, count + 1);
      var more := PartsFrom(rest, 0, boundary, count + 1).value;
      paddings := [padding] + paddings;
      assert ([part] + more)[1..] == more && paddings[1..] == paddings[1..];
    }
  }

  lemma OpeningRead(m: Multi, boundary: octets)
    requires '\r' !in boundary && WellFormed(m, boundary)
    ensures var tail := Tail(m.parts, m.paddings, m.epilogue, boundary);
      var body := Written(m, boundary);
      var first := First(body, boundary);
      first.Some? && !first.value.closing && first.value.end <= |body| && body[first.value.end..] == tail
  {
    hide AnchoredAt, DelimiterAt, Next, Clean, Line, Tail;
    var line := Line(boundary, false, m.opening);
    var tail := Tail(m.parts, m.paddings, m.epilogue, boundary);
    var body := Written(m, boundary);
    match m.preamble
    case None =>
      LineRead(boundary, false, m.opening, tail);
      assert body == line + tail;
    case Some(text) =>
      assert body == text + CRLF + (line + tail);
      DelimiterLocal(text, line + tail, 0, boundary);
      NextAfterClean(text, false, m.opening, tail, boundary);
  }

  lemma OpeningWritten(body: octets, boundary: octets) returns (preamble: Option<octets>, opening: octets)
    requires '\r' !in boundary && First(body, boundary).Some? && !First(body, boundary).value.closing
    ensures AllWsp(opening)
    ensures preamble.Some? ==>
      Clean(preamble.value, boundary) && DelimiterAt(preamble.value + CRLF, 0, boundary).None?
    ensures body == (match preamble case None => [] case Some(text) => text + CRLF)
      + (Line(boundary, false, opening) + body[First(body, boundary).value.end..])
  {
    hide AnchoredAt, DelimiterAt, Next, Clean, Line;
    var first := First(body, boundary).value;
    if DelimiterAt(body, 0, boundary).Some? {
      preamble := None;
      opening := LineWritten(body, 0, boundary);
      assert body == body[0..first.end] + body[first.end..];
    } else {
      var text := body[..first.start];
      preamble := Some(text);
      CutIsClean(body, text, boundary);
      opening := NextLine(body, boundary);
      DelimiterLocal(text, body[first.start + 2..], 0, boundary);
    }
  }

  /** The splitter returns some parts exactly on the bodies written from them: a preamble without a boundary
      line, the parts without one, and boundary lines with transport padding around them. Nothing of the body is
      lost, no part holds an anchored boundary line, and reading undoes writing. */
  lemma SplitIff(body: octets, boundary: octets, parts: seq<octets>)
    requires '\r' !in boundary
    ensures Split(body, boundary) == Ok(parts) <==>
      exists m: Multi :: m.parts == parts && WellFormed(m, boundary) && body == Written(m, boundary)
  {
    hide AnchoredAt, DelimiterAt, Next, Clean, Line, Tail, First, PartsFrom;
    if Split(body, boundary) == Ok(parts) {
      var m := SplitWritten(body, boundary);
      assert m.parts == parts;
    }
    forall m: Multi | m.parts == parts && WellFormed(m, boundary) && body == Written(m, boundary)
      ensures Split(body, boundary) == Ok(parts)
    {
      SplitRead(m, boundary);
    }
  }

  lemma SplitRead(m: Multi, boundary: octets)
    requires '\r' !in boundary && WellFormed(m, boundary)
    ensures Split(Written(m, boundary), boundary) == Ok(m.parts)
  {
    hide AnchoredAt, DelimiterAt, Next, Clean, Line, Tail, First, PartsFrom, Written;
    var body := Written(m, boundary);
    OpeningRead(m, boundary);
    var end := First(body, boundary).value.end;
    PartsShift(body, end, body[end..], 0, boundary, 0);
    TailRead(m.parts, m.paddings, m.epilogue, boundary, 0);
  }

  lemma SplitWritten(body: octets, boundary: octets) returns (m: Multi)
    requires '\r' !in boundary && Split(body, boundary).Ok?
    ensures m.parts == Split(body, boundary).value && WellFormed(m, boundary) && body == Written(m, boundary)
  {
    hide AnchoredAt, DelimiterAt, Next, Clean, Line, Tail, PartsFrom;
    var end := First(body, boundary).value.end;
    var preamble, opening := OpeningWritten(body, boundary);
    PartsShift(body, end, body[end..], 0, boundary, 0);
    var paddings, epilogue := TailWritten(body[end..], boundary, 0);
    m := Multi(preamble, opening, Split(body, boundary).value, paddings, epilogue);
  }
}
