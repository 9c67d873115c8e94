/** The CRLF lines of a delivery-status body, and the unfolding of the two wrapped fields Postfix emits. */
module StatusLines {
  import opened Octets
  import opened RawMessage
  import opened StatusFields

  const MAX_BODY := 256 * 1024
  const MAX_LINE := 4096

  /** The lines between CRLFs; a last line without CRLF counts. */
  function Lines(body: octets): (r: seq<octets>)
    ensures r == [] <==> body == []
    decreases |body|
  {
    if body == [] then []
    else
      match Find(body, 0, CRLF)
      case None => [body]
      case Some(i) => [body[..i]] + Lines(body[i + 2..])
  }

  predicate LineOk(line: octets) {
    |line| <= MAX_LINE && NoLineEnd(line)
  }

  predicate LinesOk(lines: seq<octets>) {
    forall i | 0 <= i < |lines| :: LineOk(lines[i])
  }

  predicate Continues(line: octets) {
    line != [] && IsWsp(line[0])
  }

  /** Every line ended by a CRLF. */
  function Joined(lines: seq<octets>): octets {
    if lines == [] then [] else lines[0] + CRLF + Joined(lines[1..])
  }

  lemma {:induction false} JoinedConcat(a: seq<octets>, b: seq<octets>)
    ensures Joined(a + b) == Joined(a) + Joined(b)
  {
    if a == [] {
      assert a + b == b;
    } else {
      assert (a + b)[1..] == a[1..] + b;
      JoinedConcat(a[1..], b);
    }
  }

  lemma JoinedSnoc(lines: seq<octets>, line: octets)
    ensures Joined(lines + [line]) == Joined(lines) + line + CRLF
  {
    JoinedConcat(lines, [line]);
    assert [line][1..] == [];
    assert Joined([line]) == line + CRLF + Joined([]);
  }

  lemma FindsLineEnd(line: octets, rest: octets)
    requires NoLineEnd(line)
    ensures Find(line + CRLF + rest, 0, CRLF) == Some(|line|)
  {
    var text := line + CRLF + rest;
    assert text[|line|..|line| + 2] == CRLF;
    forall i | 0 <= i < |line| ensures !OccursAt(text, i, CRLF) {
      if i + 2 <= |text| {
        assert text[i..i + 2][0] == line[i];
      }
    }
    assert OccursAt(text, |line|, CRLF);
  }

  lemma NoLineEndFound(line: octets)
    requires NoLineEnd(line)
    ensures Find(line, 0, CRLF).None?
  {
    forall i | 0 <= i < |line| ensures !OccursAt(line, i, CRLF) {
      if i + 2 <= |line| {
        assert line[i..i + 2][0] == line[i];
      }
    }
  }

  lemma LineCut(line: octets, rest: octets)
    requires NoLineEnd(line)
    ensures Lines(line + CRLF + rest) == [line] + Lines(rest)
  {
    var text := line + CRLF + rest;
    FindsLineEnd(line, rest);
    assert text[..|line|] == line && text[|line| + 2..] == rest;
  }

  /** The lines of joined lines are those lines. */
  lemma {:induction false} LinesOfJoined(lines: seq<octets>)
    requires forall i | 0 <= i < |lines| :: NoLineEnd(lines[i])
    ensures Lines(Joined(lines)) == lines
  {
    if lines != [] {
      LinesOfJoined(lines[1..]);
      LineCut(lines[0], Joined(lines[1..]));
      assert lines == [lines[0]] + lines[1..];
    }
  }

  // ---- Written lines, the last one with or without its CRLF

  function Written(lines: seq<octets>, ended: bool): octets {
    if ended || lines == [] then Joined(lines) else Joined(lines[..|lines| - 1]) + lines[|lines| - 1]
  }

  lemma {:induction false} BodyOfLines(body: octets)
    ensures body == Written(Lines(body), EndsInCrlf(body))
    decreases |body|
  {
    if body != [] {
      var found := Find(body, 0, CRLF);
      if found.Some? {
        var i := found.value;
        var rest := body[i + 2..];
        BodyOfLines(rest);
        assert body == body[..i] + CRLF + rest by {
          assert body[i..i + 2] == CRLF;
        }
        WrittenCons(body[..i], Lines(rest), EndsInCrlf(body));
        EndedRest(body, i);
      } else {
        NotEnded(body);
        assert [body][..0] == [];
      }
    }
  }

  lemma EndedRest(body: octets, i: nat)
    requires OccursAt(body, i, CRLF)
    ensures body[i + 2..] == [] ==> EndsInCrlf(body)
    ensures body[i + 2..] != [] ==> (EndsInCrlf(body) <==> EndsInCrlf(body[i + 2..]))
  {
    var rest := body[i + 2..];
    if |rest| >= 2 {
      assert rest[|rest| - 2..] == body[|body| - 2..];
    } else if |rest| == 1 {
      assert body[i..i + 2][1] == '\n';
      assert body[|body| - 2..][0] == body[i + 1];
    } else {
      assert body[i..i + 2] == body[|body| - 2..];
    }
  }

  lemma NotEnded(body: octets)
    requires Find(body, 0, CRLF).None?
    ensures !EndsInCrlf(body)
  {
    if |body| >= 2 {
      assert body[|body| - 2..] == body[|body| - 2..|body| - 2 + |CRLF|];
      assert !OccursAt(body, |body| - 2, CRLF);
    }
  }

  lemma WrittenCons(line: octets, lines: seq<octets>, ended: bool)
    requires lines == [] ==> ended
    ensures Written([line] + lines, ended) == line + CRLF + Written(lines, ended)
  {
    assert ([line] + lines)[1..] == lines;
    if !ended {
      var all := [line] + lines;
      assert all[..|all| - 1] == [line] + lines[..|lines| - 1];
      JoinedConcat([line], lines[..|lines| - 1]);
      assert [line][1..] == [];
      assert Joined([line]) == line + CRLF + Joined([]);
    }
  }

  // ---- Unfolding

  /** The logical lines so far, and whether the last one is a field that may be continued. */
  datatype Unfolding = Unfolding(lines: seq<octets>, foldable: bool)

  const LONG_S: octets := [0xC5 as char, 0xBF as char]
  const KELVIN: octets := [0xE2 as char, 0x84 as char, 0xAA as char]

  /** Unicode case folding equates two characters outside ASCII with ASCII letters: the long s with s and the Kelvin
      sign with k, here in UTF-8. */
  function FoldedIntoAscii(name: octets): octets {
    if name == [] then []
    else if LONG_S <= name then ['s'] + FoldedIntoAscii(name[2..])
    else if KELVIN <= name then ['k'] + FoldedIntoAscii(name[3..])
    else [name[0]] + FoldedIntoAscii(name[1..])
  }

  /** The field may be continued. Its name is compared under Unicode case folding and is not checked otherwise. */
  predicate Foldable(line: octets) {
    match IndexByte(line, ':')
    case None => false
    case Some(colon) => Classify(FoldedIntoAscii(line[..colon])) in {RemoteMta, DiagnosticCode}
  }

  /** Where names are checked to be printable ASCII, the folding of the classification is ASCII folding. */
  lemma {:induction false} AsciiFoldsToItself(name: octets)
    requires forall i | 0 <= i < |name| :: FieldNameChar(name[i])
    ensures FoldedIntoAscii(name) == name
  {
    if name != [] {
      assert FieldNameChar(name[0]);
      AsciiFoldsToItself(name[1..]);
    }
  }

  lemma LongSRead(after: octets)
    ensures FoldedIntoAscii(LONG_S + after) == "s" + FoldedIntoAscii(after)
  {
    assert (LONG_S + after)[2..] == after;
  }

  lemma KelvinRead(after: octets)
    ensures FoldedIntoAscii(KELVIN + after) == "k" + FoldedIntoAscii(after)
  {
    assert (KELVIN + after)[3..] == after && (KELVIN + after)[0] != LONG_S[0];
  }

  /** Two characters outside ASCII are read as letters wherever they stand: the long s as s, the Kelvin sign as k. */
  lemma {:induction false} FoldsInside(before: octets, after: octets)
    requires forall i | 0 <= i < |before| :: FieldNameChar(before[i])
    ensures FoldedIntoAscii(before + (LONG_S + after)) == before + ("s" + FoldedIntoAscii(after))
    ensures FoldedIntoAscii(before + (KELVIN + after)) == before + ("k" + FoldedIntoAscii(after))
  {
    hide FoldedIntoAscii, LONG_S, KELVIN;
    if before == [] {
      LongSRead(after);
      KelvinRead(after);
      assert before + (LONG_S + after) == LONG_S + after && before + (KELVIN + after) == KELVIN + after;
      EmptyInFront();
    } else {
      FoldsInside(before[1..], after);
      AsciiFirst(before, LONG_S + after);
      AsciiFirst(before, KELVIN + after);
      assert before == [before[0]] + before[1..];
    }
  }

  lemma EmptyInFront()
    ensures forall s: octets :: [] + s == s
  {
  }

  lemma AsciiFirst(before: octets, rest: octets)
    requires before != [] && FieldNameChar(before[0])
    ensures FoldedIntoAscii(before + rest) == [before[0]] + FoldedIntoAscii(before[1..] + rest)
  {
    var name := before + rest;
    assert name[0] == before[0] && name[1..] == before[1..] + rest;
    assert name[0] != LONG_S[0] && name[0] != KELVIN[0];
  }

  predicate FieldStart(line: octets) {
    match IndexByte(line, ':') case None => false case Some(colon) => colon >= 1
  }

  function UnfoldStep(s: Unfolding, line: octets): Option<Unfolding> {
    if !LineOk(line) then None
    else if Continues(line) then
      var continued := TrimLeft(line);
      if !s.foldable || s.lines == [] || continued == [] then None
      else
        var logical := s.lines[|s.lines| - 1] + " " + continued;
        if |logical| > MAX_LINE then None
        else Some(Unfolding(s.lines[..|s.lines| - 1] + [logical], true))
    else if line == [] then Some(Unfolding(s.lines + [line], false))
    else if !FieldStart(line) then None
    else Some(Unfolding(s.lines + [line], Foldable(line)))
  }

  function UnfoldLines(lines: seq<octets>): (r: Option<Unfolding>)
    ensures r.Some? ==> |r.value.lines| <= |lines|
  {
    if lines == [] then Some(Unfolding([], false))
    else
      match UnfoldLines(lines[..|lines| - 1])
      case None => None
      case Some(s) => UnfoldStep(s, lines[|lines| - 1])
  }

  /** Remote-MTA and Diagnostic-Code continuations joined by one SP. */
  function Unfolded(body: octets): Option<octets> {
    if body == [] || |body| > MAX_BODY then None
    else
      match UnfoldLines(Lines(body))
      case None => None
      case Some(s) => Some(Written(s.lines, EndsInCrlf(body)))
  }

  /** A line that unfolding leaves alone. */
  predicate Logical(line: octets) {
    LineOk(line) && !Continues(line) && (line != [] ==> FieldStart(line))
  }

  predicate AllLogical(lines: seq<octets>) {
    forall i | 0 <= i < |lines| :: Logical(lines[i])
  }

  lemma ContinuedLogical(line: octets, continued: octets)
    requires Logical(line) && line != [] && NoLineEnd(continued)
    requires |line + " " + continued| <= MAX_LINE
    ensures Logical(line + " " + continued)
  {
    var logical := line + " " + continued;
    var colon := IndexByte(line, ':').value;
    assert logical == line[..colon] + [':'] + (line[colon + 1..] + " " + continued);
    IndexByteAt(line[..colon], ':', line[colon + 1..] + " " + continued);
    assert NoLineEnd(" ");
  }

  /** What every step keeps: logical lines only, and the last is a field if it may be continued. */
  ghost predicate Normal(s: Unfolding) {
    AllLogical(s.lines) && (s.foldable ==> s.lines != [] && s.lines[|s.lines| - 1] != [])
  }

  lemma UnfoldStepNormal(s: Unfolding, line: octets)
    requires Normal(s) && UnfoldStep(s, line).Some?
    ensures Normal(UnfoldStep(s, line).value)
  {
    if Continues(line) {
      ContinuedLogical(s.lines[|s.lines| - 1], TrimLeft(line));
    }
  }

  lemma {:induction false} UnfoldLinesNormal(lines: seq<octets>)
    requires UnfoldLines(lines).Some?
    ensures Normal(UnfoldLines(lines).value)
  {
    if lines != [] {
      UnfoldLinesNormal(lines[..|lines| - 1]);
      UnfoldStepNormal(UnfoldLines(lines[..|lines| - 1]).value, lines[|lines| - 1]);
    }
  }

  lemma {:induction false} LogicalUnfold(lines: seq<octets>)
    requires AllLogical(lines)
    ensures UnfoldLines(lines).Some? && UnfoldLines(lines).value.lines == lines
  {
    if lines != [] {
      var init, last := lines[..|lines| - 1], lines[|lines| - 1];
      LogicalUnfold(init);
      assert Logical(last);
      assert lines == init + [last];
    }
  }

  // ---- What a continuation line does

  /** Unfolding goes on from a state. */
  function UnfoldFrom(s: Unfolding, lines: seq<octets>): Option<Unfolding>
    decreases |lines|
  {
    if lines == [] then Some(s)
    else
      match UnfoldStep(s, lines[0])
      case None => None
      case Some(next) => UnfoldFrom(next, lines[1..])
  }

  lemma {:induction false} UnfoldConcat(a: seq<octets>, b: seq<octets>)
    ensures UnfoldLines(a + b) == match UnfoldLines(a) case None => None case Some(s) => UnfoldFrom(s, b)
    decreases |b|
  {
    hide UnfoldStep;
    if b == [] {
      assert a + b == a;
    } else {
      var init, last := b[..|b| - 1], b[|b| - 1];
      assert (a + b)[..|a + b| - 1] == a + init;
      UnfoldConcat(a, init);
      if UnfoldLines(a).Some? {
        UnfoldFromSnoc(UnfoldLines(a).value, init, last);
        assert b == init + [last];
      }
    }
  }

  lemma {:induction false} UnfoldFromSnoc(s: Unfolding, lines: seq<octets>, last: octets)
    ensures UnfoldFrom(s, lines + [last]) ==
      match UnfoldFrom(s, lines) case None => None case Some(next) => UnfoldStep(next, last)
    decreases |lines|
  {
    hide UnfoldStep;
    if lines == [] {
      assert lines + [last] == [last] && [last][1..] == [];
      UnfoldFromNone();
    } else {
      assert (lines + [last])[1..] == lines[1..] + [last];
      if UnfoldStep(s, lines[0]).Some? {
        UnfoldFromSnoc(UnfoldStep(s, lines[0]).value, lines[1..], last);
      }
    }
  }

  lemma UnfoldFromNone()
    ensures forall s: Unfolding :: UnfoldFrom(s, []) == Some(s)
  {
  }

  lemma UnfoldFromTwo(s: Unfolding, a: octets, b: octets, rest: seq<octets>)
    ensures UnfoldFrom(s, [a, b] + rest) ==
      match UnfoldStep(s, a)
      case None => None
      case Some(t) => (match UnfoldStep(t, b) case None => None case Some(u) => UnfoldFrom(u, rest))
    ensures UnfoldFrom(s, [a] + rest) == match UnfoldStep(s, a) case None => None case Some(t) => UnfoldFrom(t, rest)
  {
    hide UnfoldStep;
    assert ([a, b] + rest)[1..] == [b] + rest && ([b] + rest)[1..] == rest && ([a] + rest)[1..] == rest;
  }

  /** A line that may be continued: a Remote-MTA or Diagnostic-Code field. */
  predicate Continuable(line: octets) {
    LineOk(line) && line != [] && !Continues(line) && FieldStart(line) && Foldable(line)
  }

  lemma StillContinuable(line: octets, text: octets)
    requires Continuable(line) && NoLineEnd(text) && |line + " " + text| <= MAX_LINE
    ensures Continuable(line + " " + text)
  {
    var colon := IndexByte(line, ':').value;
    assert line + " " + text == line[..colon] + [':'] + (line[colon + 1..] + " " + text);
    IndexByteAt(line[..colon], ':', line[colon + 1..] + " " + text);
    assert (line + " " + text)[..colon] == line[..colon];
  }

  /** A continuation line is joined to a field that may be continued by exactly one SP, its own white space in front
      removed: the body reads as if the joined line stood there. It is refused when it is blank, when the joined line
      is too long, and behind any other line. */
  lemma ContinuationJoins(before: seq<octets>, line: octets, more: octets, after: seq<octets>)
    requires Continues(more) && LineOk(more) && Logical(line)
    ensures var joined := line + " " + TrimLeft(more);
      if Continuable(line) && TrimLeft(more) != [] && |joined| <= MAX_LINE
      then UnfoldLines(before + ([line, more] + after)) == UnfoldLines(before + ([joined] + after))
      else UnfoldLines(before + ([line, more] + after)) == None
  {
    hide Foldable, FieldStart, UnfoldFrom;
    var joined := line + " " + TrimLeft(more);
    UnfoldConcat(before, [line, more] + after);
    UnfoldConcat(before, [joined] + after);
    if UnfoldLines(before).Some? {
      var s := UnfoldLines(before).value;
      UnfoldFromTwo(s, line, more, after);
      UnfoldFromTwo(s, joined, more, after);
      if Continuable(line) && TrimLeft(more) != [] && |joined| <= MAX_LINE {
        StillContinuable(line, TrimLeft(more));
        assert joined[0] == line[0];
        assert (s.lines + [line])[..|s.lines|] == s.lines;
      }
    }
  }

  // ---- Unfolding is a normalizer

  predicate LastPresent(lines: seq<octets>) {
    lines != [] && lines[|lines| - 1] != []
  }

  lemma {:induction false} LastLinePresent(body: octets)
    requires body != [] && !EndsInCrlf(body)
    ensures LastPresent(Lines(body))
    decreases |body|
  {
    var found := Find(body, 0, CRLF);
    if found.Some? {
      EndedRest(body, found.value);
      LastLinePresent(body[found.value + 2..]);
    }
  }

  lemma UnfoldLastPresent(lines: seq<octets>)
    requires UnfoldLines(lines).Some? && LastPresent(lines)
    ensures LastPresent(UnfoldLines(lines).value.lines)
  {
  }

  /** Written lines read back as those lines. */
  lemma LinesOfWritten(lines: seq<octets>, ended: bool)
    requires forall i | 0 <= i < |lines| :: NoLineEnd(lines[i])
    requires ended || LastPresent(lines)
    ensures Lines(Written(lines, ended)) == lines
  {
    if ended {
      LinesOfJoined(lines);
    } else {
      var init, last := lines[..|lines| - 1], lines[|lines| - 1];
      LinesOfJoinedAnd(init, last);
      assert lines == init + [last];
    }
  }

  lemma {:induction false} LinesOfJoinedAnd(lines: seq<octets>, last: octets)
    requires forall i | 0 <= i < |lines| :: NoLineEnd(lines[i])
    requires NoLineEnd(last) && last != []
    ensures Lines(Joined(lines) + last) == lines + [last]
  {
    hide Lines;
    if lines == [] {
      LinesOfOne(last);
      assert Joined([]) + last == last;
    } else {
      LinesOfJoinedAnd(lines[1..], last);
      assert Joined(lines) + last == lines[0] + CRLF + (Joined(lines[1..]) + last);
      LineCut(lines[0], Joined(lines[1..]) + last);
      assert lines + [last] == [lines[0]] + (lines[1..] + [last]);
    }
  }

  lemma LinesOfOne(line: octets)
    requires NoLineEnd(line) && line != []
    ensures Lines(line) == [line]
  {
    NoLineEndFound(line);
  }

  lemma EndedOfWritten(lines: seq<octets>, ended: bool)
    requires forall i | 0 <= i < |lines| :: NoLineEnd(lines[i])
    requires LastPresent(lines) || (ended && lines != [])
    ensures Written(lines, ended) != [] && (EndsInCrlf(Written(lines, ended)) <==> ended)
  {
    var init, last := lines[..|lines| - 1], lines[|lines| - 1];
    assert lines == init + [last];
    JoinedSnoc(init, last);
    var body := Written(lines, ended);
    if ended {
      assert body[|body| - 2..] == CRLF;
    } else {
      assert body[|body| - 1] == last[|last| - 1] && NoLineEnd(last);
    }
  }

  lemma {:induction false} UnfoldShrinks(lines: seq<octets>)
    requires UnfoldLines(lines).Some?
    ensures |Joined(UnfoldLines(lines).value.lines)| <= |Joined(lines)|
  {
    hide LineOk, Foldable, FieldStart;
    if lines != [] {
      var init, last := lines[..|lines| - 1], lines[|lines| - 1];
      UnfoldShrinks(init);
      assert lines == init + [last];
      JoinedSnoc(init, last);
      var s := UnfoldLines(init).value;
      JoinedSnoc(s.lines, last);
      if Continues(last) {
        var before := s.lines[..|s.lines| - 1];
        var field := s.lines[|s.lines| - 1];
        assert s.lines == before + [field];
        JoinedSnoc(before, field);
        JoinedSnoc(before, field + " " + TrimLeft(last));
      }
    }
  }

  lemma WrittenLength(lines: seq<octets>, ended: bool)
    requires lines != []
    ensures |Written(lines, ended)| == if ended then |Joined(lines)| else |Joined(lines)| - 2
  {
    var init, last := lines[..|lines| - 1], lines[|lines| - 1];
    assert lines == init + [last];
    JoinedSnoc(init, last);
  }

  lemma UnfoldedParts(body: octets) returns (lines: seq<octets>)
    requires Unfolded(body).Some?
    ensures UnfoldLines(Lines(body)).Some? && lines == UnfoldLines(Lines(body)).value.lines
    ensures Unfolded(body).value == Written(lines, EndsInCrlf(body))
    ensures AllLogical(lines) && (EndsInCrlf(body) || LastPresent(lines))
    ensures Lines(Unfolded(body).value) == lines
  {
    lines := UnfoldLines(Lines(body)).value.lines;
    UnfoldLinesNormal(Lines(body));
    if !EndsInCrlf(body) {
      LastLinePresent(body);
      UnfoldLastPresent(Lines(body));
    }
    forall i | 0 <= i < |lines| ensures NoLineEnd(lines[i]) {
      assert Logical(lines[i]);
    }
    LinesOfWritten(lines, EndsInCrlf(body));
  }

  lemma {:induction false} UnfoldKeepsSome(lines: seq<octets>)
    requires UnfoldLines(lines).Some? && lines != []
    ensures UnfoldLines(lines).value.lines != []
  {
  }

  lemma UnfoldedWithin(body: octets)
    requires Unfolded(body).Some?
    ensures 1 <= |Unfolded(body).value| <= |body|
    ensures EndsInCrlf(Unfolded(body).value) <==> EndsInCrlf(body)
  {
    hide UnfoldLines, Logical, EndsInCrlf;
    var lines := UnfoldedParts(body);
    UnfoldKeepsSome(Lines(body));
    forall i | 0 <= i < |lines| ensures NoLineEnd(lines[i]) {
      LogicalOk(lines[i]);
    }
    EndedOfWritten(lines, EndsInCrlf(body));
    BodyOfLines(body);
    UnfoldShrinks(Lines(body));
    WrittenLength(lines, EndsInCrlf(body));
    WrittenLength(Lines(body), EndsInCrlf(body));
  }

  lemma LogicalOk(line: octets)
    requires Logical(line)
    ensures LineOk(line) && !Continues(line)
  {
  }

  lemma LogicalUnfolds(body: octets)
    requires 0 < |body| <= MAX_BODY && AllLogical(Lines(body))
    ensures Unfolded(body) == Some(body)
  {
    LogicalUnfold(Lines(body));
    BodyOfLines(body);
  }

  /** Unfolding is a normalizer: its output has only bounded lines, none a continuation, and unfolding it again
      changes nothing. */
  lemma UnfoldingNormalizes(body: octets)
    requires Unfolded(body).Some?
    ensures var out := Unfolded(body).value;
      && (forall i | 0 <= i < |Lines(out)| :: !Continues(Lines(out)[i]) && |Lines(out)[i]| <= MAX_LINE)
      && Unfolded(out) == Some(out)
  {
    hide Unfolded, Logical;
    var lines := UnfoldedParts(body);
    UnfoldedWithin(body);
    UnfoldedBound(body);
    var out := Unfolded(body).value;
    forall i | 0 <= i < |lines| ensures !Continues(lines[i]) && |lines[i]| <= MAX_LINE {
      LogicalOk(lines[i]);
    }
    LogicalUnfolds(out);
  }

  lemma UnfoldedBound(body: octets)
    requires Unfolded(body).Some?
    ensures |body| <= MAX_BODY
  {
  }

  lemma {:induction false} PlainLogical(lines: seq<octets>)
    requires UnfoldLines(lines).Some? && forall i | 0 <= i < |lines| :: !Continues(lines[i])
    ensures AllLogical(lines)
  {
    if lines != [] {
      var init, last := lines[..|lines| - 1], lines[|lines| - 1];
      PlainLogical(init);
      assert !Continues(last);
      forall i | 0 <= i < |lines| ensures Logical(lines[i]) {
        assert i == |init| || lines[i] == init[i];
      }
    }
  }

  /** An accepted body is returned verbatim exactly when it has no continuation line. */
  lemma VerbatimIff(body: octets)
    requires Unfolded(body).Some?
    ensures Unfolded(body).value == body <==> forall i | 0 <= i < |Lines(body)| :: !Continues(Lines(body)[i])
  {
    hide Logical;
    var lines := UnfoldedParts(body);
    if Unfolded(body).value == body {
      forall i | 0 <= i < |lines| ensures !Continues(lines[i]) {
        LogicalOk(lines[i]);
      }
    }
    if forall i | 0 <= i < |Lines(body)| :: !Continues(Lines(body)[i]) {
      PlainLogical(Lines(body));
      LogicalUnfolds(body);
    }
  }

  // ---- The scanning loops

  lemma {:induction false} FindShift(body: octets, k: nat, from: nat, needle: octets)
    requires k + from <= |body|
    ensures match Find(body[k..], from, needle)
      case None => Find(body, k + from, needle).None?
      case Some(i) => Find(body, k + from, needle) == Some(k + i)
    decreases |body| - from
  {
    hide OccursAt;
    OccursShift(body, k, from, needle);
    if k + from < |body| {
      FindShift(body, k, from + 1, needle);
    }
  }

  /** Where a line may start. */
  predicate LineStart(body: octets, position: nat) {
    position <= |body| && (position > 0 ==> body[position - 1] == '\n')
  }

  lemma LinesUnfold(body: octets)
    requires body != []
    ensures match Find(body, 0, CRLF)
      case None => Lines(body) == [body]
      case Some(end) => Lines(body) == [body[..end]] + Lines(body[end + 2..])
  {
    hide Find, OccursAt;
  }

  lemma TailSlices(body: octets, position: nat, end: nat)
    requires position <= end && end + 2 <= |body|
    ensures body[position..][..end - position] == body[position..end]
    ensures body[position..][end - position + 2..] == body[end + 2..]
  {
  }

  lemma LinesAt(body: octets, position: nat)
    requires position < |body|
    ensures match Find(body, position, CRLF)
      case None => Lines(body[position..]) == [body[position..]]
      case Some(end) => Lines(body[position..]) == [body[position..end]] + Lines(body[end + 2..])
  {
    hide Lines, Find, OccursAt;
    FindShift(body, position, 0, CRLF);
    LinesUnfold(body[position..]);
    var found := Find(body, position, CRLF);
    if found.Some? {
      FoundWithin(body, position);
      TailSlices(body, position, found.value);
    }
  }

  lemma FoundWithin(body: octets, position: nat)
    requires Find(body, position, CRLF).Some?
    ensures position <= Find(body, position, CRLF).value <= |body| - 2
  {
    hide Find;
  }

  /** The line at a position, where the next one starts, and whether a CRLF ended it. */
  method ReadLine(body: octets, position: nat) returns (line: octets, next: nat, ended: bool)
    requires position < |body| && LineStart(body, position)
    ensures position < next <= |body| && (ended ==> LineStart(body, next))
    ensures Lines(body[position..]) == [line] + Lines(body[next..])
    ensures !ended ==> next == |body|
    ensures next == |body| ==> (ended <==> EndsInCrlf(body))
  {
    var found := Find(body, position, CRLF);
    LinesAt(body, position);
    hide Lines, Find, OccursAt, EndsInCrlf;
    if found.Some? {
      FoundWithin(body, position);
    }
    if found.None? {
      EndedSuffix(body, position);
      LinesOfNothing(body);
      return body[position..], |body|, false;
    }
    CrlfAt(body, found.value);
    return body[position..found.value], found.value + 2, true;
  }

  lemma LinesOfNothing(body: octets)
    ensures Lines(body[|body|..]) == []
  {
  }

  lemma CrlfAt(body: octets, i: nat)
    requires OccursAt(body, i, CRLF)
    ensures LineStart(body, i + 2) && (i + 2 == |body| ==> EndsInCrlf(body))
  {
    assert body[i..i + 2][1] == body[i + 1];
  }

  lemma EndedSuffix(body: octets, position: nat)
    requires position < |body| && LineStart(body, position) && Find(body, position, CRLF).None?
    ensures !EndsInCrlf(body)
  {
    FindShift(body, position, 0, CRLF);
    var rest := body[position..];
    if |rest| >= 2 {
      NotEnded(rest);
      assert rest[|rest| - 2..] == body[|body| - 2..];
    } else if |body| >= 2 {
      assert body[|body| - 2..][0] == body[position - 1];
    }
  }

  lemma {:induction false} UnfoldFails(done: seq<octets>, rest: seq<octets>)
    requires UnfoldLines(done).None?
    ensures UnfoldLines(done + rest).None?
    decreases |rest|
  {
    if rest == [] {
      assert done + rest == done;
    } else {
      UnfoldFails(done, rest[..|rest| - 1]);
      assert (done + rest)[..|done + rest| - 1] == done + rest[..|rest| - 1];
    }
  }

  lemma UnfoldSnoc(done: seq<octets>, line: octets)
    requires UnfoldLines(done).Some?
    ensures UnfoldLines(done + [line]) == UnfoldStep(UnfoldLines(done).value, line)
  {
    assert (done + [line])[..|done|] == done;
  }

  /** The scanner's variables, when they hold the logical lines `s`, the last one ended or not. */
  ghost predicate Holds(s: Unfolding, output: octets, logicalStart: nat, haveField: bool, foldable: bool, ended: bool) {
    && foldable == s.foldable
    && (foldable ==> haveField && s.lines != [] && logicalStart == |Joined(s.lines[..|s.lines| - 1])|)
    && output == Written(s.lines, ended)
  }

  lemma WrittenWhole(lines: seq<octets>)
    ensures Written(lines, true) == Joined(lines)
  {
  }

  lemma WrittenEnd(lines: seq<octets>)
    requires lines != []
    ensures Written(lines, true) == Written(lines, false) + CRLF
    ensures Written(lines, false) == Joined(lines[..|lines| - 1]) + lines[|lines| - 1]
  {
    JoinedSnoc(lines[..|lines| - 1], lines[|lines| - 1]);
    assert lines == lines[..|lines| - 1] + [lines[|lines| - 1]];
  }

  /** One round of the scanner on an ended output; the new last line is not ended yet. */
  method UnfoldLine(output: octets, logicalStart: nat, haveField: bool, foldable: bool, line: octets, ghost s: Unfolding)
    returns (ok: bool, output': octets, logicalStart': nat, haveField': bool, foldable': bool)
    requires Holds(s, output, logicalStart, haveField, foldable, true)
    ensures ok <==> UnfoldStep(s, line).Some?
    ensures ok ==> Holds(UnfoldStep(s, line).value, output', logicalStart', haveField', foldable', false)
    ensures ok ==> UnfoldStep(s, line).value.lines != []
  {
    hide Joined, Written, FoldedIntoAscii, Classify, TrimLeft;
    ok, output', logicalStart', haveField', foldable' := false, output, logicalStart, haveField, foldable;
    if |line| > MAX_LINE || '\r' in line || '\n' in line {
      return;
    }
    if Continues(line) {
      if !haveField || !foldable {
        return;
      }
      WrittenEnd(s.lines);
      if |output| < 2 || output[|output| - 2..] != CRLF {
        assert false; // a field line was ended before this one
      }
      var continued := TrimLeft(line);
      if continued == [] {
        return;
      }
      ghost var before, last := s.lines[..|s.lines| - 1], s.lines[|s.lines| - 1];
      output' := output[..|output| - 2] + " " + continued;
      assert output' == Joined(before) + (last + " " + continued);
      if |output'| - logicalStart > MAX_LINE {
        return;
      }
      WrittenEnd(before + [last + " " + continued]);
      return true, output', logicalStart, true, true;
    }
    WrittenWhole(s.lines);
    WrittenEnd(s.lines + [line]);
    assert (s.lines + [line])[..|s.lines|] == s.lines;
    output' := output + line;
    if line == [] {
      return true, output', logicalStart, false, false;
    }
    var colon := IndexByte(line, ':');
    if colon.None? || colon.value < 1 {
      return;
    }
    var field := Classify(FoldedIntoAscii(line[..colon.value]));
    return true, output', |output|, true, field == RemoteMta || field == DiagnosticCode;
  }

  method UnfoldPostfix(body: octets) returns (r: Option<octets>)
    ensures r == Unfolded(body)
  {
    if body == [] || |body| > MAX_BODY {
      return None;
    }
    var output: octets := [];
    var logicalStart, position := 0, 0;
    var haveField, foldable := false, false;
    ghost var done: seq<octets> := [];
    ghost var ended := true;
    assert body[0..] == body;
    while position < |body|
      invariant position < |body| ==> ended && LineStart(body, position)
      invariant position == |body| ==> ended == EndsInCrlf(body)
      invariant position <= |body|
      invariant Lines(body) == done + Lines(body[position..])
      invariant UnfoldLines(done).Some?
      invariant Holds(UnfoldLines(done).value, output, logicalStart, haveField, foldable, ended)
    {
      var line, next, terminated := ReadLine(body, position);
      ghost var s := UnfoldLines(done).value;
      assert done + ([line] + Lines(body[next..])) == (done + [line]) + Lines(body[next..]);
      UnfoldSnoc(done, line);
      var ok;
      ok, output, logicalStart, haveField, foldable :=
        UnfoldLine(output, logicalStart, haveField, foldable, line, s);
      if !ok {
        UnfoldFails(done + [line], Lines(body[next..]));
        return None;
      }
      done := done + [line];
      WrittenEnd(UnfoldLines(done).value.lines);
      if terminated {
        output := output + CRLF;
      }
      ended := terminated;
      position := next;
    }
    assert Lines(body[position..]) == [] && done + [] == done;
    return Some(output);
  }
}
