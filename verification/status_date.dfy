/** Comment and white-space normalization of an RFC 822 date-time. */
module StatusDate {
  import opened Octets

  const MAX_LINE := 4096
  const MAX_DEPTH := 16

  predicate Control(c: char) {
    c == 127 as char || (c < ' ' && c != '\t')
  }

  predicate QuotedPairChar(c: char) {
    c == '\t' || ' ' <= c <= '~'
  }

  predicate NeedsSpace(previous: char, current: char) {
    current != ',' && current != ':' && previous != ':'
  }

  /** The scanner's variables. */
  datatype Scan = Scan(normalized: octets, depth: nat, pending: bool)

  /** One octet of text outside comments. */
  function Appended(s: Scan, c: char): Scan {
    var gap := s.pending && s.normalized != [] && NeedsSpace(s.normalized[|s.normalized| - 1], c);
    Scan(s.normalized + (if gap then [' '] else []) + [c], 0, false)
  }

  function ScanFrom(value: octets, i: nat, s: Scan): Option<octets>
    requires i <= |value|
    decreases |value| - i
  {
    if i == |value| then if s.depth != 0 || s.normalized == [] then None else Some(s.normalized)
    else
      var c := value[i];
      if Control(c) then None
      else if s.depth > 0 then
        if c == '\\' then
          if i + 1 >= |value| || !QuotedPairChar(value[i + 1]) then None else ScanFrom(value, i + 2, s)
        else if c == '(' then
          if s.depth + 1 > MAX_DEPTH then None else ScanFrom(value, i + 1, s.(depth := s.depth + 1))
        else if c == ')' then ScanFrom(value, i + 1, s.(depth := s.depth - 1))
        else ScanFrom(value, i + 1, s)
      else if c == '(' then ScanFrom(value, i + 1, s.(depth := 1, pending := true))
      else if c == ')' || c == '\\' then None
      else if IsWsp(c) then ScanFrom(value, i + 1, s.(pending := true))
      else ScanFrom(value, i + 1, Appended(s, c))
  }

  function Normalized(value: octets): Option<octets> {
    if value == [] || |value| > MAX_LINE then None else ScanFrom(value, 0, Scan([], 0, false))
  }

  /** Removes comments and canonicalizes white space in one pass. */
  method NormalizeDate(value: octets) returns (r: Option<octets>)
    ensures r == Normalized(value)
  {
    if value == [] || |value| > MAX_LINE {
      return None;
    }
    var normalized: octets := [];
    var commentDepth, index := 0, 0;
    var pendingSpace := false;
    while index < |value|
      invariant 0 <= index <= |value|
      invariant Normalized(value) == ScanFrom(value, index, Scan(normalized, commentDepth, pendingSpace))
    {
      var current := value[index];
      if Control(current) {
        return None;
      }
      index := index + 1;
      if commentDepth > 0 {
        if current == '\\' {
          if index >= |value| || !QuotedPairChar(value[index]) {
            return None;
          }
          index := index + 1;
        } else if current == '(' {
          commentDepth := commentDepth + 1;
          if commentDepth > MAX_DEPTH {
            return None;
          }
        } else if current == ')' {
          commentDepth := commentDepth - 1;
        }
        continue;
      }
      if current == '(' {
        commentDepth, pendingSpace := 1, true;
      } else if current == ')' || current == '\\' {
        return None;
      } else if IsWsp(current) {
        pendingSpace := true;
      } else {
        assert normalized + [] + [current] == normalized + [current];
        if pendingSpace && normalized != [] && NeedsSpace(normalized[|normalized| - 1], current) {
          normalized := normalized + [' '];
        }
        normalized := normalized + [current];
        pendingSpace := false;
      }
    }
    return if commentDepth != 0 || normalized == [] then None else Some(normalized);
  }

  // ---- Normal texts

  predicate Word(c: char) {
    !Control(c) && !IsWsp(c) && c !in ['(', ')', '\\']
  }

  /** Words separated by single spaces, and only where a space is needed. */
  predicate Normal(s: octets) {
    && (s != [] ==> Word(s[0]) && Word(s[|s| - 1]))
    && forall i | 0 <= i < |s| :: Word(s[i]) || (s[i] == ' ' && Separates(s, i))
  }

  predicate Separates(s: octets, i: int)
    requires 0 <= i < |s|
  {
    1 <= i < |s| - 1 && Word(s[i - 1]) && Word(s[i + 1]) && NeedsSpace(s[i - 1], s[i + 1])
  }

  lemma AppendedNormal(s: Scan, c: char)
    requires Normal(s.normalized) && Word(c)
    ensures Normal(Appended(s, c).normalized)
  {
    var before, after := s.normalized, Appended(s, c).normalized;
    forall i | 0 <= i < |after| ensures Word(after[i]) || (after[i] == ' ' && Separates(after, i)) {
      if i < |before| {
        assert after[i] == before[i];
        if !Word(before[i]) {
          assert Separates(before, i) && after[i + 1] == before[i + 1] && after[i - 1] == before[i - 1];
        }
      }
    }
  }

  lemma {:induction false} ScanNormal(value: octets, i: nat, s: Scan)
    requires i <= |value| && Normal(s.normalized) && ScanFrom(value, i, s).Some?
    requires |s.normalized| + (if s.pending then 1 else 0) <= i
    ensures Normal(ScanFrom(value, i, s).value) && 1 <= |ScanFrom(value, i, s).value| <= |value|
    decreases |value| - i
  {
    hide Normal;
    if i < |value| {
      var c := value[i];
      if s.depth > 0 {
        if c == '\\' {
          ScanNormal(value, i + 2, s);
        } else if c == '(' {
          ScanNormal(value, i + 1, s.(depth := s.depth + 1));
        } else if c == ')' {
          ScanNormal(value, i + 1, s.(depth := s.depth - 1));
        } else {
          ScanNormal(value, i + 1, s);
        }
      } else if c == '(' {
        ScanNormal(value, i + 1, s.(depth := 1, pending := true));
      } else if IsWsp(c) {
        ScanNormal(value, i + 1, s.(pending := true));
      } else {
        AppendedNormal(s, c);
        ScanNormal(value, i + 1, Appended(s, c));
      }
    }
  }

  /** The scan of a normal text rebuilds it: at `i` it holds everything before, a pending space apart. */
  lemma {:induction false} ScanRebuilds(value: octets, i: nat)
    requires Normal(value) && value != [] && i <= |value|
    ensures var gap := i > 0 && value[i - 1] == ' ';
      ScanFrom(value, i, Scan(value[..if gap then i - 1 else i], 0, gap)) == Some(value)
    decreases |value| - i
  {
    if i == |value| {
      assert value[..i] == value;
    } else {
      ScanRebuilds(value, i + 1);
      var gap := i > 0 && value[i - 1] == ' ';
      var c := value[i];
      if c == ' ' {
        assert Separates(value, i);
      } else if gap {
        assert Separates(value, i - 1);
        assert value[..i - 1] + [' '] + [c] == value[..i + 1];
      } else {
        assert value[..i] + [] + [c] == value[..i + 1];
      }
    }
  }

  /** Normalization is idempotent: a result holds no comment, quoting or tab, no doubled or edge space, and is its own
      result. */
  lemma NormalizedIsFixed(value: octets)
    requires Normalized(value).Some?
    ensures var out := Normalized(value).value;
      Normal(out) && Normalized(out) == Some(out)
  {
    ScanNormal(value, 0, Scan([], 0, false));
    var out := Normalized(value).value;
    ScanRebuilds(out, 0);
    assert out[..0] == [];
  }

  // ---- Comments and white space

  /** Text inside `depth` open comments that opens no comment it does not close: plain octets, quoted pairs, and
      comments nested at most sixteen deep. */
  ghost predicate Enclosed(text: octets, depth: nat)
    decreases |text|, 1
  {
    || text == []
    || (!Control(text[0]) && text[0] !in {'(', ')', '\\'} && Enclosed(text[1..], depth))
    || (|text| >= 2 && text[0] == '\\' && QuotedPairChar(text[1]) && Enclosed(text[2..], depth))
    || (depth < MAX_DEPTH && exists n :: 0 < n < |text| && Nested(text, n, depth))
  }

  /** A comment in front, ended by the octet at `n`. */
  ghost predicate Nested(text: octets, n: nat, depth: nat)
    requires 0 < n < |text| && depth < MAX_DEPTH
    decreases |text|, 0
  {
    text[0] == '(' && text[n] == ')' && Enclosed(text[1..n], depth + 1) && Enclosed(text[n + 1..], depth)
  }

  /** The scan depends on the rest of the text alone. */
  lemma {:induction false} ScanShift(value: octets, i: nat, j: nat, s: Scan)
    requires i <= j <= |value|
    ensures ScanFrom(value, j, s) == ScanFrom(value[i..], j - i, s)
    decreases |value| - j
  {
    if j < |value| {
      var c := value[j];
      assert value[i..][j - i] == c;
      if s.depth > 0 {
        if c == '\\' {
          if j + 1 < |value| {
            assert value[i..][j - i + 1] == value[j + 1];
            ScanShift(value, i, j + 2, s);
          }
        } else if c == '(' {
          ScanShift(value, i, j + 1, s.(depth := s.depth + 1));
        } else if c == ')' {
          ScanShift(value, i, j + 1, s.(depth := s.depth - 1));
        } else {
          ScanShift(value, i, j + 1, s);
        }
      } else {
        ScanShift(value, i, j + 1, s.(depth := 1, pending := true));
        ScanShift(value, i, j + 1, s.(pending := true));
        ScanShift(value, i, j + 1, Appended(s, c));
      }
    }
  }

  /** One octet is read, and the scan goes on with the rest. */
  lemma ScanOne(c: char, rest: octets, s: Scan)
    requires !Control(c) && (s.depth > 0 ==> c != '\\') && (s.depth == 0 ==> c != ')' && c != '\\')
    requires c == '(' ==> s.depth < MAX_DEPTH
    ensures ScanFrom([c] + rest, 0, s) == ScanFrom(rest, 0,
      if s.depth > 0 then
        if c == '(' then s.(depth := s.depth + 1) else if c == ')' then s.(depth := s.depth - 1) else s
      else if c == '(' then s.(depth := 1, pending := true)
      else if IsWsp(c) then s.(pending := true)
      else Appended(s, c))
  {
    var value := [c] + rest;
    assert value[1..] == rest;
    var next := if s.depth > 0 then
        if c == '(' then s.(depth := s.depth + 1) else if c == ')' then s.(depth := s.depth - 1) else s
      else if c == '(' then s.(depth := 1, pending := true)
      else if IsWsp(c) then s.(pending := true)
      else Appended(s, c);
    ScanShift(value, 1, 1, next);
  }

  lemma ScanPair(c: char, rest: octets, s: Scan)
    requires QuotedPairChar(c) && s.depth > 0
    ensures ScanFrom(['\\', c] + rest, 0, s) == ScanFrom(rest, 0, s)
  {
    var value := ['\\', c] + rest;
    assert value[2..] == rest;
    ScanShift(value, 2, 2, s);
  }

  /** Enclosed text leaves the scan where it was. */
  lemma {:induction false} ScanEnclosed(text: octets, rest: octets, s: Scan)
    requires s.depth > 0 && Enclosed(text, s.depth)
    ensures ScanFrom(text + rest, 0, s) == ScanFrom(rest, 0, s)
    decreases |text|
  {
    hide ScanFrom, Control, QuotedPairChar;
    if text == [] {
      assert text + rest == rest;
    } else if !Control(text[0]) && text[0] !in {'(', ')', '\\'} && Enclosed(text[1..], s.depth) {
      assert text + rest == [text[0]] + (text[1..] + rest);
      ScanOne(text[0], text[1..] + rest, s);
      ScanEnclosed(text[1..], rest, s);
    } else if |text| >= 2 && text[0] == '\\' && QuotedPairChar(text[1]) && Enclosed(text[2..], s.depth) {
      assert text + rest == ['\\', text[1]] + (text[2..] + rest);
      ScanPair(text[1], text[2..] + rest, s);
      ScanEnclosed(text[2..], rest, s);
    } else {
      var n :| 0 < n < |text| && Nested(text, n, s.depth);
      var inner, after, deeper := text[1..n], text[n + 1..] + rest, s.(depth := s.depth + 1);
      assert text + rest == ['('] + (inner + ([')'] + after));
      NotControl();
      ScanOne('(', inner + ([')'] + after), s);
      ScanEnclosed(inner, [')'] + after, deeper);
      ScanOne(')', after, deeper);
      ScanEnclosed(text[n + 1..], rest, s);
    }
  }

  lemma NotControl()
    ensures !Control('(') && !Control(')') && !Control(' ')
  {
  }

  /** Text without parentheses and quoting. */
  predicate Bare(text: octets) {
    forall c | c in text :: !Control(c) && c !in {'(', ')', '\\'}
  }

  /** What scanning bare text does to the scan. */
  function Scanned(text: octets, s: Scan): (r: Scan)
    requires s.depth == 0
    ensures r.depth == 0
  {
    if text == [] then s
    else Scanned(text[1..], if IsWsp(text[0]) then s.(pending := true) else Appended(s, text[0]))
  }

  lemma {:induction false} ScanBare(text: octets, rest: octets, s: Scan)
    requires Bare(text) && s.depth == 0
    ensures ScanFrom(text + rest, 0, s) == ScanFrom(rest, 0, Scanned(text, s))
  {
    hide ScanFrom, Control;
    if text == [] {
      assert text + rest == rest;
    } else {
      assert text[0] in text && forall c | c in text[1..] :: c in text;
      assert text + rest == [text[0]] + (text[1..] + rest);
      ScanOne(text[0], text[1..] + rest, s);
      ScanBare(text[1..], rest, if IsWsp(text[0]) then s.(pending := true) else Appended(s, text[0]));
    }
  }

  lemma CommentScanned(comment: octets, rest: octets, s: Scan)
    requires Enclosed(comment, 1) && s.depth == 0
    ensures ScanFrom("(" + comment + ")" + rest, 0, s) == ScanFrom(" " + rest, 0, s)
  {
    hide ScanFrom, Control, Enclosed;
    NotControl();
    assert "(" + comment + ")" + rest == ['('] + (comment + ([')'] + rest));
    assert " " + rest == [' '] + rest;
    var inside := s.(depth := 1, pending := true);
    ScanOne('(', comment + ([')'] + rest), s);
    ScanEnclosed(comment, [')'] + rest, inside);
    ScanOne(')', rest, inside);
    ScanOne(' ', rest, s);
    assert inside.(depth := 0) == s.(pending := true);
  }

  /** The first comment of a date, with whatever it nests, counts as one space. */
  lemma CommentIsSpace(before: octets, comment: octets, after: octets)
    requires Bare(before) && Enclosed(comment, 1) && |before + "(" + comment + ")" + after| <= MAX_LINE
    ensures Normalized(before + "(" + comment + ")" + after) == Normalized(before + " " + after)
  {
    hide ScanFrom, Control, Enclosed, Scanned;
    var s := Scanned(before, Scan([], 0, false));
    assert before + "(" + comment + ")" + after == before + ("(" + comment + ")" + after);
    assert before + " " + after == before + (" " + after);
    ScanBare(before, "(" + comment + ")" + after, Scan([], 0, false));
    ScanBare(before, " " + after, Scan([], 0, false));
    CommentScanned(comment, after, s);
  }

  lemma {:induction false} RunScanned(run: octets, rest: octets, s: Scan)
    requires run != [] && AllWsp(run) && s.depth == 0
    ensures ScanFrom(run + rest, 0, s) == ScanFrom(rest, 0, s.(pending := true))
  {
    hide ScanFrom;
    assert run + rest == [run[0]] + (run[1..] + rest);
    ScanOne(run[0], run[1..] + rest, s);
    if |run| > 1 {
      RunScanned(run[1..], rest, s.(pending := true));
    } else {
      assert run[1..] + rest == rest;
    }
  }

  /** A run of white space counts as one space. */
  lemma RunIsSpace(before: octets, run: octets, after: octets)
    requires Bare(before) && run != [] && AllWsp(run) && |before + run + after| <= MAX_LINE
    ensures Normalized(before + run + after) == Normalized(before + " " + after)
  {
    hide ScanFrom, Control, Scanned;
    var s := Scanned(before, Scan([], 0, false));
    assert before + run + after == before + (run + after) && before + " " + after == before + (" " + after);
    ScanBare(before, run + after, Scan([], 0, false));
    ScanBare(before, " " + after, Scan([], 0, false));
    RunScanned(run, after, s);
    RunScanned(" ", after, s);
  }

  /** Two words of text are separated by a space exactly where white space stood between them and neither a colon is in
      front of it nor a comma or a colon behind it. */
  lemma WordsApart(a: octets, b: octets)
    requires Bare(a) && Bare(b) && a != [] && b != [] && |a + " " + b| <= MAX_LINE
    requires (forall c | c in a :: !IsWsp(c)) && (forall c | c in b :: !IsWsp(c))
    ensures Normalized(a + b) == Some(a + b)
    ensures Normalized(a + " " + b)
         == Some(a + (if a[|a| - 1] == ':' || b[0] == ',' || b[0] == ':' then [] else " ") + b)
  {
    hide ScanFrom, Control, Scanned;
    var start := Scan([], 0, false);
    ScannedWord(a, start);
    ScanBare(a, b, start);
    ScanBare(a, " " + b, start);
    assert a + " " + b == a + (" " + b);
    assert [] + a == a;
    var s := Scan(a, 0, false);
    RunScanned(" ", b, s);
    assert b + [] == b;
    ScanBare(b, [], s);
    ScanBare(b, [], s.(pending := true));
    ScannedWord(b, s);
    ScannedGap(b, s.(pending := true));
    ScanEnd(a + b);
    ScanEnd(Scanned(b, s.(pending := true)).normalized);
  }

  lemma ScanEnd(text: octets)
    ensures ScanFrom([], 0, Scan(text, 0, false)) == if text == [] then None else Some(text)
  {
  }

  lemma {:induction false} ScannedWord(word: octets, s: Scan)
    requires s.depth == 0 && !s.pending && forall c | c in word :: !IsWsp(c)
    ensures Scanned(word, s) == Scan(s.normalized + word, 0, false)
  {
    if word == [] {
      assert s.normalized + [] == s.normalized;
    } else {
      assert word[0] in word && forall c | c in word[1..] :: c in word;
      ScannedWord(word[1..], Appended(s, word[0]));
      assert s.normalized + [] + [word[0]] + word[1..] == s.normalized + word;
    }
  }

  lemma ScannedGap(word: octets, s: Scan)
    requires s.depth == 0 && s.pending && s.normalized != [] && word != [] && forall c | c in word :: !IsWsp(c)
    ensures var last := s.normalized[|s.normalized| - 1];
      Scanned(word, s) == Scan(
        s.normalized + (if last == ':' || word[0] == ',' || word[0] == ':' then [] else " ") + word, 0, false)
  {
    assert word[0] in word && forall c | c in word[1..] :: c in word;
    var next := Appended(s, word[0]);
    ScannedWord(word[1..], next);
    var gap: octets := if NeedsSpace(s.normalized[|s.normalized| - 1], word[0]) then [' '] else [];
    assert s.normalized + gap + [word[0]] + word[1..] == s.normalized + gap + word;
  }
}
