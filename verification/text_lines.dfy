/** Strict text and its line ends: how the raw-message parser's line limits add up when texts are joined. */
module TextLines {
  import opened Octets
  import opened RawMessage
  import opened MessageParser
  import StatusLines

  /** Strict CRLF text of lines within the body limit. */
  predicate Tidy(text: octets) {
    StrictCrlf(text) && LinesWithin(text, DEFAULTS.maxBodyLineBytes, 0)
  }

  /** The number of line ends. */
  function LineEnds(text: octets): nat {
    if text == [] then 0
    else if |text| >= 2 && text[0] == '\r' && text[1] == '\n' then 1 + LineEnds(text[2..])
    else LineEnds(text[1..])
  }

  /** Tidy text with exactly `n` line ends. */
  predicate Lined(text: octets, n: nat) {
    Tidy(text) && LineEnds(text) == n
  }

  // ---- Joining texts by a line end

  lemma {:induction false} StrictJoin(a: octets, b: octets)
    ensures StrictCrlf(a + CRLF + b) <==> StrictCrlf(a) && StrictCrlf(b)
    decreases |a|
  {
    var s := a + CRLF + b;
    if a == [] {
      assert s[2..] == b;
    } else if a[0] == '\r' {
      if |a| >= 2 && a[1] == '\n' {
        assert s[2..] == a[2..] + CRLF + b;
        StrictJoin(a[2..], b);
      }
    } else {
      assert s[1..] == a[1..] + CRLF + b;
      StrictJoin(a[1..], b);
    }
  }

  lemma {:induction false} WithinJoin(a: octets, b: octets, max: nat, used: nat)
    ensures LinesWithin(a + CRLF + b, max, used) <==> LinesWithin(a, max, used) && LinesWithin(b, max, 0)
    decreases |a|
  {
    var s := a + CRLF + b;
    if a == [] {
      assert s[2..] == b;
    } else {
      var skip := if |a| >= 2 && a[0] == '\r' && a[1] == '\n' then 2 else 1;
      assert s[skip..] == a[skip..] + CRLF + b;
      WithinJoin(a[skip..], b, max, if skip == 2 then 0 else used + 1);
    }
  }

  lemma {:induction false} EndsJoin(a: octets, b: octets)
    ensures LineEnds(a + CRLF + b) == LineEnds(a) + 1 + LineEnds(b)
    decreases |a|
  {
    var s := a + CRLF + b;
    if a == [] {
      assert s[2..] == b;
    } else {
      var skip := if |a| >= 2 && a[0] == '\r' && a[1] == '\n' then 2 else 1;
      assert s[skip..] == a[skip..] + CRLF + b;
      EndsJoin(a[skip..], b);
    }
  }

  /** The parser's line count of a join. */
  lemma {:induction false} CountJoin(a: octets, b: octets, open: bool)
    ensures LineCount(a + CRLF + b, open) == LineEnds(a) + 1 + LineCount(b, false)
    decreases |a|
  {
    var s := a + CRLF + b;
    if a == [] {
      assert s[2..] == b;
    } else {
      var skip := if |a| >= 2 && a[0] == '\r' && a[1] == '\n' then 2 else 1;
      assert s[skip..] == a[skip..] + CRLF + b;
      CountJoin(a[skip..], b, skip == 1);
    }
  }

  /** An unterminated rest is one more line than there are line ends. */
  lemma {:induction false} CountEnds(text: octets, open: bool)
    ensures LineEnds(text) <= LineCount(text, open) <= LineEnds(text) + 1
    decreases |text|
  {
    if text != [] {
      var skip := if |text| >= 2 && text[0] == '\r' && text[1] == '\n' then 2 else 1;
      CountEnds(text[skip..], skip == 1);
    }
  }

  lemma TidyJoin(a: octets, b: octets)
    ensures Tidy(a + CRLF + b) <==> Tidy(a) && Tidy(b)
    ensures LineEnds(a + CRLF + b) == LineEnds(a) + 1 + LineEnds(b)
  {
    hide StrictCrlf, LinesWithin, LineEnds;
    StrictJoin(a, b);
    WithinJoin(a, b, DEFAULTS.maxBodyLineBytes, 0);
    EndsJoin(a, b);
  }

  // ---- Texts of known lines

  lemma {:induction false} PlainWithin(line: octets, used: nat)
    requires NoLineEnd(line) && used + |line| <= 998
    ensures StrictCrlf(line) && LinesWithin(line, 998, used) && LineEnds(line) == 0
    decreases |line|
  {
    if line != [] {
      assert line[0] in line && forall c | c in line[1..] :: c in line;
      PlainWithin(line[1..], used + 1);
    }
  }

  lemma LineLined(line: octets)
    requires NoLineEnd(line) && |line| <= 998
    ensures Lined(line, 0)
  {
    PlainWithin(line, 0);
  }

  lemma LinedEmpty()
    ensures Lined([], 0)
  {
  }

  lemma {:induction false} JoinedLined(lines: seq<octets>)
    requires forall i | 0 <= i < |lines| :: NoLineEnd(lines[i]) && |lines[i]| <= 998
    ensures Lined(StatusLines.Joined(lines), |lines|)
  {
    hide Tidy, LineEnds;
    if lines == [] {
      LinedEmpty();
    } else {
      LineLined(lines[0]);
      JoinedLined(lines[1..]);
      TidyJoin(lines[0], StatusLines.Joined(lines[1..]));
    }
  }

  /** A text of empty lines. */
  function Blank(n: nat): octets {
    if n == 0 then [] else CRLF + Blank(n - 1)
  }

  lemma {:induction false} BlankLined(n: nat)
    ensures Lined(Blank(n), n) && LineCount(Blank(n), false) == n && |Blank(n)| == 2 * n
  {
    hide Tidy, LineEnds, LineCount;
    LinedEmpty();
    if n == 0 {
      CountNone();
    } else {
      BlankLined(n - 1);
      TidyJoin([], Blank(n - 1));
      CountJoin([], Blank(n - 1), false);
      assert [] + CRLF + Blank(n - 1) == Blank(n);
    }
  }

  lemma CountNone()
    ensures LineCount([], false) == 0
  {
  }
}
