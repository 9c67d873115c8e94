/** Octet strings and the few library operations the modelled code uses on them.
    An octet is a Dafny `char`: every theorem below holds for all chars, hence for the codes 0..255. */
module Octets {
  type octets = seq<char>

  datatype Option<+T> = None | Some(value: T)

  datatype Result<+T, +E> = Ok(value: T) | Err(error: E)

  const CRLF: octets := "\r\n"

  /** RFC 5322 WSP. */
  predicate IsWsp(c: char) {
    c == ' ' || c == '\t'
  }

  predicate AllWsp(s: octets) {
    forall i | 0 <= i < |s| :: IsWsp(s[i])
  }

  function LowerChar(c: char): (r: char) {
    if 'A' <= c <= 'Z' then c - 'A' + 'a' else c
  }

  /** ASCII lower-casing. */
  function Lower(s: octets): (r: octets)
    ensures |r| == |s|
    ensures forall i | 0 <= i < |s| :: r[i] == LowerChar(s[i])
  {
    seq(|s|, i requires 0 <= i < |s| => LowerChar(s[i]))
  }

  lemma LowerIs(name: octets, lower: octets)
    requires |name| == |lower| && forall i | 0 <= i < |name| :: LowerChar(name[i]) == lower[i]
    ensures Lower(name) == lower
  {
  }

  function TrimLeft(s: octets): (r: octets)
    ensures |r| <= |s|
    ensures r != [] ==> !IsWsp(r[0])
    ensures forall c | c in r :: c in s
  {
    if s != [] && IsWsp(s[0]) then TrimLeft(s[1..]) else s
  }

  function TrimRight(s: octets): (r: octets)
    ensures |r| <= |s| && r == s[..|r|]
    ensures r != [] ==> !IsWsp(r[|r| - 1])
  {
    if s != [] && IsWsp(s[|s| - 1]) then TrimRight(s[..|s| - 1]) else s
  }

  /** Go's `bytes.Trim(s, " \t")`. */
  function Trim(s: octets): (r: octets)
    ensures |r| <= |s|
    ensures r != [] ==> !IsWsp(r[0]) && !IsWsp(r[|r| - 1])
    ensures forall c | c in r :: c in s
  {
    TrimRight(TrimLeft(s))
  }

  /** No WSP at either end. */
  predicate Trimmed(s: octets) {
    s != [] ==> !IsWsp(s[0]) && !IsWsp(s[|s| - 1])
  }

  lemma {:induction false} TrimLeftPadded(before: octets, text: octets)
    requires AllWsp(before) && (text != [] ==> !IsWsp(text[0]))
    ensures TrimLeft(before + text) == text
  {
    if before == [] {
      assert before + text == text;
    } else {
      assert (before + text)[1..] == before[1..] + text;
      TrimLeftPadded(before[1..], text);
    }
  }

  lemma {:induction false} TrimRightPadded(text: octets, after: octets)
    requires AllWsp(after) && (text != [] ==> !IsWsp(text[|text| - 1]))
    ensures TrimRight(text + after) == text
  {
    if after == [] {
      assert text + after == text;
    } else {
      assert (text + after)[..|text + after| - 1] == text + after[..|after| - 1];
      TrimRightPadded(text, after[..|after| - 1]);
    }
  }

  lemma {:induction false} TrimLeftBlank(s: octets)
    requires AllWsp(s)
    ensures TrimLeft(s) == []
  {
    TrimLeftPadded(s, []);
    assert s + [] == s;
  }

  /** A trimmed text is recovered from any WSP padding around it. */
  lemma TrimPadded(before: octets, text: octets, after: octets)
    requires AllWsp(before) && AllWsp(after) && Trimmed(text)
    ensures Trim(before + text + after) == text
  {
    assert before + text + after == before + (text + after);
    if text == [] {
      assert before + (text + after) == before + after;
      TrimLeftBlank(before + after);
    } else {
      TrimLeftPadded(before, text + after);
      TrimRightPadded(text, after);
    }
  }

  lemma TrimOfTrimmed(text: octets)
    requires Trimmed(text)
    ensures Trim(text) == text
  {
    TrimPadded([], text, []);
    assert [] + text + [] == text;
  }

  lemma {:induction false} TrimLeftSplit(s: octets) returns (pad: octets)
    ensures AllWsp(pad) && s == pad + TrimLeft(s)
  {
    if s != [] && IsWsp(s[0]) {
      var more := TrimLeftSplit(s[1..]);
      pad := [s[0]] + more;
      assert s == [s[0]] + s[1..];
    } else {
      pad := [];
    }
  }

  lemma {:induction false} TrimRightSplit(s: octets) returns (pad: octets)
    ensures AllWsp(pad) && s == TrimRight(s) + pad
  {
    if s != [] && IsWsp(s[|s| - 1]) {
      var more := TrimRightSplit(s[..|s| - 1]);
      pad := more + [s[|s| - 1]];
      assert s == s[..|s| - 1] + [s[|s| - 1]];
    } else {
      pad := [];
    }
  }

  lemma TrimSplit(s: octets) returns (before: octets, after: octets)
    ensures AllWsp(before) && AllWsp(after) && s == before + Trim(s) + after
  {
    before := TrimLeftSplit(s);
    after := TrimRightSplit(TrimLeft(s));
    assert before + (Trim(s) + after) == before + Trim(s) + after;
  }

  /** Bytewise lexicographic order: Go's `<` on strings. */
  predicate Less(a: octets, b: octets) {
    if b == [] then false
    else if a == [] then true
    else a[0] < b[0] || (a[0] == b[0] && Less(a[1..], b[1..]))
  }

  /** The first differing octet decides, and a proper prefix is less. */
  lemma {:induction false} LessAt(front: octets, a: octets, b: octets)
    requires a != [] && b != [] && a[0] != b[0]
    ensures Less(front + a, front + b) <==> a[0] < b[0]
    ensures Less(front, front + a) && !Less(front + a, front)
  {
    if front == [] {
      assert front + a == a && front + b == b;
    } else {
      LessAt(front[1..], a, b);
      assert (front + a)[1..] == front[1..] + a && (front + b)[1..] == front[1..] + b;
    }
  }

  lemma {:induction false} LessTotal(a: octets, b: octets)
    ensures a != b ==> Less(a, b) || Less(b, a)
    ensures !(Less(a, b) && Less(b, a))
  {
    if a != [] && b != [] {
      LessTotal(a[1..], b[1..]);
      if a[0] == b[0] && a[1..] == b[1..] {
        assert a == [a[0]] + a[1..] && b == [b[0]] + b[1..];
      }
    }
  }

  lemma {:induction false} LessTransitive(a: octets, b: octets, c: octets)
    requires Less(a, b) && Less(b, c)
    ensures Less(a, c)
  {
    if a != [] && a[0] == b[0] == c[0] {
      LessTransitive(a[1..], b[1..], c[1..]);
    }
  }

  /** `needle` occurs in `hay` at offset `i`. */
  predicate OccursAt(hay: octets, i: int, needle: octets) {
    0 <= i && i + |needle| <= |hay| && hay[i..i + |needle|] == needle
  }

  lemma OccursShift(hay: octets, k: nat, i: int, needle: octets)
    requires k <= |hay| && 0 <= i
    ensures OccursAt(hay[k..], i, needle) <==> OccursAt(hay, i + k, needle)
  {
    if i + |needle| <= |hay| - k {
      assert hay[k..][i..i + |needle|] == hay[i + k..i + k + |needle|];
    }
  }

  predicate Contains(hay: octets, needle: octets) {
    exists i :: 0 <= i <= |hay| && OccursAt(hay, i, needle)
  }

  /** The first occurrence at or after `from`: Go's `bytes.Index` on a tail. */
  function Find(hay: octets, from: nat, needle: octets): (r: Option<nat>)
    decreases |hay| - from
    ensures r.Some? ==> from <= r.value && OccursAt(hay, r.value, needle)
    ensures r.Some? ==> forall i | from <= i < r.value :: !OccursAt(hay, i, needle)
    ensures r.None? ==> forall i | from <= i :: !OccursAt(hay, i, needle)
  {
    if |hay| < from + |needle| then None
    else if OccursAt(hay, from, needle) then Some(from)
    else if from < |hay| then Find(hay, from + 1, needle)
    else None
  }

  /** The first index holding `c`: Go's `bytes.IndexByte`. */
  function IndexByte(s: octets, c: char): (r: Option<nat>)
    ensures r.Some? ==> r.value < |s| && s[r.value] == c && c !in s[..r.value]
    ensures r.None? ==> c !in s
  {
    if s == [] then None
    else if s[0] == c then Some(0)
    else
      match IndexByte(s[1..], c)
      case None => None
      case Some(i) =>
        assert s[..i + 1] == [s[0]] + s[1..][..i];
        Some(i + 1)
  }

  lemma {:induction false} IndexByteAt(before: octets, c: char, after: octets)
    requires c !in before
    ensures IndexByte(before + [c] + after, c) == Some(|before|)
  {
    if before == [] {
      assert before + [c] + after == [c] + after;
    } else {
      assert (before + [c] + after)[1..] == before[1..] + [c] + after;
      IndexByteAt(before[1..], c, after);
    }
  }

  /** Cutting two equal strings at the first occurrence of a mark cuts them alike. */
  lemma CutAtFirst(a: octets, x: octets, b: octets, y: octets, mark: char)
    requires mark !in a && mark !in b
    requires a + [mark] + x == b + [mark] + y
    ensures a == b && x == y
  {
    IndexByteAt(a, mark, x);
    IndexByteAt(b, mark, y);
    assert a == (a + [mark] + x)[..|a|];
    assert b == (b + [mark] + y)[..|b|];
    assert x == (a + [mark] + x)[|a| + 1..];
    assert y == (b + [mark] + y)[|b| + 1..];
  }

  function Concat(parts: seq<octets>): (r: octets) {
    if parts == [] then [] else parts[0] + Concat(parts[1..])
  }

  predicate EndsInCrlf(s: octets) {
    |s| >= 2 && s[|s| - 2..] == CRLF
  }

  /** The ASCII digit of a number below ten. */
  function Digit(n: nat): char
    requires n < 10
  {
    '0' + n as char
  }

  /** A bracketed SMTP path with an obsolete source route: only that starts with an at sign. */
  predicate SourceRouted(path: octets) {
    |path| > 2 && path[0] == '<' && path[1] == '@'
  }
}
