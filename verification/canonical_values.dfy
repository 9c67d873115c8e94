/** What the canonical forms do to white space: the header hash spaces the words of a value singly, the signature
    input joins them. */
module CanonicalValues {
  import opened Octets
  import opened RawMessage
  import opened HeaderHash
  import opened Words
  import MessageParser
  import SignatureInput

  // ---- Compression of the header hash

  lemma {:induction false} CompressWord(word: octets, rest: octets, inWsp: bool)
    requires Solid(word) && word != []
    ensures Compress(word + rest, inWsp) == word + Compress(rest, false)
  {
    assert (word + rest)[1..] == word[1..] + rest;
    if |word| > 1 {
      CompressWord(word[1..], rest, false);
    } else {
      assert word[1..] + rest == rest;
    }
  }

  /** What compression leaves of a text that does not end in white space. */
  function Compressed(s: octets, inWsp: bool): octets {
    (if s != [] && IsWsp(s[0]) && !inWsp then [' '] else []) + Spaced(WordsOf(s))
  }

  lemma CompressedRun(s: octets, inWsp: bool)
    requires s != [] && IsWsp(s[0])
    ensures Compressed(s, inWsp) == (if inWsp then [] else [' ']) + Compressed(s[1..], true)
  {
    hide Spaced;
    assert [] + Spaced(WordsOf(s[1..])) == Spaced(WordsOf(s[1..]));
  }

  lemma CompressedWord(word: octets, rest: octets, inWsp: bool)
    requires Solid(word) && word != [] && (rest != [] ==> IsWsp(rest[0]) && !IsWsp(rest[|rest| - 1]))
    ensures Compressed(word + rest, inWsp) == word + Compressed(rest, false)
  {
    hide Spaced, WordsOf;
    WordsCons(word, rest);
    RestWords(rest);
    SpacedCons(word, WordsOf(rest));
    assert (word + rest)[0] == word[0];
    if rest == [] {
      NoWords(rest);
      SpacedNothing();
    }
  }

  lemma SpacedNothing()
    ensures Spaced([]) == []
  {
  }

  /** Compression of a text that does not end in white space. */
  lemma {:induction false} CompressSpaced(s: octets, inWsp: bool)
    requires s != [] ==> !IsWsp(s[|s| - 1])
    ensures Compress(s, inWsp) == Compressed(s, inWsp)
    decreases |s|
  {
    if s != [] {
      hide Compressed;
      if IsWsp(s[0]) {
        CompressSpaced(s[1..], true);
        CompressedRun(s, inWsp);
      } else {
        var n := WordLength(s);
        var word, rest := s[..n], s[n..];
        assert s == word + rest;
        CompressWord(word, rest, inWsp);
        CompressSpaced(rest, false);
        CompressedWord(word, rest, inWsp);
      }
    }
  }

  lemma SpacedCons(word: octets, words: seq<octets>)
    ensures Spaced([word] + words) == if words == [] then word else word + [' '] + Spaced(words)
  {
    assert ([word] + words)[1..] == words;
  }

  lemma RestWords(rest: octets)
    requires rest != [] ==> !IsWsp(rest[|rest| - 1])
    ensures rest != [] ==> WordsOf(rest) != []
  {
    NoWords(rest);
  }

  /** The canonical value of a header field: its words with one SP between them. */
  lemma CanonicalIsSpaced(value: octets)
    ensures CanonicalValue(value) == Spaced(WordsOf(value))
  {
    hide Trim, Compress;
    var before, after := TrimSplit(value);
    var text := Trim(value);
    CompressSpaced(text, false);
    WordsPadded(before, text + after);
    WordsTrailing(text, after);
    assert before + text + after == before + (text + after);
  }

  lemma WordsTrailing(s: octets, after: octets)
    requires AllWsp(after)
    ensures WordsOf(s + after) == WordsOf(s)
  {
    if after == [] {
      assert s + after == s;
    } else {
      WordsApart(s, after, []);
      assert s + after + [] == s + after;
    }
  }

  /** Two values have one canonical form exactly when they list the same words. */
  lemma SameCanonicalIff(a: octets, b: octets)
    ensures CanonicalValue(a) == CanonicalValue(b) <==> WordsOf(a) == WordsOf(b)
  {
    hide CanonicalValue;
    CanonicalIsSpaced(a);
    CanonicalIsSpaced(b);
    WordsOfSpaced(WordsOf(a));
    WordsOfSpaced(WordsOf(b));
  }

  /** Every white space of a canonical value is one SP between other octets. */
  lemma CanonicalSingly(value: octets)
    ensures var s := CanonicalValue(value);
      forall i | 0 <= i < |s| && IsWsp(s[i]) ::
        s[i] == ' ' && 0 < i < |s| - 1 && !IsWsp(s[i - 1]) && !IsWsp(s[i + 1])
  {
    hide CanonicalValue;
    CanonicalIsSpaced(value);
    SpacedSingly(WordsOf(value));
  }

  /** A run of white space between two texts becomes one SP, and text without white space stays. */
  lemma CanonicalRun(a: octets, w: octets, c: octets)
    requires AllWsp(w) && w != [] && !AllWsp(a) && !AllWsp(c)
    ensures CanonicalValue(a + w + c) == CanonicalValue(a) + [' '] + CanonicalValue(c)
    ensures Solid(a) ==> CanonicalValue(a) == a
  {
    hide CanonicalValue;
    CanonicalIsSpaced(a);
    CanonicalIsSpaced(c);
    CanonicalIsSpaced(a + w + c);
    WordsApart(a, w, c);
    NoWords(a);
    NoWords(c);
    SpacedConcat(WordsOf(a), WordsOf(c));
    if Solid(a) {
      WordsOfSolid(a);
    }
  }

  // ---- The hash input in terms of words

  /** The words of the values of one name, in block order. */
  function ValueWords(b: Block, name: octets): seq<seq<octets>> {
    if b == [] then []
    else
      ValueWords(b[..|b| - 1], name)
      + if b[|b| - 1].Name() == name then [WordsOf(b[|b| - 1].Value())] else []
  }

  lemma {:induction false} ValuesSpaced(b: Block, name: octets)
    ensures |Values(b, name)| == |ValueWords(b, name)|
    ensures forall i | 0 <= i < |Values(b, name)| :: Values(b, name)[i] == Spaced(ValueWords(b, name)[i])
    ensures forall i | 0 <= i < |Values(b, name)| :: WordsOf(Values(b, name)[i]) == ValueWords(b, name)[i]
  {
    hide CanonicalValue, Lower, Unfold;
    if b != [] {
      var value := b[|b| - 1].Value();
      ValuesSpaced(b[..|b| - 1], name);
      CanonicalIsSpaced(value);
      WordsOfSpaced(WordsOf(value));
    }
  }

  lemma SameWordsIff(a: Block, b: Block, name: octets)
    ensures Values(a, name) == Values(b, name) <==> ValueWords(a, name) == ValueWords(b, name)
  {
    hide Values, ValueWords;
    ValuesSpaced(a, name);
    ValuesSpaced(b, name);
    var x, y := ValueWords(a, name), ValueWords(b, name);
    if Values(a, name) == Values(b, name) {
      forall i | 0 <= i < |x| ensures x[i] == y[i] {
        assert x[i] == WordsOf(Values(a, name)[i]);
      }
    }
    if x == y {
      forall i | 0 <= i < |x| ensures Values(a, name)[i] == Values(b, name)[i] {
        assert Values(a, name)[i] == Spaced(x[i]);
      }
    }
  }

  /** Two header blocks within the limits have equal hash input exactly when every signed name lists the same words,
      field by field. */
  lemma WordsNormalForm(limits: HeaderHash.Limits, a: Block, b: Block)
    requires ValidBlock(a) && ValidBlock(b)
    requires HashInput(limits, a).Ok? && HashInput(limits, b).Ok?
    ensures HashInput(limits, a) == HashInput(limits, b)
       <==> forall name | Relevant(name) :: ValueWords(a, name) == ValueWords(b, name)
  {
    hide HashInput, Relevant, Values, ValueWords;
    NormalForm(limits, a, b);
    forall name ensures Values(a, name) == Values(b, name) <==> ValueWords(a, name) == ValueWords(b, name) {
      SameWordsIff(a, b, name);
    }
    if forall name | Relevant(name) :: ValueWords(a, name) == ValueWords(b, name) {
      forall name | Relevant(name) ensures Values(a, name) == Values(b, name) {
        assert ValueWords(a, name) == ValueWords(b, name);
      }
    }
    if forall name | Relevant(name) :: Values(a, name) == Values(b, name) {
      forall name | Relevant(name) ensures ValueWords(a, name) == ValueWords(b, name) {
        assert Values(a, name) == Values(b, name);
      }
    }
  }

  // ---- The hash input as a header block

  /** The raw values of the fields with one raw name, top-down. */
  function RawValues(h: Block, name: octets): seq<octets> {
    if h == [] then [] else (if h[0].rawName == name then [h[0].rawValue] else []) + RawValues(h[1..], name)
  }

  predicate NamesAscend(h: Block) {
    forall i, j | 0 <= i < j < |h| :: !Less(h[j].rawName, h[i].rawName)
  }

  function AsFields(lines: seq<Line>): (h: Block)
    ensures |h| == |lines| && forall i | 0 <= i < |h| :: h[i] == Field(lines[i].name, lines[i].value)
  {
    seq(|lines|, i requires 0 <= i < |lines| => Field(lines[i].name, lines[i].value))
  }

  lemma {:induction false} RenderedAsFields(lines: seq<Line>)
    ensures Rendered(lines) == MessageParser.RawBlock(AsFields(lines))
    ensures forall name :: RawValues(AsFields(lines), name) == ValuesNamed(lines, name)
  {
    if lines != [] {
      RenderedAsFields(lines[1..]);
      assert AsFields(lines)[1..] == AsFields(lines[1..]);
    }
  }

  /** The spaced words of the values of one name, bottom-up. */
  function SpacedUpward(b: Block, name: octets): (r: seq<octets>) {
    var words := ValueWords(b, name);
    seq(|words|, i requires 0 <= i < |words| => Spaced(words[|words| - 1 - i]))
  }

  lemma SortedSpaced(b: Block, name: octets)
    ensures ValuesNamed(Lines(SortedRecords(b)), name) == if Relevant(name) then SpacedUpward(b, name) else []
  {
    hide Relevant, Values, ValueWords, ValuesNamed, SortedRecords;
    SortedValues(b, name);
    ValuesSpaced(b, name);
  }

  /** The hash input is itself a header block: unfolded fields in ascending order of their lowercase names, and for
      each signed name the spaced words of its values, bottom-up. */
  lemma InputIsBlock(limits: HeaderHash.Limits, b: Block) returns (h: Block)
    requires HashInput(limits, b).Ok?
    ensures HashInput(limits, b).value == MessageParser.RawBlock(h) && NamesAscend(h)
    ensures forall name :: RawValues(h, name) == if Relevant(name) then SpacedUpward(b, name) else []
  {
    hide Relevant, SpacedUpward, ValuesNamed, RawValues, SortedRecords, Lines, Rendered, Oversized;
    var lines := Lines(SortedRecords(b));
    h := AsFields(lines);
    AssembleMeaning(limits, SortedRecords(b));
    RenderedAsFields(lines);
    SortedRecordsNameSorted(b);
    forall name ensures RawValues(h, name) == if Relevant(name) then SpacedUpward(b, name) else [] {
      SortedSpaced(b, name);
    }
  }

  // ---- Deletion of the signature input

  lemma {:induction false} DeleteWord(word: octets, rest: octets)
    requires Solid(word)
    ensures SignatureInput.DeleteWsp(word + rest) == word + SignatureInput.DeleteWsp(rest)
  {
    if word == [] {
      assert word + rest == rest;
    } else {
      assert (word + rest)[1..] == word[1..] + rest;
      DeleteWord(word[1..], rest);
    }
  }

  /** White-space deletion joins the words. */
  lemma {:induction false} DeletedIsJoined(value: octets)
    ensures SignatureInput.DeleteWsp(value) == Concat(WordsOf(value))
    decreases |value|
  {
    if value != [] {
      if IsWsp(value[0]) {
        DeletedIsJoined(value[1..]);
      } else {
        var n := WordLength(value);
        assert value == value[..n] + value[n..];
        DeleteWord(value[..n], value[n..]);
        DeletedIsJoined(value[n..]);
        assert WordsOf(value)[1..] == WordsOf(value[n..]);
      }
    }
  }

  lemma {:induction false} DeletedConcat(a: octets, b: octets)
    ensures SignatureInput.DeleteWsp(a + b) == SignatureInput.DeleteWsp(a) + SignatureInput.DeleteWsp(b)
  {
    if a == [] {
      assert a + b == b;
    } else {
      assert (a + b)[1..] == a[1..] + b;
      DeletedConcat(a[1..], b);
    }
  }

  lemma {:induction false} DeletedSolid(value: octets)
    ensures Solid(SignatureInput.DeleteWsp(value))
    ensures Solid(value) ==> SignatureInput.DeleteWsp(value) == value
    ensures AllWsp(value) ==> SignatureInput.DeleteWsp(value) == []
  {
    if value != [] {
      DeletedSolid(value[1..]);
      assert value == [value[0]] + value[1..];
    }
  }

  /** Any white space inserted anywhere disappears, and nothing else does. */
  lemma DeletedRun(a: octets, w: octets, c: octets)
    requires AllWsp(w)
    ensures SignatureInput.DeleteWsp(a + w + c) == SignatureInput.DeleteWsp(a + c)
  {
    DeletedConcat(a + w, c);
    DeletedConcat(a, w);
    DeletedConcat(a, c);
    DeletedSolid(w);
  }
}
