/** The words of a text: its maximal pieces without white space. They are the reference for white-space compression
    and deletion. */
module Words {
  import opened Octets

  predicate Solid(s: octets) {
    forall i | 0 <= i < |s| :: !IsWsp(s[i])
  }

  /** The length of the word that starts a text. */
  function WordLength(s: octets): (n: nat)
    ensures n <= |s| && Solid(s[..n]) && (n < |s| ==> IsWsp(s[n]))
  {
    if s == [] || IsWsp(s[0]) then 0
    else
      var n := WordLength(s[1..]);
      assert s[..n + 1] == [s[0]] + s[1..][..n];
      n + 1
  }

  function WordsOf(s: octets): (r: seq<octets>)
    ensures forall w | w in r :: w != [] && Solid(w)
    decreases |s|
  {
    if s == [] then []
    else if IsWsp(s[0]) then WordsOf(s[1..])
    else
      var n := WordLength(s);
      [s[..n]] + WordsOf(s[n..])
  }

  /** Words with one SP between them. */
  function Spaced(words: seq<octets>): octets {
    if words == [] then []
    else if |words| == 1 then words[0]
    else words[0] + [' '] + Spaced(words[1..])
  }

  // ---- Cutting texts into words

  lemma {:induction false} WordEnd(word: octets, rest: octets)
    requires Solid(word) && (rest != [] ==> IsWsp(rest[0]))
    ensures WordLength(word + rest) == |word|
  {
    if word == [] {
      assert word + rest == rest;
    } else {
      assert (word + rest)[1..] == word[1..] + rest;
      WordEnd(word[1..], rest);
    }
  }

  lemma WordsCons(word: octets, rest: octets)
    requires word != [] && Solid(word) && (rest != [] ==> IsWsp(rest[0]))
    ensures WordsOf(word + rest) == [word] + WordsOf(rest)
  {
    WordEnd(word, rest);
    assert (word + rest)[..|word|] == word && (word + rest)[|word|..] == rest;
  }

  lemma {:induction false} WordsPadded(before: octets, s: octets)
    requires AllWsp(before)
    ensures WordsOf(before + s) == WordsOf(s)
  {
    if before == [] {
      assert before + s == s;
    } else {
      assert (before + s)[1..] == before[1..] + s;
      WordsPadded(before[1..], s);
    }
  }

  /** White space between two texts separates their words. */
  lemma {:induction false} WordsApart(a: octets, w: octets, c: octets)
    requires AllWsp(w) && w != []
    ensures WordsOf(a + w + c) == WordsOf(a) + WordsOf(c)
    decreases |a|
  {
    var s := a + w + c;
    if a == [] {
      assert s == w + c;
      WordsPadded(w, c);
    } else if IsWsp(a[0]) {
      assert s[1..] == a[1..] + w + c;
      WordsApart(a[1..], w, c);
    } else {
      var n := WordLength(a);
      var rest := a[n..] + w + c;
      assert s == a[..n] + rest && a == a[..n] + a[n..];
      assert rest[0] == if n < |a| then a[n] else w[0];
      WordsCons(a[..n], rest);
      WordsCons(a[..n], a[n..]);
      WordsApart(a[n..], w, c);
    }
  }

  lemma {:induction false} NoWords(s: octets)
    ensures WordsOf(s) == [] <==> AllWsp(s)
  {
    if s != [] && IsWsp(s[0]) {
      NoWords(s[1..]);
    }
  }

  lemma WordsOfSolid(s: octets)
    requires s != [] && Solid(s)
    ensures WordsOf(s) == [s]
  {
    assert s + [] == s;
    WordsCons(s, []);
  }

  /** Spacing words and cutting them out again gives them back. */
  lemma {:induction false} WordsOfSpaced(words: seq<octets>)
    requires forall w | w in words :: w != [] && Solid(w)
    ensures WordsOf(Spaced(words)) == words
  {
    if |words| == 1 {
      assert words[0] in words;
      WordsOfSolid(words[0]);
    } else if words != [] {
      var rest := Spaced(words[1..]);
      assert words[0] in words && forall w | w in words[1..] :: w in words;
      WordsOfSpaced(words[1..]);
      assert words[0] + [' '] + rest == words[0] + ([' '] + rest);
      WordsCons(words[0], [' '] + rest);
      assert ([' '] + rest)[1..] == rest;
    }
  }

  lemma {:induction false} SpacedConcat(a: seq<octets>, b: seq<octets>)
    requires a != [] && b != []
    ensures Spaced(a + b) == Spaced(a) + [' '] + Spaced(b)
  {
    if |a| == 1 {
      assert (a + b)[1..] == b;
    } else {
      assert (a + b)[1..] == a[1..] + b;
      SpacedConcat(a[1..], b);
    }
  }

  /** Spaced words hold no white space but single SPs between other octets. */
  lemma {:induction false} SpacedSingly(words: seq<octets>)
    requires forall w | w in words :: w != [] && Solid(w)
    ensures words != [] ==> Spaced(words) != [] && !IsWsp(Spaced(words)[0])
    ensures forall i | 0 <= i < |Spaced(words)| && IsWsp(Spaced(words)[i]) ::
      Spaced(words)[i] == ' ' && 0 < i < |Spaced(words)| - 1 && !IsWsp(Spaced(words)[i - 1]) && !IsWsp(Spaced(words)[i + 1])
  {
    if |words| == 1 {
      assert words[0] in words;
    } else if words != [] {
      assert words[0] in words && words[1..] != [];
      var word, rest := words[0], Spaced(words[1..]);
      SpacedSingly(words[1..]);
      var s := Spaced(words);
      assert s == word + [' '] + rest;
      forall i | 0 <= i < |s| && IsWsp(s[i])
        ensures s[i] == ' ' && 0 < i < |s| - 1 && !IsWsp(s[i - 1]) && !IsWsp(s[i + 1])
      {
        if i > |word| {
          var j := i - |word| - 1;
          assert s[i] == rest[j];
        } else {
          assert i == |word|;
        }
      }
    }
  }
}
