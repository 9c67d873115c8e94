/** Section 6.1 canonical body hash input (draft-ietf-dkim-dkim2-spec-09). */
module BodyHash {
  import opened Octets

  datatype TerminalAction = Appended | Preserved | Collapsed

  /** The body without any of its terminal CRLFs. */
  function Stem(body: octets): (r: octets)
    ensures r <= body && !EndsInCrlf(r)
  {
    if EndsInCrlf(body) then Stem(body[..|body| - 2]) else body
  }

  /** The number of terminal CRLFs. */
  function TerminalCrlfs(body: octets): nat {
    if EndsInCrlf(body) then 1 + TerminalCrlfs(body[..|body| - 2]) else 0
  }

  method CanonicalizeBody(body: octets) returns (canonical: octets, removed: nat, action: TerminalAction)
    ensures canonical == Stem(body) + CRLF
    ensures removed == if TerminalCrlfs(body) == 0 then 0 else TerminalCrlfs(body) - 1
    ensures action == match TerminalCrlfs(body) case 0 => Appended case 1 => Preserved case _ => Collapsed
  {
    if body == [] {
      return CRLF, 0, Appended;
    }
    if !EndsInCrlf(body) {
      return body + CRLF, 0, Appended;
    }
    var end := |body|;
    removed := 0;
    assert body[..end] == body;
    while end >= 4 && body[end - 4..end - 2] == CRLF
      invariant 2 <= end <= |body|
      invariant EndsInCrlf(body[..end])
      invariant Stem(body[..end]) == Stem(body)
      invariant removed + TerminalCrlfs(body[..end]) == TerminalCrlfs(body)
    {
      assert body[..end][..end - 2] == body[..end - 2];
      assert body[..end - 2][end - 4..] == body[end - 4..end - 2];
      end := end - 2;
      removed := removed + 1;
    }
    assert body[..end][..end - 2] == body[..end - 2];
    if end >= 4 {
      assert body[..end - 2][end - 4..] == body[end - 4..end - 2];
    }
    assert !EndsInCrlf(body[..end - 2]);
    assert body[..end] == body[..end - 2] + CRLF;
    canonical := body[..end];
    action := if removed > 0 then Collapsed else Preserved;
  }

  function Canonical(body: octets): octets {
    Stem(body) + CRLF
  }

  function Crlfs(n: nat): octets {
    if n == 0 then [] else Crlfs(n - 1) + CRLF
  }

  lemma {:induction false} StemAndCrlfs(body: octets)
    ensures body == Stem(body) + Crlfs(TerminalCrlfs(body))
  {
    if EndsInCrlf(body) {
      StemAndCrlfs(body[..|body| - 2]);
      assert body == body[..|body| - 2] + CRLF;
    }
  }

  lemma StemForgetsCrlf(text: octets)
    ensures Stem(text + CRLF) == Stem(text)
  {
    assert (text + CRLF)[..|text|] == text;
  }

  lemma CrlfsSnoc(text: octets, n: nat)
    ensures text + Crlfs(n + 1) == (text + Crlfs(n)) + CRLF
  {
    assert Crlfs(n + 1) == Crlfs(n) + CRLF;
  }

  lemma {:induction false} StemForgetsCrlfs(text: octets, n: nat)
    ensures Stem(text + Crlfs(n)) == Stem(text)
  {
    hide Stem;
    if n == 0 {
      assert text + Crlfs(0) == text;
    } else {
      StemForgetsCrlfs(text, n - 1);
      CrlfsSnoc(text, n - 1);
      StemForgetsCrlf(text + Crlfs(n - 1));
    }
  }

  /** Canonicalization is idempotent. */
  lemma CanonicalIdempotent(body: octets)
    ensures Canonical(Canonical(body)) == Canonical(body)
  {
    StemForgetsCrlf(Stem(body));
  }

  /** `a` and `b` are the same text followed by some number of CRLFs each. */
  ghost predicate DifferInTerminalCrlfs(a: octets, b: octets) {
    exists text: octets, m: nat, n: nat :: a == text + Crlfs(m) && b == text + Crlfs(n)
  }

  /** Two bodies have one canonical form exactly when they differ only in terminal CRLFs. */
  lemma CanonicalEquality(a: octets, b: octets)
    ensures Canonical(a) == Canonical(b) <==> DifferInTerminalCrlfs(a, b)
  {
    if Canonical(a) == Canonical(b) {
      assert Stem(a) == Canonical(a)[..|Canonical(a)| - 2];
      assert Stem(b) == Canonical(b)[..|Canonical(b)| - 2];
      StemAndCrlfs(a);
      StemAndCrlfs(b);
    }
    if DifferInTerminalCrlfs(a, b) {
      var text: octets, m: nat, n: nat :| a == text + Crlfs(m) && b == text + Crlfs(n);
      StemForgetsCrlfs(text, m);
      StemForgetsCrlfs(text, n);
    }
  }
}
