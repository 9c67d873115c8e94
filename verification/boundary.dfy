/** The deterministic MIME boundary of a propagated report, and the three-part body framed by it. */
module Boundary {
  import opened Octets
  import opened RawMessage
  import opened Multipart
  import ReportParser

  predicate HexChar(c: char) {
    '0' <= c <= '9' || 'a' <= c <= 'f'
  }

  /** A SHA-256 digest in lowercase hexadecimal. */
  type HexDigest = s: octets | |s| == 64 && forall i | 0 <= i < |s| :: HexChar(s[i]) witness seq(64, _ => '0')

  const PREFIX: octets := "=_dkim2-dsn-"
  const HASH_CHARS := 24
  const ATTEMPTS := 8

  /** The hashed text of one attempt: every part ended by a NUL, then the attempt number. */
  function Preimage(parts: seq<octets>, attempt: nat): octets
    requires attempt < ATTEMPTS
  {
    Fed(parts) + [Digit(attempt)]
  }

  function Fed(parts: seq<octets>): octets {
    if parts == [] then [] else Fed(parts[..|parts| - 1]) + parts[|parts| - 1] + ['\0']
  }

  function BoundaryAt(hash: octets -> HexDigest, parts: seq<octets>, attempt: nat): octets
    requires attempt < ATTEMPTS
  {
    PREFIX + hash(Preimage(parts, attempt))[..HASH_CHARS]
  }

  predicate Collides(parts: seq<octets>, boundary: octets) {
    exists i :: 0 <= i < |parts| && Contains(parts[i], Dashed(boundary))
  }

  /** The first derived boundary that no part contains as a delimiter candidate. */
  ghost predicate Derived(hash: octets -> HexDigest, parts: seq<octets>, boundary: octets) {
    exists attempt: nat :: attempt < ATTEMPTS && FirstFree(hash, parts, attempt) && boundary == BoundaryAt(hash, parts, attempt)
  }

  predicate AllCollide(hash: octets -> HexDigest, parts: seq<octets>) {
    forall attempt: nat | attempt < ATTEMPTS :: Collides(parts, BoundaryAt(hash, parts, attempt))
  }

  ghost predicate FirstFree(hash: octets -> HexDigest, parts: seq<octets>, attempt: nat)
    requires attempt < ATTEMPTS
  {
    && !Collides(parts, BoundaryAt(hash, parts, attempt))
    && forall earlier: nat | earlier < attempt :: Collides(parts, BoundaryAt(hash, parts, earlier))
  }

  method HashText(parts: seq<octets>, attempt: nat) returns (text: octets)
    requires attempt < ATTEMPTS
    ensures text == Preimage(parts, attempt)
  {
    text := [];
    var i := 0;
    assert parts[..|parts|] == parts;
    while i < |parts|
      invariant 0 <= i <= |parts|
      invariant text == Fed(parts[..i])
    {
      assert parts[..i + 1][..i] == parts[..i];
      text := text + parts[i] + ['\0'];
      i := i + 1;
    }
    text := text + [Digit(attempt)];
  }

  method AnyContains(parts: seq<octets>, boundary: octets) returns (collision: bool)
    ensures collision <==> Collides(parts, boundary)
  {
    collision := false;
    var i := 0;
    while i < |parts|
      invariant 0 <= i <= |parts|
      invariant forall j | 0 <= j < i :: !Contains(parts[j], Dashed(boundary))
    {
      if Contains(parts[i], Dashed(boundary)) {
        return true;
      }
      i := i + 1;
    }
  }

  method DeriveBoundary(hash: octets -> HexDigest, parts: seq<octets>) returns (r: Option<octets>)
    ensures r.Some? ==> Derived(hash, parts, r.value)
    ensures r.None? ==> AllCollide(hash, parts)
  {
    hide Collides, Preimage;
    var attempt := 0;
    while attempt < ATTEMPTS
      invariant 0 <= attempt <= ATTEMPTS
      invariant forall earlier: nat | earlier < attempt :: Collides(parts, BoundaryAt(hash, parts, earlier))
    {
      var text := HashText(parts, attempt);
      var boundary := PREFIX + hash(text)[..HASH_CHARS];
      var collision := AnyContains(parts, boundary);
      if !collision {
        assert FirstFree(hash, parts, attempt);
        return Some(boundary);
      }
      attempt := attempt + 1;
    }
    return None;
  }

  lemma DerivedUnique(hash: octets -> HexDigest, parts: seq<octets>, a: octets, b: octets)
    requires Derived(hash, parts, a) && Derived(hash, parts, b)
    ensures a == b
  {
    hide Collides, BoundaryAt;
    var i: nat :| i < ATTEMPTS && FirstFree(hash, parts, i) && a == BoundaryAt(hash, parts, i);
    var j: nat :| j < ATTEMPTS && FirstFree(hash, parts, j) && b == BoundaryAt(hash, parts, j);
    assert i <= j && j <= i;
  }

  lemma PrefixChars()
    ensures forall i | 0 <= i < |PREFIX| :: ReportParser.BoundaryChar(PREFIX[i])
  {
  }

  /** A derived boundary is always a boundary of section 5.1.1 of RFC 2046, whatever the hash. */
  lemma DerivedValid(hash: octets -> HexDigest, parts: seq<octets>, boundary: octets)
    requires Derived(hash, parts, boundary)
    ensures |boundary| == |PREFIX| + HASH_CHARS
    ensures ReportParser.ValidBoundary(boundary, ReportParser.HARD_MAX_BOUNDARY) && NoLineEnd(boundary)
    ensures !Collides(parts, boundary)
  {
    hide Collides, Preimage;
    var attempt: nat :| attempt < ATTEMPTS && FirstFree(hash, parts, attempt) && boundary == BoundaryAt(hash, parts, attempt);
    var digest := hash(Preimage(parts, attempt));
    assert HexChar(digest[HASH_CHARS - 1]);
    PrefixChars();
    forall i | 0 <= i < |boundary| ensures ReportParser.BoundaryChar(boundary[i]) {
      if i < |PREFIX| {
        assert boundary[i] == PREFIX[i];
      } else {
        assert boundary[i] == digest[i - |PREFIX|] && HexChar(digest[i - |PREFIX|]);
      }
    }
    ReportParser.BoundaryHasNoLineEnd(boundary, ReportParser.HARD_MAX_BOUNDARY);
  }

  // ---- Framing

  /** The body of a report: every part behind its boundary line, then the closing line. */
  function Framed(parts: seq<octets>, boundary: octets): octets {
    if parts == [] then Dashed(boundary) + "--" + CRLF
    else Dashed(boundary) + CRLF + parts[0] + CRLF + Framed(parts[1..], boundary)
  }

  method WriteParts(parts: seq<octets>, boundary: octets) returns (text: octets)
    ensures text == Framed(parts, boundary)
  {
    text := [];
    var i := 0;
    assert parts[0..] == parts;
    while i < |parts|
      invariant 0 <= i <= |parts|
      invariant text + Framed(parts[i..], boundary) == Framed(parts, boundary)
    {
      FramedStep(text, parts, i, boundary);
      text := text + (Dashed(boundary) + CRLF + parts[i] + CRLF);
      i := i + 1;
    }
    text := text + (Dashed(boundary) + "--" + CRLF);
  }

  lemma FramedStep(text: octets, parts: seq<octets>, i: nat, boundary: octets)
    requires i < |parts|
    ensures text + Framed(parts[i..], boundary)
         == text + (Dashed(boundary) + CRLF + parts[i] + CRLF) + Framed(parts[i + 1..], boundary)
  {
    hide Dashed;
    assert parts[i..][1..] == parts[i + 1..] && parts[i..][0] == parts[i];
  }

  function NoPadding(n: nat): seq<octets> {
    seq(n, _ => [])
  }

  function AsMulti(parts: seq<octets>): Multi {
    Multi(None, [], parts, NoPadding(|parts|), [])
  }

  lemma PlainLine(boundary: octets, closing: bool)
    ensures Line(boundary, closing, []) == Dashed(boundary) + (if closing then "--" else "") + CRLF
    ensures Line(boundary, false, []) == Dashed(boundary) + CRLF
  {
  }

  lemma {:induction false} FramedTail(parts: seq<octets>, boundary: octets)
    requires parts != []
    ensures Framed(parts, boundary) == Dashed(boundary) + CRLF + Tail(parts, NoPadding(|parts|), [], boundary)
  {
    hide Dashed, Line, Tail, Framed;
    var paddings, rest := NoPadding(|parts|), parts[1..];
    assert paddings[1..] == NoPadding(|rest|);
    PlainLine(boundary, |parts| == 1);
    var line, after := TailCut(parts, paddings, [], boundary);
    FramedCut(parts, boundary);
    if |parts| == 1 {
      FramedEnd(boundary);
      assert parts[1..] == [];
      assert line + after == line;
    } else {
      FramedTail(rest, boundary);
    }
    Reassociated(Dashed(boundary) + CRLF, parts[0] + CRLF, line + after);
  }

  lemma Reassociated(a: octets, b: octets, c: octets)
    ensures a + (b + c) == a + b + c
  {
  }

  lemma FramedCut(parts: seq<octets>, boundary: octets)
    requires parts != []
    ensures Framed(parts, boundary) == (Dashed(boundary) + CRLF) + (parts[0] + CRLF) + Framed(parts[1..], boundary)
  {
    hide Dashed;
  }

  lemma FramedEnd(boundary: octets)
    ensures Framed([], boundary) == Dashed(boundary) + "--" + CRLF
  {
  }

  lemma FramedWritten(parts: seq<octets>, boundary: octets)
    requires parts != []
    ensures Framed(parts, boundary) == Written(AsMulti(parts), boundary)
  {
    hide Dashed, Line, Tail, Framed;
    FramedTail(parts, boundary);
    PlainLine(boundary, false);
    var tail := Tail(parts, NoPadding(|parts|), [], boundary);
    assert [] + (Line(boundary, false, []) + tail) == Line(boundary, false, []) + tail;
  }

  /** An anchored boundary line inside a part would be an occurrence of the dashed boundary in the part: none
      straddles the part's edge, because a boundary holds no CR. */
  lemma FreeIsClean(part: octets, boundary: octets)
    requires '\r' !in boundary && !Contains(part, Dashed(boundary))
    ensures Clean(part, boundary)
  {
    forall i | 0 <= i < |part| ensures !AnchoredAt(part + CRLF, i, boundary) {
      if AnchoredAt(part + CRLF, i, boundary) {
        AnchorInside(part, i, boundary);
      }
    }
  }

  lemma AnchorInside(part: octets, i: nat, boundary: octets)
    requires '\r' !in boundary && i < |part| && AnchoredAt(part + CRLF, i, boundary)
    ensures Contains(part, Dashed(boundary))
  {
    var text, needle := part + CRLF, Dashed(boundary);
    assert text[i..i + 2][1] == text[i + 1] == '\n' && text[|part|] == '\r';
    OccursBefore(part, [], i + 2, needle);
    assert text[i + 2..i + 2 + |needle|] == part[i + 2..i + 2 + |needle|];
    assert OccursAt(part, i + 2, needle);
  }

  /** Print and parse: whenever one to three parts are free of the dashed boundary, the splitter returns exactly
      those parts from the framed body. */
  lemma FramedSplits(parts: seq<octets>, boundary: octets)
    requires NoLineEnd(boundary) && 1 <= |parts| <= MAX_PARTS && !Collides(parts, boundary)
    ensures Split(Framed(parts, boundary), boundary) == Ok(parts)
  {
    hide Clean, Framed, Written, Dashed;
    FramedWritten(parts, boundary);
    forall i | 0 <= i < |parts| ensures Clean(parts[i], boundary) {
      FreeIsClean(parts[i], boundary);
    }
    SplitRead(AsMulti(parts), boundary);
  }
}
