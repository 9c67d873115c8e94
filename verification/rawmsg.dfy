/** Header fields and header blocks as the raw-message package exposes them: the original octets of a
    field determine its lowercase name and its unfolded value, and a field's index is its position. */
module RawMessage {
  import opened Octets

  datatype Field = Field(rawName: octets, rawValue: octets) {
    function Name(): octets {
      Lower(rawName)
    }

    function Value(): octets {
      Unfold(rawValue)
    }

    /** The original octets, line ending included. */
    function Raw(): octets {
      rawName + [':'] + rawValue + CRLF
    }

    predicate Valid() {
      ValidName(rawName) && ValidValue(rawValue)
    }
  }

  type Block = seq<Field>

  predicate NameChar(c: char) {
    33 as char <= c <= 126 as char && c != ':'
  }

  predicate ValidName(name: octets) {
    name != [] && forall i | 0 <= i < |name| :: NameChar(name[i])
  }

  /** Every CR starts a fold CRLF WSP, and there is no other LF. */
  predicate ValidValue(value: octets) {
    if value == [] then true
    else if value[0] == '\r' then
      |value| >= 3 && value[1] == '\n' && IsWsp(value[2]) && ValidValue(value[2..])
    else value[0] != '\n' && ValidValue(value[1..])
  }

  /** Removes the CRLF of every fold and keeps the WSP after it. */
  function Unfold(value: octets): octets {
    if value == [] then []
    else if |value| >= 3 && value[0] == '\r' && value[1] == '\n' && IsWsp(value[2]) then Unfold(value[2..])
    else [value[0]] + Unfold(value[1..])
  }

  /** The unfolding loop. */
  method UnfoldHeaderValue(value: octets) returns (unfolded: octets)
    ensures unfolded == Unfold(value)
  {
    unfolded := [];
    var i := 0;
    while i < |value|
      invariant 0 <= i <= |value|
      invariant Unfold(value) == unfolded + Unfold(value[i..])
    {
      assert value[i..][1..] == value[i + 1..];
      if i + 2 < |value| && value[i] == '\r' && value[i + 1] == '\n' && IsWsp(value[i + 2]) {
        assert value[i..][2..] == value[i + 2..];
        i := i + 2;
      } else {
        unfolded := unfolded + [value[i]];
        i := i + 1;
      }
    }
  }

  predicate NoLineEnd(s: octets) {
    '\r' !in s && '\n' !in s
  }

  lemma {:induction false} UnfoldedHasNoLineEnd(value: octets)
    requires ValidValue(value)
    ensures NoLineEnd(Unfold(value))
  {
    if value != [] {
      if value[0] == '\r' {
        UnfoldedHasNoLineEnd(value[2..]);
      } else {
        UnfoldedHasNoLineEnd(value[1..]);
      }
    }
  }

  lemma {:induction false} UnfoldPlain(value: octets)
    requires NoLineEnd(value)
    ensures ValidValue(value) && Unfold(value) == value
  {
    if value != [] {
      assert value[0] in value && forall c | c in value[1..] :: c in value;
      UnfoldPlain(value[1..]);
      assert value == [value[0]] + value[1..];
    }
  }

  lemma UnfoldOne(c: char, rest: octets)
    requires c != '\r'
    ensures Unfold([c] + rest) == [c] + Unfold(rest)
  {
    assert ([c] + rest)[1..] == rest;
  }

  lemma UnfoldFold(rest: octets)
    requires rest != [] && IsWsp(rest[0])
    ensures Unfold(CRLF + rest) == Unfold(rest)
  {
    assert (CRLF + rest)[2..] == rest;
  }

  /** A fold is removed with nothing else: the line in front of it stays, and so does the white space behind it. */
  lemma {:induction false} FoldRemoved(line: octets, rest: octets)
    requires NoLineEnd(line) && rest != [] && IsWsp(rest[0])
    ensures Unfold(line + (CRLF + rest)) == line + Unfold(rest)
  {
    hide Unfold, CRLF;
    if line == [] {
      assert line + (CRLF + rest) == CRLF + rest && line + Unfold(rest) == Unfold(rest);
      UnfoldFold(rest);
    } else {
      assert line[0] in line && forall c | c in line[1..] :: c in line;
      FoldRemoved(line[1..], rest);
      assert line + (CRLF + rest) == [line[0]] + (line[1..] + (CRLF + rest));
      UnfoldOne(line[0], line[1..] + (CRLF + rest));
      assert line + Unfold(rest) == [line[0]] + (line[1..] + Unfold(rest));
    }
  }

  lemma NameHasNoMark(name: octets, mark: char)
    requires ValidName(name) && !NameChar(mark)
    ensures mark !in name && mark !in Lower(name)
  {
    forall i | 0 <= i < |name| ensures name[i] != mark && Lower(name)[i] != mark {
      assert NameChar(name[i]);
    }
  }

  /** The original octets determine the field. */
  lemma RawInjective(f: Field, g: Field)
    requires f.Valid() && g.Valid() && f.Raw() == g.Raw()
    ensures f == g
  {
    NameHasNoMark(f.rawName, ':');
    NameHasNoMark(g.rawName, ':');
    assert f.Raw() == f.rawName + [':'] + (f.rawValue + CRLF);
    assert g.Raw() == g.rawName + [':'] + (g.rawValue + CRLF);
    CutAtFirst(f.rawName, f.rawValue + CRLF, g.rawName, g.rawValue + CRLF, ':');
    assert f.rawValue == (f.rawValue + CRLF)[..|f.rawValue + CRLF| - 2];
    assert g.rawValue == (g.rawValue + CRLF)[..|g.rawValue + CRLF| - 2];
  }

  predicate ValidBlock(b: Block) {
    forall i | 0 <= i < |b| :: b[i].Valid()
  }

  /** The fields of one lowercase name in block order. */
  function Named(b: Block, name: octets): (r: Block)
    ensures |r| <= |b|
    ensures forall f | f in r :: f in b && f.Name() == name
    ensures forall f | f in b && f.Name() == name :: f in r
  {
    if b == [] then []
    else (if b[0].Name() == name then [b[0]] else []) + Named(b[1..], name)
  }

  lemma {:induction false} NamedConcat(a: Block, b: Block, name: octets)
    ensures Named(a + b, name) == Named(a, name) + Named(b, name)
  {
    if a == [] {
      assert a + b == b;
    } else {
      assert (a + b)[1..] == a[1..] + b;
      NamedConcat(a[1..], b, name);
    }
  }

  lemma NamedSnoc(a: Block, f: Field, name: octets)
    ensures Named(a + [f], name) == Named(a, name) + if f.Name() == name then [f] else []
  {
    NamedConcat(a, [f], name);
    assert [f][1..] == [];
    assert Named([], name) == [];
  }

  lemma {:induction false} NamedMultiplicity(b: Block, f: Field)
    ensures multiset(b)[f] == multiset(Named(b, f.Name()))[f]
  {
    if b != [] {
      NamedMultiplicity(b[1..], f);
      assert b == [b[0]] + b[1..];
    }
  }

  /** Blocks that agree name by name hold the same fields equally often. */
  lemma SameGroupsPermutation(a: Block, b: Block)
    requires forall name :: Named(a, name) == Named(b, name)
    ensures multiset(a) == multiset(b)
  {
    forall f: Field ensures multiset(a)[f] == multiset(b)[f] {
      NamedMultiplicity(a, f);
      NamedMultiplicity(b, f);
      assert Named(a, f.Name()) == Named(b, f.Name());
    }
  }
}
