/** The Content-Type grammar of report parsing: a parser over an offset, the value it reads, and the printer that
    it undoes. */
module ContentType {
  import opened Octets

  /** What was read, and what is left. */
  datatype Taken = Taken(value: octets, rest: octets)

  datatype NamedValue = NamedValue(name: octets, value: octets, rest: octets)

  datatype MediaType = MediaType(name: octets, parameters: map<octets, octets>)

  predicate TokenChar(c: char) {
    ' ' < c < 127 as char
    && c !in ['(', ')', '<', '>', '@', ',', ';', ':', '\\', '"', '/', '[', ']', '?', '=']
  }

  predicate Printable(c: char) {
    ' ' <= c <= '~'
  }

  function TokenLength(s: octets): (n: nat)
    ensures n <= |s|
  {
    if s != [] && TokenChar(s[0]) then 1 + TokenLength(s[1..]) else 0
  }

  function Token(s: octets): Option<Taken> {
    var n := TokenLength(s);
    if n == 0 then None else Some(Taken(s[..n], s[n..]))
  }

  function Prepend(c: char, t: Option<Taken>): Option<Taken> {
    match t case None => None case Some(t) => Some(Taken([c] + t.value, t.rest))
  }

  /** The rest of a quoted string, up to its closing quote. */
  function Quoted(s: octets): (r: Option<Taken>)
    ensures r.Some? ==> |r.value.rest| < |s|
  {
    if s == [] then None
    else if s[0] == '"' then Some(Taken([], s[1..]))
    else if s[0] == '\\' then
      if |s| < 2 || !Printable(s[1]) then None else Prepend(s[1], Quoted(s[2..]))
    else if !Printable(s[0]) then None
    else Prepend(s[0], Quoted(s[1..]))
  }

  function Value(s: octets): Option<Taken> {
    if s == [] then None else if s[0] == '"' then Quoted(s[1..]) else Token(s)
  }

  function Expect(s: octets, c: char): Option<octets> {
    if s == [] || s[0] != c then None else Some(s[1..])
  }

  /** `name = value` with linear whitespace around the equals sign. */
  function Parameter(s: octets): (r: Option<NamedValue>)
    ensures r.Some? ==> |r.value.rest| < |s|
  {
    match Token(TrimLeft(s))
    case None => None
    case Some(name) =>
      match Expect(TrimLeft(name.rest), '=')
      case None => None
      case Some(after) =>
        match Value(TrimLeft(after))
        case None => None
        case Some(value) => Some(NamedValue(name.value, value.value, value.rest))
  }

  function Parameters(s: octets, known: map<octets, octets>): Option<map<octets, octets>>
    decreases |s|
  {
    var t := TrimLeft(s);
    if t == [] then Some(known)
    else if t[0] != ';' then None
    else
      match Parameter(t[1..])
      case None => None
      case Some(p) =>
        if Lower(p.name) in known then None else Parameters(p.rest, known[Lower(p.name) := p.value])
  }

  function Parse(s: octets): Option<MediaType> {
    match Token(TrimLeft(s))
    case None => None
    case Some(main) =>
      match Expect(main.rest, '/')
      case None => None
      case Some(after) =>
        match Token(after)
        case None => None
        case Some(sub) =>
          match Parameters(sub.rest, map[])
          case None => None
          case Some(parameters) => Some(MediaType(Lower(main.value) + "/" + Lower(sub.value), parameters))
  }

  // ---- The parser object

  class Parser {
    const input: octets
    var offset: nat

    constructor (input: octets)
      ensures this.input == input && offset == 0 && Valid() && Rest() == input
    {
      this.input := input;
      offset := 0;
    }

    predicate Valid()
      reads this
    {
      offset <= |input|
    }

    function Rest(): octets
      reads this
      requires Valid()
    {
      input[offset..]
    }

    method SkipWhitespace()
      requires Valid()
      modifies this
      ensures Valid() && Rest() == TrimLeft(old(Rest()))
    {
      while offset < |input| && IsWsp(input[offset])
        invariant Valid() && TrimLeft(Rest()) == TrimLeft(old(Rest()))
      {
        assert input[offset..][1..] == input[offset + 1..];
        offset := offset + 1;
      }
    }

    method Consume(want: char) returns (ok: bool)
      requires Valid()
      modifies this
      ensures Valid() && (ok <==> Expect(old(Rest()), want).Some?)
      ensures Rest() == if ok then Expect(old(Rest()), want).value else old(Rest())
    {
      if offset >= |input| || input[offset] != want {
        return false;
      }
      assert input[offset..][1..] == input[offset + 1..];
      offset := offset + 1;
      return true;
    }

    method ReadToken() returns (r: Option<octets>)
      requires Valid()
      modifies this
      ensures Valid()
      ensures match Token(old(Rest())) case None => r.None? case Some(t) => r == Some(t.value) && Rest() == t.rest
    {
      hide TokenLength, TokenChar;
      var start := offset;
      while offset < |input| && TokenChar(input[offset])
        invariant start <= offset <= |input|
        invariant TokenLength(input[start..]) == offset - start + TokenLength(input[offset..])
      {
        TokenLengthAt(input, offset);
        offset := offset + 1;
      }
      TokenLengthAt(input, offset);
      TokenSlices(input, start, offset);
      return if offset > start then Some(input[start..offset]) else None;
    }

    method ReadValue() returns (r: Option<octets>)
      requires Valid()
      modifies this
      ensures Valid()
      ensures match Value(old(Rest())) case None => r.None? case Some(t) => r == Some(t.value) && Rest() == t.rest
    {
      if offset >= |input| {
        return None;
      }
      if input[offset] != '"' {
        r := ReadToken();
        return;
      }
      assert input[offset..][1..] == input[offset + 1..];
      offset := offset + 1;
      r := ReadQuoted();
    }

    /** The rest of a quoted string, with quoted pairs resolved. */
    method ReadQuoted() returns (r: Option<octets>)
      requires Valid()
      modifies this
      ensures Valid()
      ensures match Quoted(old(Rest())) case None => r.None? case Some(t) => r == Some(t.value) && Rest() == t.rest
    {
      ghost var rest := Rest();
      var output := [];
      PrefixedEmpty(Quoted(rest));
      hide Quoted;
      while offset < |input|
        invariant Valid()
        invariant Quoted(rest) == Prefixed(output, Quoted(Rest()))
      {
        var current := input[offset];
        QuotedStep(output, Rest());
        TailShift(input, offset);
        offset := offset + 1;
        if current == '"' {
          return Some(output);
        }
        if current == '\\' {
          if offset >= |input| || !Printable(input[offset]) {
            return None;
          }
          output := output + [input[offset]];
          offset := offset + 1;
        } else {
          if !Printable(current) {
            return None;
          }
          output := output + [current];
        }
      }
      QuotedOpen();
      return None;
    }
  }

  lemma QuotedOpen()
    ensures Quoted([]) == None
  {
  }

  lemma TokenLengthAt(s: octets, i: nat)
    requires i <= |s|
    ensures TokenLength(s[i..]) == if i < |s| && TokenChar(s[i]) then 1 + TokenLength(s[i + 1..]) else 0
  {
    hide TokenChar;
    if i < |s| {
      assert s[i..][1..] == s[i + 1..];
    }
  }

  lemma TokenSlices(s: octets, i: nat, j: nat)
    requires i <= j <= |s|
    ensures s[i..j] == s[i..][..j - i] && s[j..] == s[i..][j - i..]
  {
  }

  lemma TailShift(s: octets, i: nat)
    requires i < |s|
    ensures s[i..][1..] == s[i + 1..]
    ensures i + 1 < |s| ==> s[i..][2..] == s[i + 2..]
  {
  }

  function Prefixed(output: octets, t: Option<Taken>): Option<Taken> {
    match t case None => None case Some(t) => Some(Taken(output + t.value, t.rest))
  }

  lemma PrefixedEmpty(t: Option<Taken>)
    ensures Prefixed([], t) == t
  {
    if t.Some? {
      assert [] + t.value.value == t.value.value;
    }
  }

  lemma PrefixedPrepend(output: octets, c: char, t: Option<Taken>)
    ensures Prefixed(output, Prepend(c, t)) == Prefixed(output + [c], t)
  {
    if t.Some? {
      assert output + ([c] + t.value.value) == output + [c] + t.value.value;
    }
  }

  /** One unit of a quoted string moves to the output. */
  lemma QuotedStep(output: octets, s: octets)
    requires s != []
    ensures Prefixed(output, Quoted(s)) ==
      if s[0] == '"' then Some(Taken(output, s[1..]))
      else if s[0] == '\\' then
        if |s| < 2 || !Printable(s[1]) then None else Prefixed(output + [s[1]], Quoted(s[2..]))
      else if !Printable(s[0]) then None
      else Prefixed(output + [s[0]], Quoted(s[1..]))
  {
    if s[0] == '"' {
      assert output + [] == output;
    } else if s[0] == '\\' {
      if |s| >= 2 {
        PrefixedPrepend(output, s[1], Quoted(s[2..]));
      }
    } else {
      PrefixedPrepend(output, s[0], Quoted(s[1..]));
    }
  }

  method ParseContentType(value: octets) returns (r: Option<MediaType>)
    ensures r == Parse(value)
  {
    var parser := new Parser(value);
    parser.SkipWhitespace();
    var main := parser.ReadToken();
    if main.None? {
      return None;
    }
    var slash := parser.Consume('/');
    if !slash {
      return None;
    }
    var sub := parser.ReadToken();
    if sub.None? {
      return None;
    }
    var parameters := ParseParameters(parser);
    if parameters.None? {
      return None;
    }
    return Some(MediaType(Lower(main.value) + "/" + Lower(sub.value), parameters.value));
  }

  method ParseParameters(parser: Parser) returns (r: Option<map<octets, octets>>)
    requires parser.Valid()
    modifies parser
    ensures r == Parameters(old(parser.Rest()), map[])
  {
    var parameters: map<octets, octets> := map[];
    while true
      invariant parser.Valid()
      invariant Parameters(old(parser.Rest()), map[]) == Parameters(parser.Rest(), parameters)
      decreases |parser.Rest()|
    {
      ghost var rest := parser.Rest();
      parser.SkipWhitespace();
      if parser.offset == |parser.input| {
        return Some(parameters);
      }
      var semicolon := parser.Consume(';');
      if !semicolon {
        return None;
      }
      var p := ReadParameter(parser);
      if p.None? {
        return None;
      }
      var name := Lower(p.value.0);
      if name in parameters {
        return None;
      }
      parameters := parameters[name := p.value.1];
    }
  }

  method ReadParameter(parser: Parser) returns (r: Option<(octets, octets)>)
    requires parser.Valid()
    modifies parser
    ensures parser.Valid()
    ensures match Parameter(old(parser.Rest()))
      case None => r.None?
      case Some(p) => r == Some((p.name, p.value)) && parser.Rest() == p.rest
  {
    parser.SkipWhitespace();
    var name := parser.ReadToken();
    if name.None? {
      return None;
    }
    parser.SkipWhitespace();
    var equals := parser.Consume('=');
    if !equals {
      return None;
    }
    parser.SkipWhitespace();
    var value := parser.ReadValue();
    if value.None? {
      return None;
    }
    return Some((name.value, value.value));
  }

  // ---- Printing

  /** One parameter as it is printed: a token, or a quoted string with its quotes and backslashes escaped. */
  datatype Param = Plain(name: octets, value: octets) | InQuotes(name: octets, value: octets)

  predicate IsToken(s: octets) {
    s != [] && forall i | 0 <= i < |s| :: TokenChar(s[i])
  }

  predicate Writable(p: Param) {
    IsToken(p.name) && match p
      case Plain(_, value) => IsToken(value)
      case InQuotes(_, value) => forall i | 0 <= i < |value| :: Printable(value[i])
  }

  function Escaped(value: octets): octets {
    if value == [] then []
    else (if value[0] == '"' || value[0] == '\\' then ['\\', value[0]] else [value[0]]) + Escaped(value[1..])
  }

  function Shown(p: Param): octets {
    p.name + "=" + match p case Plain(_, value) => value case InQuotes(_, value) => ['"'] + Escaped(value) + ['"']
  }

  function ShownAll(params: seq<Param>): octets {
    if params == [] then [] else "; " + Shown(params[0]) + ShownAll(params[1..])
  }

  /** The parameters by lowercase name; none when two share a name. */
  function Table(params: seq<Param>, known: map<octets, octets>): Option<map<octets, octets>> {
    if params == [] then Some(known)
    else if Lower(params[0].name) in known then None
    else Table(params[1..], known[Lower(params[0].name) := params[0].value])
  }

  predicate EndsToken(rest: octets) {
    rest != [] ==> !TokenChar(rest[0])
  }

  lemma {:induction false} TokenRead(s: octets, rest: octets)
    requires forall i | 0 <= i < |s| :: TokenChar(s[i])
    requires EndsToken(rest)
    ensures TokenLength(s + rest) == |s|
  {
    if s == [] {
      assert s + rest == rest;
    } else {
      assert (s + rest)[1..] == s[1..] + rest;
      TokenRead(s[1..], rest);
    }
  }

  lemma TokenTaken(s: octets, rest: octets)
    requires IsToken(s) && EndsToken(rest)
    ensures Token(s + rest) == Some(Taken(s, rest))
    ensures TrimLeft(s + rest) == s + rest
  {
    TokenRead(s, rest);
    assert TokenChar(s[0]) && !IsWsp(s[0]);
    assert (s + rest)[..|s|] == s && (s + rest)[|s|..] == rest;
  }

  lemma {:induction false} QuotedRead(value: octets, rest: octets)
    requires forall i | 0 <= i < |value| :: Printable(value[i])
    ensures Quoted(Escaped(value) + ['"'] + rest) == Some(Taken(value, rest))
  {
    var s := Escaped(value) + ['"'] + rest;
    if value == [] {
      assert s == ['"'] + rest && s[1..] == rest;
    } else {
      QuotedRead(value[1..], rest);
      var unit := if value[0] == '"' || value[0] == '\\' then 2 else 1;
      assert s[unit..] == Escaped(value[1..]) + ['"'] + rest;
      assert [value[0]] + value[1..] == value;
    }
  }

  lemma ValueRead(p: Param, rest: octets)
    requires Writable(p) && EndsToken(rest)
    ensures var shown := match p case Plain(_, value) => value case InQuotes(_, value) => ['"'] + Escaped(value) + ['"'];
      Value(TrimLeft(shown + rest)) == Some(Taken(p.value, rest))
  {
    match p
    case Plain(_, value) =>
      TokenTaken(value, rest);
      assert TokenChar(value[0]);
    case InQuotes(_, value) =>
      var s := ['"'] + Escaped(value) + ['"'] + rest;
      QuotedRead(value, rest);
      assert s[1..] == Escaped(value) + ['"'] + rest;
  }

  lemma ParameterRead(p: Param, rest: octets)
    requires Writable(p) && EndsToken(rest)
    ensures Parameter([' '] + Shown(p) + rest) == Some(NamedValue(p.name, p.value, rest))
  {
    hide Value, Token, Escaped;
    var shown := match p case Plain(_, value) => value case InQuotes(_, value) => ['"'] + Escaped(value) + ['"'];
    var after := ['='] + (shown + rest);
    assert [' '] + Shown(p) + rest == [' '] + (p.name + after);
    assert ([' '] + (p.name + after))[1..] == p.name + after;
    TokenTaken(p.name, after);
    assert TrimLeft(after) == after && after[1..] == shown + rest;
    ValueRead(p, rest);
  }

  lemma {:induction false} ParametersRead(params: seq<Param>, known: map<octets, octets>)
    requires forall i | 0 <= i < |params| :: Writable(params[i])
    ensures Parameters(ShownAll(params), known) == Table(params, known)
    decreases |params|
  {
    hide Writable, Shown, Parameter;
    if params != [] {
      var p, rest := params[0], ShownAll(params[1..]);
      var s := ShownAll(params);
      assert s == [';'] + ([' '] + Shown(p) + rest);
      assert TrimLeft(s) == s && s[1..] == [' '] + Shown(p) + rest;
      EndsAll(params[1..]);
      ParameterRead(p, rest);
      if Lower(p.name) !in known {
        ParametersRead(params[1..], known[Lower(p.name) := p.value]);
      }
    }
  }

  lemma EndsAll(params: seq<Param>)
    ensures EndsToken(ShownAll(params))
  {
    if params != [] {
      assert ShownAll(params)[0] == ';';
    }
  }

  lemma SlashEnds(tail: octets)
    ensures EndsToken(['/'] + tail)
  {
  }

  /** Parsing undoes printing: the lowercase media type and every parameter value come back, unless two
      parameters share a name. */
  lemma ParseOfShown(main: octets, sub: octets, params: seq<Param>)
    requires IsToken(main) && IsToken(sub) && forall i | 0 <= i < |params| :: Writable(params[i])
    ensures Parse(main + "/" + sub + ShownAll(params)) ==
      match Table(params, map[])
      case None => None
      case Some(table) => Some(MediaType(Lower(main) + "/" + Lower(sub), table))
  {
    hide Writable, Token, Parameters, Table, TrimLeft, IsToken, ShownAll, Lower, EndsToken, Parse;
    var tail := sub + ShownAll(params);
    var s := main + (['/'] + tail);
    assert main + "/" + sub + ShownAll(params) == s;
    SlashEnds(tail);
    TokenTaken(main, ['/'] + tail);
    EndsAll(params);
    TokenTaken(sub, ShownAll(params));
    ParametersRead(params, map[]);
    ParseParts(s, main, tail, sub, ShownAll(params));
  }

  lemma ParseParts(s: octets, main: octets, tail: octets, sub: octets, rest: octets)
    requires Token(TrimLeft(s)) == Some(Taken(main, ['/'] + tail)) && Token(tail) == Some(Taken(sub, rest))
    ensures Parse(s) ==
      match Parameters(rest, map[])
      case None => None
      case Some(table) => Some(MediaType(Lower(main) + "/" + Lower(sub), table))
  {
    hide Token, Parameters, TrimLeft, Lower;
    assert (['/'] + tail)[1..] == tail;
  }
}
