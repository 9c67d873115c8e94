/** The strict raw-message parser: CRLF discipline, header/body split, header fields and body lines. */
module MessageParser {
  import opened Octets
  import opened RawMessage
  import opened Sorting

  datatype Limits = Limits(
    maxMessageBytes: nat,
    maxHeaderBytes: nat,
    maxHeaderFields: nat,
    maxHeaderFieldBytes: nat,
    maxHeaderLineBytes: nat,
    maxBodyLineBytes: nat,
    maxBodyLines: nat)

  const MAX_MESSAGE_BYTES: nat := 134217728

  const DEFAULTS := Limits(MAX_MESSAGE_BYTES, 1048576, 2000, 65536, 998, 998, 2097152)

  datatype Message = Message(headers: Block, body: octets)

  /** Every CR is followed by LF and every LF preceded by CR. */
  predicate StrictCrlf(data: octets) {
    if data == [] then true
    else if data[0] == '\r' then |data| >= 2 && data[1] == '\n' && StrictCrlf(data[2..])
    else data[0] != '\n' && StrictCrlf(data[1..])
  }

  /** The length of the field that starts a header text: up to the first CRLF that no WSP follows. */
  function FieldLength(s: octets): (r: Option<nat>)
    ensures r.Some? ==> 2 <= r.value <= |s|
  {
    if |s| < 2 then None
    else if s[0] == '\r' && s[1] == '\n' then
      if |s| == 2 || !IsWsp(s[2]) then Some(2)
      else match FieldLength(s[2..]) case None => None case Some(n) => Some(n + 2)
    else match FieldLength(s[1..]) case None => None case Some(n) => Some(n + 1)
  }

  /** No physical line, line ending excluded, is longer than `max`; `used` octets of the first are read. */
  predicate LinesWithin(s: octets, max: nat, used: nat) {
    if s == [] then used <= max
    else if |s| >= 2 && s[0] == '\r' && s[1] == '\n' then used <= max && LinesWithin(s[2..], max, 0)
    else LinesWithin(s[1..], max, used + 1)
  }

  function ParseField(original: octets, limits: Limits): (r: Option<Field>)
    ensures r.Some? ==> r.value.Valid() && r.value.Raw() == original
  {
    match IndexByte(original, ':')
    case None => None
    case Some(colon) =>
      if |original| < colon + 3 || original[|original| - 2..] != CRLF then None
      else
        var f := Field(original[..colon], original[colon + 1..|original| - 2]);
        if f.Valid() && |original| <= limits.maxHeaderFieldBytes && LinesWithin(original, limits.maxHeaderLineBytes, 0) then
          assert original == original[..colon] + [original[colon]] + original[colon + 1..|original| - 2]
                             + original[|original| - 2..];
          Some(f)
        else None
  }

  function ParseFields(h: octets, limits: Limits): (r: Option<Block>)
    ensures r.Some? ==> ValidBlock(r.value) && RawBlock(r.value) == h
    decreases |h|
  {
    if h == [] then Some([])
    else
      match FieldLength(h)
      case None => None
      case Some(n) =>
        match ParseField(h[..n], limits)
        case None => None
        case Some(f) =>
          match ParseFields(h[n..], limits)
          case None => None
          case Some(rest) =>
            assert h == h[..n] + h[n..];
            assert ([f] + rest)[1..] == rest;
            Some([f] + rest)
  }

  function RawBlock(b: Block): octets {
    if b == [] then [] else b[0].Raw() + RawBlock(b[1..])
  }

  function ParseHeaderBlock(h: octets, limits: Limits): (r: Option<Block>)
    ensures r.Some? ==> ValidBlock(r.value) && RawBlock(r.value) == h && r.value != []
  {
    if h == [] then None
    else
      match ParseFields(h, limits)
      case None => None
      case Some(b) => if |b| <= limits.maxHeaderFields then Some(b) else None
  }

  /** The number of body lines; an unterminated rest is a line. */
  function LineCount(body: octets, open: bool): nat {
    if body == [] then if open then 1 else 0
    else if |body| >= 2 && body[0] == '\r' && body[1] == '\n' then 1 + LineCount(body[2..], false)
    else LineCount(body[1..], true)
  }

  predicate BodyWithin(body: octets, limits: Limits) {
    LineCount(body, false) <= limits.maxBodyLines && LinesWithin(body, limits.maxBodyLineBytes, 0)
  }

  const HEADER_END: octets := "\r\n\r\n"

  function Parse(data: octets, limits: Limits): (r: Option<Message>)
    ensures r.Some? ==> ValidBlock(r.value.headers)
    ensures r.Some? ==>
      var raw := RawBlock(r.value.headers);
      data == raw + CRLF + r.value.body || (data == raw && r.value.body == [])
  {
    if |data| > limits.maxMessageBytes || !StrictCrlf(data) then None
    else
      match Find(data, 0, HEADER_END)
      case Some(end) =>
        assert data == data[..end + 2] + data[end + 2..end + 4] + data[end + 4..];
        assert data[end + 2..end + 4] == data[end..end + 4][2..4];
        ParseSplit(data[..end + 2], data[end + 4..], limits)
      case None =>
        if |data| >= 2 && data[|data| - 2..] == CRLF then ParseSplit(data, [], limits) else None
  }

  function ParseSplit(header: octets, body: octets, limits: Limits): (r: Option<Message>)
    ensures r.Some? ==> ValidBlock(r.value.headers) && RawBlock(r.value.headers) == header && r.value.body == body
  {
    if |header| > limits.maxHeaderBytes then None
    else
      match ParseHeaderBlock(header, limits)
      case None => None
      case Some(b) => if BodyWithin(body, limits) then Some(Message(b, body)) else None
  }

  // ---- Reading back what was written

  lemma {:induction false} FieldLengthOfValue(value: octets, rest: octets)
    requires ValidValue(value)
    requires rest != [] ==> !IsWsp(rest[0])
    ensures FieldLength(value + CRLF + rest) == Some(|value| + 2)
  {
    var s := value + CRLF + rest;
    if value == [] {
      assert s == CRLF + rest;
      assert s[0] == '\r' && s[1] == '\n';
      assert |s| == 2 || s[2] == rest[0];
    } else if value[0] == '\r' {
      FieldLengthOfValue(value[2..], rest);
      assert s[2..] == value[2..] + CRLF + rest;
    } else {
      FieldLengthOfValue(value[1..], rest);
      assert s[1..] == value[1..] + CRLF + rest;
    }
  }

  lemma {:induction false} NamePrefixValid(name: octets, value: octets)
    requires forall i | 0 <= i < |name| :: name[i] != '\r' && name[i] != '\n'
    requires ValidValue(value)
    ensures ValidValue(name + value)
  {
    if name == [] {
      assert name + value == value;
    } else {
      NamePrefixValid(name[1..], value);
      assert (name + value)[1..] == name[1..] + value;
    }
  }

  lemma FieldAsValue(f: Field)
    requires f.Valid()
    ensures ValidValue(FieldText(f))
  {
    var name := f.rawName + [':'];
    forall i | 0 <= i < |name| ensures name[i] != '\r' && name[i] != '\n' {
      assert i == |f.rawName| || NameChar(name[i]);
    }
    NamePrefixValid(name, f.rawValue);
    assert name + f.rawValue == f.rawName + [':'] + f.rawValue;
  }

  predicate FieldWithin(f: Field, limits: Limits) {
    |f.Raw()| <= limits.maxHeaderFieldBytes && LinesWithin(f.Raw(), limits.maxHeaderLineBytes, 0)
  }

  predicate BlockWithin(b: Block, limits: Limits) {
    |b| <= limits.maxHeaderFields && forall i | 0 <= i < |b| :: FieldWithin(b[i], limits)
  }

  lemma ParseFieldOfRaw(f: Field, limits: Limits)
    requires f.Valid() && FieldWithin(f, limits)
    ensures ParseField(f.Raw(), limits) == Some(f)
  {
    NameHasNoMark(f.rawName, ':');
    assert f.Raw() == f.rawName + [':'] + (f.rawValue + CRLF);
    IndexByteAt(f.rawName, ':', f.rawValue + CRLF);
    assert f.Raw()[..|f.rawName|] == f.rawName;
    assert f.Raw()[|f.rawName| + 1..|f.Raw()| - 2] == f.rawValue;
  }

  lemma {:induction false} RawStartsField(b: Block)
    requires ValidBlock(b) && b != []
    ensures RawBlock(b) != [] && !IsWsp(RawBlock(b)[0])
  {
    assert RawBlock(b)[0] == b[0].rawName[0];
    assert NameChar(b[0].rawName[0]);
  }

  /** The header parser reads back exactly the fields that were written. */
  lemma {:induction false} ParseFieldsOfRaw(b: Block, limits: Limits)
    requires ValidBlock(b) && forall i | 0 <= i < |b| :: FieldWithin(b[i], limits)
    ensures ParseFields(RawBlock(b), limits) == Some(b)
  {
    hide FieldWithin, ParseField, FieldLength, ValidValue, ValidName;
    if b != [] {
      var h, rest := RawBlock(b), RawBlock(b[1..]);
      FirstFieldCut(b);
      ParseFieldOfRaw(b[0], limits);
      ParseFieldsOfRaw(b[1..], limits);
      assert [b[0]] + b[1..] == b;
    }
  }

  lemma FirstFieldCut(b: Block)
    requires ValidBlock(b) && b != []
    ensures var h, n := RawBlock(b), |b[0].Raw()|;
      FieldLength(h) == Some(n) && n <= |h| && h[..n] == b[0].Raw() && h[n..] == RawBlock(b[1..])
  {
    hide ValidValue, ValidName, FieldLength, RawBlock;
    RawBlockSplit(b, []);
    var h, text, rest := RawBlock(b), FieldText(b[0]), RawBlock(b[1..]);
    assert h + [] == h && rest + [] == rest;
    RestStart(b[1..]);
    FieldAsValue(b[0]);
    FieldLengthOfValue(text, rest);
    assert b[0].Raw() == text + CRLF;
  }

  lemma RestStart(b: Block)
    requires ValidBlock(b)
    ensures RawBlock(b) != [] ==> !IsWsp(RawBlock(b)[0])
  {
    if b != [] {
      RawStartsField(b);
    }
  }

  lemma {:induction false} NoHeaderEndInValue(value: octets, rest: octets, i: nat)
    requires ValidValue(value) && i < |value|
    requires rest != [] ==> !IsWsp(rest[0])
    ensures !OccursAt(value + CRLF + rest, i, HEADER_END)
  {
    var s := value + CRLF + rest;
    var skip := if value[0] == '\r' then 2 else 1;
    assert s[skip..] == value[skip..] + CRLF + rest;
    if i >= skip {
      NoHeaderEndInValue(value[skip..], rest, i - skip);
      OccursShift(s, skip, i - skip, HEADER_END);
    } else if i + 4 <= |s| {
      assert s[i..i + 4][0] == s[i] && s[i..i + 4][2] == s[i + 2];
      assert HEADER_END[0] == '\r' && HEADER_END[2] == '\r';
    }
  }

  lemma NoHeaderEndAtFieldEnd(value: octets, rest: octets, i: nat)
    requires |value| <= i < |value| + 2 && rest != [] && rest[0] != '\r'
    ensures !OccursAt(value + CRLF + rest, i, HEADER_END)
  {
    var s := value + CRLF + rest;
    if i + 4 <= |s| {
      assert s[i..i + 4][0] == s[i] && s[i..i + 4][2] == s[i + 2];
      assert HEADER_END[0] == '\r' && HEADER_END[2] == '\r';
      assert s[|value| + 1] == '\n' && s[|value| + 2] == rest[0];
    }
  }

  function FieldText(f: Field): octets {
    f.rawName + [':'] + f.rawValue
  }

  lemma RawBlockSplit(b: Block, rest: octets)
    requires b != []
    ensures RawBlock(b) + rest == FieldText(b[0]) + CRLF + (RawBlock(b[1..]) + rest)
    ensures |RawBlock(b)| == |FieldText(b[0])| + 2 + |RawBlock(b[1..])|
  {
    assert b[0].Raw() == FieldText(b[0]) + CRLF;
  }

  lemma RawStart(b: Block, rest: octets)
    requires ValidBlock(b) && (rest != [] ==> !IsWsp(rest[0]))
    ensures RawBlock(b) + rest != [] ==> !IsWsp((RawBlock(b) + rest)[0])
    ensures b != [] ==> RawBlock(b) != [] && RawBlock(b)[0] != '\r'
  {
    if b != [] {
      RawStartsField(b);
      assert NameChar(b[0].rawName[0]);
    }
  }

  /** No CRLFCRLF lies inside a written header block, or straddles its last field. */
  lemma {:induction false} NoHeaderEndInBlock(b: Block, rest: octets, i: nat)
    requires ValidBlock(b) && i + 2 < |RawBlock(b)|
    requires rest != [] ==> !IsWsp(rest[0])
    ensures !OccursAt(RawBlock(b) + rest, i, HEADER_END)
  {
    var value, tail := FieldText(b[0]), RawBlock(b[1..]) + rest;
    RawBlockSplit(b, rest);
    FieldAsValue(b[0]);
    RawStart(b[1..], rest);
    if i < |value| {
      NoHeaderEndInValue(value, tail, i);
    } else if i < |value| + 2 {
      assert RawBlock([]) == [];
      NoHeaderEndAtFieldEnd(value, tail, i);
    } else {
      var k := |value| + 2;
      assert (value + CRLF + tail)[k..] == tail;
      NoHeaderEndInBlock(b[1..], rest, i - k);
      OccursShift(RawBlock(b) + rest, k, i - k, HEADER_END);
    }
  }

  lemma {:induction false} StrictRest(a: octets, b: octets)
    requires StrictCrlf(a)
    ensures StrictCrlf(a + b) <==> StrictCrlf(b)
  {
    if a == [] {
      assert a + b == b;
    } else {
      var skip := if a[0] == '\r' then 2 else 1;
      StrictRest(a[skip..], b);
      assert (a + b)[skip..] == a[skip..] + b;
    }
  }

  lemma {:induction false} ValidValueStrict(value: octets)
    requires ValidValue(value)
    ensures StrictCrlf(value)
  {
    if value != [] {
      if value[0] == '\r' {
        ValidValueStrict(value[2..]);
      } else {
        ValidValueStrict(value[1..]);
      }
    }
  }

  lemma CrlfStrict()
    ensures StrictCrlf(CRLF)
  {
    assert CRLF[2..] == [];
  }

  lemma {:induction false} RawBlockStrict(b: Block)
    requires ValidBlock(b)
    ensures StrictCrlf(RawBlock(b))
  {
    if b != [] {
      FieldAsValue(b[0]);
      ValidValueStrict(FieldText(b[0]));
      CrlfStrict();
      StrictRest(FieldText(b[0]), CRLF);
      RawBlockStrict(b[1..]);
      StrictRest(b[0].Raw(), RawBlock(b[1..]));
    }
  }

  lemma WrittenStrict(b: Block, body: octets)
    requires ValidBlock(b)
    ensures StrictCrlf(RawBlock(b) + CRLF + body) <==> StrictCrlf(body)
  {
    RawBlockStrict(b);
    CrlfStrict();
    StrictRest(RawBlock(b), CRLF);
    StrictRest(RawBlock(b) + CRLF, body);
  }

  lemma WrittenHeaderEnd(b: Block, body: octets)
    requires b != [] && ValidBlock(b)
    ensures |RawBlock(b)| >= 3
    ensures Find(RawBlock(b) + CRLF + body, 0, HEADER_END) == Some(|RawBlock(b)| - 2)
  {
    hide RawBlock, ValidBlock;
    var raw := RawBlock(b);
    var data := raw + CRLF + body;
    RawEndsInCrlf(b);
    var end := |raw| - 2;
    assert data[end..end + 4] == raw[end..] + CRLF == HEADER_END;
    assert OccursAt(data, end, HEADER_END);
    forall i | 0 <= i < end ensures !OccursAt(data, i, HEADER_END) {
      NoHeaderEndInBlock(b, CRLF + body, i);
      assert raw + (CRLF + body) == data;
    }
  }

  lemma SplitOfWritten(b: Block, body: octets, limits: Limits)
    requires b != [] && ValidBlock(b) && BlockWithin(b, limits) && |RawBlock(b)| <= limits.maxHeaderBytes
    ensures ParseSplit(RawBlock(b), body, limits) == if BodyWithin(body, limits) then Some(Message(b, body)) else None
  {
    ParseFieldsOfRaw(b, limits);
    RawEndsInCrlf(b);
  }

  lemma ParseAt(data: octets, limits: Limits, end: nat)
    requires Find(data, 0, HEADER_END) == Some(end)
    ensures end + 4 <= |data|
    ensures Parse(data, limits) ==
      if |data| <= limits.maxMessageBytes && StrictCrlf(data) then ParseSplit(data[..end + 2], data[end + 4..], limits)
      else None
  {
  }

  lemma Sliced(raw: octets, body: octets)
    ensures (raw + CRLF + body)[..|raw|] == raw
    ensures (raw + CRLF + body)[|raw| + 2..] == body
  {
  }

  /** A written message is read back field by field and octet by octet, or refused because of its body or its size. */
  lemma ParseOfWritten(b: Block, body: octets, limits: Limits)
    requires b != [] && ValidBlock(b) && BlockWithin(b, limits) && |RawBlock(b)| <= limits.maxHeaderBytes
    ensures Parse(RawBlock(b) + CRLF + body, limits) ==
      if StrictCrlf(body) && BodyWithin(body, limits) && |RawBlock(b)| + 2 + |body| <= limits.maxMessageBytes
      then Some(Message(b, body)) else None
  {
    hide RawBlock, StrictCrlf, ParseSplit, Parse, Find, BodyWithin, BlockWithin, ValidBlock;
    var raw := RawBlock(b);
    var data := raw + CRLF + body;
    WrittenStrict(b, body);
    WrittenHeaderEnd(b, body);
    ParseAt(data, limits, |raw| - 2);
    Sliced(raw, body);
    SplitOfWritten(b, body, limits);
  }

  lemma {:induction false} RawEndsInCrlf(b: Block)
    requires b != []
    ensures |RawBlock(b)| >= 3 && RawBlock(b)[|RawBlock(b)| - 2..] == CRLF
  {
    var raw, rest := RawBlock(b), RawBlock(b[1..]);
    if b[1..] == [] {
      assert raw == b[0].Raw();
      assert raw[|raw| - 2..] == CRLF;
    } else {
      RawEndsInCrlf(b[1..]);
      assert raw[|raw| - 2..] == rest[|rest| - 2..];
    }
  }

  lemma HeadersHaveNoEnd(b: Block)
    requires b != [] && ValidBlock(b)
    ensures Find(RawBlock(b), 0, HEADER_END).None?
  {
    hide RawBlock, ValidBlock, Find;
    var raw := RawBlock(b);
    forall i: nat ensures !OccursAt(raw, i, HEADER_END) {
      if i + 4 <= |raw| {
        NoHeaderEndInBlock(b, [], i);
        assert raw + [] == raw;
      }
    }
  }

  /** Header octets without a separator are read back as a message with an empty body. */
  lemma ParseOfHeaders(b: Block, limits: Limits)
    requires b != [] && Admissible(b, limits) && limits.maxHeaderBytes <= limits.maxMessageBytes
    ensures Parse(RawBlock(b), limits) == Some(Message(b, []))
  {
    hide RawBlock, StrictCrlf, ParseSplit, Find, BlockWithin, ValidBlock;
    RawBlockStrict(b);
    HeadersHaveNoEnd(b);
    RawEndsInCrlf(b);
    SplitOfWritten(b, [], limits);
    EmptyBodyWithin(limits);
  }

  lemma EmptyBodyWithin(limits: Limits)
    ensures BodyWithin([], limits)
  {
  }

  // ---- What parsing establishes

  lemma {:induction false} ParsedFieldsWithin(h: octets, limits: Limits)
    requires ParseFields(h, limits).Some?
    ensures forall f | f in ParseFields(h, limits).value :: FieldWithin(f, limits)
    decreases |h|
  {
    hide ParseField;
    if h != [] {
      var n := FieldLength(h).value;
      ParsedFieldWithin(h[..n], limits);
      ParsedFieldsWithin(h[n..], limits);
    }
  }

  lemma ParsedFieldWithin(original: octets, limits: Limits)
    requires ParseField(original, limits).Some?
    ensures FieldWithin(ParseField(original, limits).value, limits)
  {
    hide Field.Valid, LinesWithin;
  }

  lemma SplitWithin(header: octets, body: octets, limits: Limits)
    requires ParseSplit(header, body, limits).Some?
    ensures ParseSplit(header, body, limits).value.headers != [] && BodyWithin(body, limits)
    ensures Admissible(ParseSplit(header, body, limits).value.headers, limits)
  {
    hide ParseFields, FieldWithin, BodyWithin;
    ParsedFieldsWithin(header, limits);
  }

  /** A parsed message has a header block and a strict body within the limits. */
  lemma ParsedWithin(data: octets, limits: Limits)
    requires Parse(data, limits).Some?
    ensures var m := Parse(data, limits).value;
      && m.headers != [] && Admissible(m.headers, limits) && BodyWithin(m.body, limits) && StrictCrlf(m.body)
      && |data| <= limits.maxMessageBytes
  {
    hide ParseSplit, Find, StrictCrlf, BodyWithin, Admissible, RawBlock, ValidBlock;
    var m := Parse(data, limits).value;
    match Find(data, 0, HEADER_END)
    case Some(end) =>
      SplitWithin(data[..end + 2], data[end + 4..], limits);
      WrittenStrict(m.headers, m.body);
      assert data == data[..end + 2] + CRLF + data[end + 4..] by {
        assert data[end + 2..end + 4] == data[end..end + 4][2..4];
      }
    case None =>
      SplitWithin(data, [], limits);
      EmptyStrict();
  }

  lemma EmptyStrict()
    ensures StrictCrlf([])
  {
  }

  // ---- Reconstruction from field octets

  function Raws(b: Block): (r: seq<octets>)
    ensures |r| == |b| && forall i | 0 <= i < |b| :: r[i] == b[i].Raw()
  {
    seq(|b|, i requires 0 <= i < |b| => b[i].Raw())
  }

  function OneField(raw: octets, limits: Limits): bool {
    raw != [] && |raw| <= limits.maxHeaderFieldBytes
    && match ParseHeaderBlock(raw, limits) case Some(b) => |b| == 1 case None => false
  }

  /** Validates each field's octets on its own, then parses their concatenation. */
  function Reconstruct(fields: seq<octets>, limits: Limits): Option<Block> {
    if |fields| > limits.maxHeaderFields then None
    else if fields == [] then Some([])
    else if exists i :: 0 <= i < |fields| && !OneField(fields[i], limits) then None
    else if |Concat(fields)| > limits.maxHeaderBytes then None
    else ParseHeaderBlock(Concat(fields), limits)
  }

  /** A header block within the parser's limits. */
  predicate Admissible(b: Block, limits: Limits) {
    ValidBlock(b) && BlockWithin(b, limits) && |RawBlock(b)| <= limits.maxHeaderBytes
  }

  lemma {:induction false} ConcatRaws(b: Block)
    ensures Concat(Raws(b)) == RawBlock(b)
  {
    if b != [] {
      assert Raws(b)[1..] == Raws(b[1..]);
      ConcatRaws(b[1..]);
    }
  }

  lemma OneFieldOfRaw(f: Field, limits: Limits)
    requires f.Valid() && FieldWithin(f, limits) && limits.maxHeaderFields >= 1
    ensures OneField(f.Raw(), limits)
  {
    assert RawBlock([f]) == f.Raw() + RawBlock([]);
    assert f.Raw() + [] == f.Raw();
    ParseFieldsOfRaw([f], limits);
  }

  /** Reconstruction of admissible fields is the identity. */
  lemma ReconstructRaws(b: Block, limits: Limits)
    requires Admissible(b, limits)
    ensures Reconstruct(Raws(b), limits) == Some(b)
  {
    forall i | 0 <= i < |b| ensures OneField(Raws(b)[i], limits) {
      OneFieldOfRaw(b[i], limits);
    }
    ConcatRaws(b);
    if b != [] {
      ParseFieldsOfRaw(b, limits);
      RawEndsInCrlf(b);
    }
  }

  lemma {:induction false} RawConcat(a: Block, b: Block)
    ensures RawBlock(a + b) == RawBlock(a) + RawBlock(b)
  {
    if a == [] {
      assert a + b == b;
    } else {
      assert (a + b)[1..] == a[1..] + b;
      RawConcat(a[1..], b);
    }
  }

  lemma {:induction false} RawLengthPermuted(a: Block, b: Block)
    requires multiset(a) == multiset(b)
    ensures |RawBlock(a)| == |RawBlock(b)|
  {
    hide Field.Raw;
    assert |multiset(a)| == |a| && |multiset(b)| == |b|;
    if a != [] {
      assert a == [a[0]] + a[1..];
      assert a[0] in multiset(b);
      var i :| 0 <= i < |b| && b[i] == a[0];
      WithoutMultiset(b, i);
      RemovedLength(b, i);
      RawLengthPermuted(a[1..], Without(b, i));
    }
  }

  lemma RemovedLength(b: Block, i: nat)
    requires i < |b|
    ensures |RawBlock(b)| == |b[i].Raw()| + |RawBlock(Without(b, i))|
  {
    hide Field.Raw;
    RawConcat(b[..i], b[i + 1..]);
    RawConcat(b[..i], [b[i]] + b[i + 1..]);
    assert b == b[..i] + ([b[i]] + b[i + 1..]);
    assert ([b[i]] + b[i + 1..])[1..] == b[i + 1..];
  }

  lemma AdmissiblePermuted(a: Block, b: Block, limits: Limits)
    requires Admissible(a, limits) && multiset(a) == multiset(b)
    ensures Admissible(b, limits)
  {
    assert |multiset(a)| == |a| && |multiset(b)| == |b|;
    RawLengthPermuted(a, b);
    forall i | 0 <= i < |b| ensures b[i].Valid() && FieldWithin(b[i], limits) {
      assert b[i] in multiset(a);
    }
  }
}
