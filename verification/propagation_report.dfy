/** The propagated RFC 6522 report: its printer, and the proof that the report parsers read back what it wrote. */
module PropagationReport {
  import opened Octets
  import opened RawMessage
  import opened MessageParser
  import opened MachinePart
  import opened Boundary
  import ContentType
  import Multipart
  import ReportParser
  import StatusFields
  import StatusGroup
  import StatusLines
  import StatusReport
  import opened TextLines

  /** The RFC 1123 text of an instant: bounded, and on one line. */
  type DateText = s: octets | |s| <= 48 && NoLineEnd(s) witness []

  // ---- Header texts

  datatype Header = Header(name: octets, value: octets) {
    function Line(): octets {
      name + ": " + value
    }

    function ToField(): Field {
      Field(name, " " + value)
    }
  }

  function Fields(headers: seq<Header>): (b: Block)
    ensures |b| == |headers| && forall i | 0 <= i < |b| :: b[i] == headers[i].ToField()
  {
    seq(|headers|, i requires 0 <= i < |headers| => headers[i].ToField())
  }

  function HeaderText(headers: seq<Header>): octets {
    if headers == [] then [] else headers[0].Line() + CRLF + HeaderText(headers[1..])
  }

  lemma {:induction false} HeaderTextRaw(headers: seq<Header>)
    ensures RawBlock(Fields(headers)) == HeaderText(headers)
  {
    if headers != [] {
      HeaderTextRaw(headers[1..]);
      assert Fields(headers)[1..] == Fields(headers[1..]);
      assert headers[0].ToField().Raw() == headers[0].Line() + CRLF;
    }
  }

  predicate HeaderOk(h: Header) {
    ValidName(h.name) && NoLineEnd(h.value) && |h.Line()| <= 998
  }

  predicate HeadersOk(headers: seq<Header>) {
    forall i | 0 <= i < |headers| :: HeaderOk(headers[i])
  }

  // ---- Parts

  /** A MIME part: its headers, a blank line and its body. */
  function PartText(headers: seq<Header>, body: octets): octets {
    HeaderText(headers) + CRLF + body
  }

  lemma PartTextCons(headers: seq<Header>, body: octets)
    requires headers != []
    ensures PartText(headers, body) == headers[0].Line() + CRLF + PartText(headers[1..], body)
  {
  }

  /** Header lines are tidy, so a part is as tidy as its body. */
  lemma {:induction false} PartLined(headers: seq<Header>, body: octets)
    requires HeadersOk(headers)
    ensures Tidy(PartText(headers, body)) <==> Tidy(body)
    ensures LineEnds(PartText(headers, body)) == |headers| + 1 + LineEnds(body)
    ensures LineCount(PartText(headers, body), false) == |headers| + 1 + LineCount(body, false)
  {
    hide Tidy, LineEnds, LineCount;
    if headers == [] {
      LinedEmpty();
      TidyJoin([], body);
      CountJoin([], body, false);
    } else {
      var line, rest := headers[0].Line(), PartText(headers[1..], body);
      HeaderLineOk(headers[0]);
      PartLined(headers[1..], body);
      PartTextCons(headers, body);
      TidyJoin(line, rest);
      CountJoin(line, rest, false);
    }
  }

  lemma HeaderLineOk(h: Header)
    requires HeaderOk(h)
    ensures NoLineEnd(h.Line()) && Lined(h.Line(), 0)
  {
    forall i | 0 <= i < |h.name| ensures h.name[i] != '\r' && h.name[i] != '\n' {
      assert NameChar(h.name[i]);
    }
    LineLined(h.Line());
  }

  lemma HeaderFieldOk(h: Header)
    requires HeaderOk(h)
    ensures h.ToField().Valid() && FieldWithin(h.ToField(), DEFAULTS) && h.ToField().Value() == " " + h.value
    ensures |h.ToField().Raw()| <= 1000
  {
    assert NoLineEnd(" " + h.value);
    UnfoldPlain(" " + h.value);
    HeaderLineOk(h);
    PlainWithin(h.Line(), 0);
    WithinJoin(h.Line(), [], 998, 0);
    assert h.ToField().Raw() == h.Line() + CRLF + [];
  }

  lemma {:induction false} HeadersSize(headers: seq<Header>)
    requires HeadersOk(headers)
    ensures |RawBlock(Fields(headers))| <= 1000 * |headers|
  {
    if headers != [] {
      HeadersSize(headers[1..]);
      HeaderFieldOk(headers[0]);
      assert Fields(headers)[1..] == Fields(headers[1..]);
    }
  }

  /** A written part is parsed back into its header fields and its body, or refused because of its body or size. */
  lemma PartParsed(headers: seq<Header>, body: octets)
    requires headers != [] && |headers| <= 16 && HeadersOk(headers)
    ensures MessageParser.Parse(PartText(headers, body), DEFAULTS) ==
      if Tidy(body) && LineCount(body, false) <= DEFAULTS.maxBodyLines && |PartText(headers, body)| <= MAX_MESSAGE_BYTES
      then Some(Message(Fields(headers), body)) else None
  {
    hide HeaderOk, MessageParser.Parse, FieldWithin, StrictCrlf, LinesWithin, LineCount, RawBlock, HeaderText;
    HeaderTextRaw(headers);
    HeadersSize(headers);
    forall i | 0 <= i < |headers| ensures Fields(headers)[i].Valid() && FieldWithin(Fields(headers)[i], DEFAULTS) {
      HeaderFieldOk(headers[i]);
    }
    ParseOfWritten(Fields(headers), body, DEFAULTS);
  }

  // ---- Content types

  /** Exactly the header at `k` is the Content-Type. */
  predicate TypedBy(headers: seq<Header>, k: nat) {
    k < |headers| && forall i | 0 <= i < |headers| :: Lower(headers[i].name) == ReportParser.CONTENT_TYPE <==> i == k
  }

  lemma {:induction false} NamedType(headers: seq<Header>, k: nat)
    requires TypedBy(headers, k)
    ensures Named(Fields(headers), ReportParser.CONTENT_TYPE) == [headers[k].ToField()]
  {
    var f, rest := headers[0], headers[1..];
    assert Fields(headers)[1..] == Fields(rest);
    if k == 0 {
      NamedUntyped(rest);
    } else {
      NamedType(rest, k - 1);
    }
  }

  lemma {:induction false} NamedUntyped(headers: seq<Header>)
    requires forall i | 0 <= i < |headers| :: Lower(headers[i].name) != ReportParser.CONTENT_TYPE
    ensures Named(Fields(headers), ReportParser.CONTENT_TYPE) == []
  {
    if headers != [] {
      NamedUntyped(headers[1..]);
      assert Fields(headers)[1..] == Fields(headers[1..]);
    }
  }

  lemma ContentTypeSpaced(value: octets)
    ensures ContentType.Parse(" " + value) == ContentType.Parse(value)
  {
    assert (" " + value)[1..] == value;
  }

  lemma ContentTypeRead(headers: seq<Header>, k: nat, index: nat)
    requires HeadersOk(headers) && TypedBy(headers, k)
    ensures ReportParser.RequiredContentType(Fields(headers), index) ==
      match ContentType.Parse(headers[k].value)
      case None => Err(ReportParser.InvalidContentType(index))
      case Some(mediaType) => Ok(mediaType)
  {
    hide HeaderOk, ContentType.Parse;
    NamedType(headers, k);
    HeaderFieldOk(headers[k]);
    ContentTypeSpaced(headers[k].value);
  }

  lemma PartRead(headers: seq<Header>, k: nat, body: octets, index: nat, mediaType: ContentType.MediaType)
    requires headers != [] && |headers| <= 16 && HeadersOk(headers) && TypedBy(headers, k)
    requires ContentType.Parse(headers[k].value) == Some(mediaType)
    requires Tidy(body) && LineCount(body, false) <= DEFAULTS.maxBodyLines
    requires |PartText(headers, body)| <= MAX_MESSAGE_BYTES
    ensures ReportParser.ParsePart(PartText(headers, body), index, ReportParser.DEFAULT_OPTIONS)
         == Ok(ReportParser.Part(Message(Fields(headers), body), mediaType.name))
  {
    hide HeadersOk, TypedBy, Tidy, LineCount, ContentType.Parse, MessageParser.Parse, ReportParser.RequiredContentType, PartText;
    PartParsed(headers, body);
    ContentTypeRead(headers, k, index);
  }

  // ---- The report

  function TypeName(t: OriginalType): octets {
    match t case Rfc822 => ReportParser.RFC822 case Rfc822Headers => ReportParser.RFC822_HEADERS
  }

  function Original(input: Input): octets {
    input.originalHeaders + input.originalBody
  }

  // Two halves each: the proof that a line is plain text goes through the halves.
  const SECOND_LINE: octets := "A message that this system forwarded" + " could not be delivered to its next"
  const THIRD_LINE: octets := "destination. The delivery status" + " report received from that destination"
  const LAST_LINE: octets := "was not forwarded."

  function HostLine(host: octets): octets {
    "This is the mail system at host " + host + "."
  }

  /** The fixed English text; it names only the reporting host. */
  function HumanText(host: octets): octets {
    HostLine(host) + CRLF + (CRLF + (SECOND_LINE + CRLF + (THIRD_LINE + CRLF + (LAST_LINE + CRLF))))
  }

  const HUMAN_HEADERS := [
    Header("Content-Type", "text/plain; charset=us-ascii"), Header("Content-Language", "en")]

  const MACHINE_HEADERS := [Header("Content-Type", "message/delivery-status")]

  function OriginalHeaders(t: OriginalType): seq<Header> {
    [Header("Content-Type", TypeName(t))]
  }

  function HumanPart(input: Input): octets {
    PartText(HUMAN_HEADERS, HumanText(input.reportingMta))
  }

  function MachinePartText(input: Input): octets {
    PartText(MACHINE_HEADERS, MachineText(input))
  }

  function OriginalPart(input: Input): octets {
    PartText(OriginalHeaders(input.originalType), Original(input))
  }

  function Parts(input: Input): seq<octets> {
    [HumanPart(input), MachinePartText(input), OriginalPart(input)]
  }

  function ReportType(boundary: octets): octets {
    "multipart/report" + "; report-type=delivery-status" + ("; boundary=\"" + boundary + "\"")
  }

  function OuterHeaders(input: Input, date: DateText, boundary: octets): seq<Header> {
    [Header("From", "Mail Delivery System <MAILER-DAEMON@" + input.authorDomain + ">"),
     Header("To", input.nextHop),
     Header("Subject", "Undelivered Mail Returned to Sender"),
     Header("Date", date),
     Header("Message-ID", "<" + input.token + "@" + input.reportingMta + ">"),
     Header("Auto-Submitted", "auto-replied"),
     Header("MIME-Version", "1.0"),
     Header("Content-Type", ReportType(boundary))]
  }

  function ReportText(input: Input, date: DateText, boundary: octets): octets {
    PartText(OuterHeaders(input, date, boundary), Framed(Parts(input), boundary))
  }

  /** The self-check of a rendered report: the structural parser and the strict delivery-status parser accept it,
      read back the third part, one failed recipient, and the envelope ID's presence. */
  ghost predicate Proves(o: StatusReport.Oracles, input: Input, rendered: octets) {
    match ReportParser.Parse(rendered, ReportParser.DEFAULT_OPTIONS)
    case Err(_) => false
    case Ok(report) =>
      && report.original.contentType == TypeName(input.originalType)
      && report.original.message.body == Original(input)
      && match StatusReport.ParseBody(o, report.status.message.body, StatusGroup.Strict)
         case None => false
         case Some(status) =>
           && |status.recipients| == 1 && StatusFields.EqualFold(status.recipients[0].action, "failed")
           && (status.envelopeId.Some? <==> input.envelopeId.Some?)
  }

  method ProveRendered(o: StatusReport.Oracles, input: Input, rendered: octets) returns (ok: bool)
    ensures ok <==> Proves(o, input, rendered)
  {
    hide ReportParser.Parse, StatusReport.ParseBody;
    var report := ReportParser.ParseWithOptions(rendered, ReportParser.DEFAULT_OPTIONS);
    if report.Err? {
      return false;
    }
    var original := report.value.original;
    if original.contentType != TypeName(input.originalType) || original.message.body != Original(input) {
      return false;
    }
    var status := StatusReport.ParseDeliveryStatusBody(o, report.value.status.message.body, StatusGroup.Strict);
    if status.None? || |status.value.recipients| != 1 {
      return false;
    }
    return StatusFields.EqualFold(status.value.recipients[0].action, "failed")
        && (status.value.envelopeId.Some? <==> input.envelopeId.Some?);
  }

  predicate NonAscii(s: octets) {
    exists i :: 0 <= i < |s| && s[i] >= 128 as char
  }

  datatype Rendered = Rendered(raw: octets, smtputf8: bool, eightBit: bool)

  function RenderedAs(input: Input, date: DateText, boundary: octets): Rendered {
    Rendered(ReportText(input, date, boundary), NonAsciiHeaders(input, date, boundary), NonAscii(input.originalBody))
  }

  /** The report behind the derived boundary passes the self-check, or does not. */
  ghost predicate Checked(
    o: StatusReport.Oracles, hash: octets -> HexDigest, date: DateText, input: Input, boundary: octets, passes: bool)
  {
    Derived(hash, Parts(input), boundary) && (Proves(o, input, ReportText(input, date, boundary)) <==> passes)
  }

  method RenderPropagationReport(
    o: StatusReport.Oracles, hash: octets -> HexDigest, date: nat -> DateText, input: Input)
    returns (r: Option<Rendered>)
    ensures r.Some? ==>
      && Valid(input)
      && (exists boundary :: Checked(o, hash, date(input.timestamp), input, boundary, true)
            && r.value == RenderedAs(input, date(input.timestamp), boundary))
    ensures r.None? ==>
      || !Valid(input) || AllCollide(hash, Parts(input))
      || (exists boundary :: Checked(o, hash, date(input.timestamp), input, boundary, false))
  {
    hide Collides, BoundaryAt, Derived, Proves, Valid, NonAscii, AllCollide;
    hide HeaderText, OuterHeaders, HumanPart, MachinePartText, OriginalPart, OriginalHeaders, Framed;
    if !Valid(input) {
      return None;
    }
    var human, machine, third := HumanPart(input), MachinePartText(input), OriginalPart(input);
    var derived := DeriveBoundary(hash, [human, machine, third]);
    if derived.None? {
      return None;
    }
    var outer := HeaderText(OuterHeaders(input, date(input.timestamp), derived.value));
    var framed := WriteParts([human, machine, third], derived.value);
    var rendered := outer + CRLF + framed;
    var ok := ProveRendered(o, input, rendered);
    assert Checked(o, hash, date(input.timestamp), input, derived.value, ok);
    if !ok {
      return None;
    }
    var thirdHeaders := HeaderText(OriginalHeaders(input.originalType)) + CRLF + input.originalHeaders;
    var smtputf8 := NonAscii(outer) || NonAscii(human) || NonAscii(machine) || NonAscii(thirdHeaders);
    return Some(Rendered(rendered, smtputf8, NonAscii(input.originalBody)));
  }

  /** Whether anything but the embedded original's body carries a non-ASCII octet. */
  predicate NonAsciiHeaders(input: Input, date: DateText, boundary: octets) {
    || NonAscii(HeaderText(OuterHeaders(input, date, boundary))) || NonAscii(HumanPart(input))
    || NonAscii(MachinePartText(input))
    || NonAscii(HeaderText(OriginalHeaders(input.originalType)) + CRLF + input.originalHeaders)
  }

  // ---- Content types of the report

  predicate LowerToken(s: octets) {
    ContentType.IsToken(s) && Lower(s) == s
  }

  lemma LowerTokenText(s: octets)
    requires s != [] && forall i | 0 <= i < |s| :: 'a' <= s[i] <= 'z' || '0' <= s[i] <= '9' || s[i] == '-'
    ensures LowerToken(s)
  {
    forall i | 0 <= i < |s| ensures ContentType.TokenChar(s[i]) && LowerChar(s[i]) == s[i] {
    }
  }

  lemma SimpleType(main: octets, sub: octets)
    requires LowerToken(main) && LowerToken(sub)
    ensures ContentType.Parse(main + "/" + sub) == Some(ContentType.MediaType(main + "/" + sub, map[]))
  {
    hide ContentType.Parse, ContentType.IsToken, Lower;
    ContentType.ParseOfShown(main, sub, []);
    assert main + "/" + sub + [] == main + "/" + sub;
  }

  lemma MachineTypeText()
    ensures "message" + "/" + "delivery-status" == ReportParser.DELIVERY_STATUS
  {
  }

  lemma MachineType()
    ensures ContentType.Parse(ReportParser.DELIVERY_STATUS)
         == Some(ContentType.MediaType(ReportParser.DELIVERY_STATUS, map[]))
  {
    hide ContentType.Parse, LowerToken;
    LowerTokenText("message");
    LowerTokenText("delivery-status");
    SimpleType("message", "delivery-status");
    MachineTypeText();
  }

  lemma Rfc822Text()
    ensures "message" + "/" + "rfc822" == ReportParser.RFC822
  {
  }

  lemma Rfc822HeadersText()
    ensures "text" + "/" + "rfc822-headers" == ReportParser.RFC822_HEADERS
  {
  }

  lemma Rfc822Read()
    ensures ContentType.Parse(ReportParser.RFC822) == Some(ContentType.MediaType(ReportParser.RFC822, map[]))
  {
    hide ContentType.Parse, LowerToken;
    LowerTokenText("message");
    LowerTokenText("rfc822");
    SimpleType("message", "rfc822");
    Rfc822Text();
  }

  lemma Rfc822HeadersRead()
    ensures ContentType.Parse(ReportParser.RFC822_HEADERS)
         == Some(ContentType.MediaType(ReportParser.RFC822_HEADERS, map[]))
  {
    hide ContentType.Parse, LowerToken;
    LowerTokenText("text");
    LowerTokenText("rfc822-headers");
    SimpleType("text", "rfc822-headers");
    Rfc822HeadersText();
  }

  lemma OriginalTypeRead(t: OriginalType)
    ensures ContentType.Parse(TypeName(t)) == Some(ContentType.MediaType(TypeName(t), map[]))
  {
    hide ContentType.Parse;
    Rfc822Read();
    Rfc822HeadersRead();
  }

  lemma ShownOne(p: ContentType.Param)
    ensures ContentType.ShownAll([p]) == "; " + ContentType.Shown(p)
  {
    assert [p][1..] == [];
    assert ContentType.ShownAll([]) == [];
  }

  lemma ShownTwo(p: ContentType.Param, q: ContentType.Param)
    ensures ContentType.ShownAll([p, q]) == "; " + ContentType.Shown(p) + ("; " + ContentType.Shown(q))
  {
    assert [p, q][1..] == [q];
    ShownOne(q);
  }

  const PLAIN: octets := "text/plain"

  lemma PlainName()
    ensures "text" + "/" + "plain" == PLAIN
  {
  }

  lemma HumanTypeText()
    ensures "text" + "/" + "plain" + ("; " + ("charset" + "=" + "us-ascii")) == "text/plain; charset=us-ascii"
  {
  }

  lemma HumanType()
    ensures ContentType.Parse("text/plain; charset=us-ascii").Some?
    ensures ContentType.Parse("text/plain; charset=us-ascii").value.name == PLAIN
  {
    hide ContentType.Parse, ContentType.IsToken, Lower, ContentType.ShownAll, ContentType.Table;
    LowerTokenText("text");
    LowerTokenText("plain");
    LowerTokenText("charset");
    LowerTokenText("us-ascii");
    var p := ContentType.Plain("charset", "us-ascii");
    ShownOne(p);
    HumanTypeText();
    PlainName();
    ContentType.ParseOfShown("text", "plain", [p]);
    TableLast(p, map[]);
  }

  lemma TableLast(p: ContentType.Param, known: map<octets, octets>)
    requires Lower(p.name) !in known
    ensures ContentType.Table([p], known) == Some(known[Lower(p.name) := p.value])
  {
    hide Lower;
    assert [p][1..] == [];
  }

  lemma TableTwo(p: ContentType.Param, q: ContentType.Param)
    requires Lower(p.name) != Lower(q.name)
    ensures ContentType.Table([p, q], map[]) == Some(map[Lower(p.name) := p.value, Lower(q.name) := q.value])
  {
    hide Lower;
    assert [p, q][1..] == [q];
    TableLast(q, map[][Lower(p.name) := p.value]);
  }

  // ---- The report header

  function ReportParams(boundary: octets): seq<ContentType.Param> {
    [ContentType.Plain("report-type", "delivery-status"), ContentType.InQuotes("boundary", boundary)]
  }

  lemma ReportTypeName()
    ensures "multipart" + "/" + "report" == "multipart/report"
  {
  }

  lemma ReportTypeParam()
    ensures "; " + ("report-type" + "=" + "delivery-status") == "; report-type=delivery-status"
  {
  }

  lemma BoundaryParam(boundary: octets)
    ensures "; " + ("boundary" + "=" + (['"'] + boundary + ['"'])) == "; boundary=\"" + boundary + "\""
  {
  }

  lemma Associated(a: octets, b: octets, c: octets)
    ensures a + b + c == a + (b + c)
  {
  }

  lemma ReportTypeShown(boundary: octets)
    requires ContentType.Escaped(boundary) == boundary
    ensures ReportType(boundary) == "multipart" + "/" + "report" + ContentType.ShownAll(ReportParams(boundary))
  {
    hide ContentType.Escaped, ContentType.ShownAll;
    var p, q := ReportParams(boundary)[0], ReportParams(boundary)[1];
    ShownTwo(p, q);
    ReportTypeName();
    ReportTypeParam();
    BoundaryParam(boundary);
    Associated("multipart/report", "; report-type=delivery-status", "; boundary=\"" + boundary + "\"");
  }

  lemma {:induction false} PlainEscaped(s: octets)
    requires forall i | 0 <= i < |s| :: ReportParser.BoundaryChar(s[i])
    ensures ContentType.Escaped(s) == s
    ensures forall i | 0 <= i < |s| :: ContentType.Printable(s[i])
  {
    if s != [] {
      PlainEscaped(s[1..]);
      assert ReportParser.BoundaryChar(s[0]) && s == [s[0]] + s[1..];
    }
  }

  lemma ReportTypeRead(boundary: octets)
    requires ReportParser.ValidBoundary(boundary, ReportParser.HARD_MAX_BOUNDARY)
    ensures ContentType.Parse(ReportType(boundary)) == Some(ContentType.MediaType(
      "multipart/report", map["report-type" := "delivery-status", "boundary" := boundary]))
  {
    hide ContentType.Parse, ContentType.IsToken, Lower, ContentType.ShownAll, ContentType.Table, ReportType;
    hide ContentType.Escaped, ReportParser.BoundaryChar;
    PlainEscaped(boundary);
    ReportTypeShown(boundary);
    ReportTokens();
    var params := ReportParams(boundary);
    ContentType.ParseOfShown("multipart", "report", params);
    ReportNamesDiffer();
    TableTwo(params[0], params[1]);
  }

  lemma ReportNamesDiffer()
    ensures "report-type" != "boundary" && "multipart" + "/" + "report" == "multipart/report"
  {
    assert |"report-type"| != |"boundary"|;
    ReportTypeName();
  }

  lemma ReportTokens()
    ensures LowerToken("multipart") && LowerToken("report") && LowerToken("report-type")
    ensures LowerToken("delivery-status") && LowerToken("boundary")
  {
    hide LowerToken;
    LowerTokenText("multipart");
    LowerTokenText("report");
    LowerTokenText("report-type");
    LowerTokenText("delivery-status");
    LowerTokenText("boundary");
  }

  lemma OuterTyped(input: Input, date: DateText, boundary: octets)
    ensures TypedBy(OuterHeaders(input, date, boundary), 7)
  {
    hide Lower;
    NotContentType("From");
    NotContentType("To");
    NotContentType("Subject");
    NotContentType("Date");
    NotContentType("Message-ID");
    NotContentType("Auto-Submitted");
    NotContentType("MIME-Version");
    IsContentType();
  }

  lemma NotContentType(name: octets)
    requires |name| != 12 || LowerChar(name[0]) != 'c'
    ensures Lower(name) != ReportParser.CONTENT_TYPE
  {
    assert |ReportParser.CONTENT_TYPE| == 12 && ReportParser.CONTENT_TYPE[0] == 'c';
  }

  lemma IsContentType()
    ensures Lower("Content-Type") == ReportParser.CONTENT_TYPE
  {
    LowerIs("Content-Type", ReportParser.CONTENT_TYPE);
  }

  lemma PartTyped(t: OriginalType)
    ensures TypedBy(HUMAN_HEADERS, 0) && TypedBy(MACHINE_HEADERS, 0) && TypedBy(OriginalHeaders(t), 0)
  {
    hide Lower;
    IsContentType();
    NotContentType("Content-Language");
  }

  lemma BoundaryRead(input: Input, date: DateText, boundary: octets)
    requires HeadersOk(OuterHeaders(input, date, boundary))
    requires ReportParser.ValidBoundary(boundary, ReportParser.HARD_MAX_BOUNDARY)
    ensures ReportParser.BoundaryOf(Fields(OuterHeaders(input, date, boundary)), ReportParser.DEFAULT_OPTIONS)
         == Ok(boundary)
  {
    hide HeadersOk, TypedBy, ContentType.Parse, ReportParser.RequiredContentType, ReportType, Lower;
    hide ReportParser.ValidBoundary;
    OuterTyped(input, date, boundary);
    ContentTypeRead(OuterHeaders(input, date, boundary), 7, 0);
    ReportTypeRead(boundary);
    ReportNamesDiffer();
    LowerIs("delivery-status", "delivery-status");
  }

  // ---- The report reads back

  /** The lines of the printed report outside the embedded original: the boundary lines and the line ends before
      them, the part headers, and the human and the machine part. */
  function FixedLines(input: Input): nat {
    24 + (if input.envelopeId.Some? then 1 else 0) + (if input.originalRecipient.Some? then 1 else 0)
  }

  /** The embedded original is strict text of bounded lines, and the report around it is within the parser's line and
      size limits. */
  predicate Embeddable(input: Input, date: DateText, boundary: octets) {
    && Tidy(Original(input))
    && LineEnds(Original(input)) + FixedLines(input) <= DEFAULTS.maxBodyLines
    && |ReportText(input, date, boundary)| <= MAX_MESSAGE_BYTES
  }

  /** The ceiling of every rendered octet outside the embedded original. */
  const FIXED_PARTS_BOUND := 4096

  function FixedSize(input: Input, date: DateText, boundary: octets): int {
    |ReportText(input, date, boundary)| - |Original(input)|
  }

  lemma HeaderTextSize(headers: seq<Header>)
    requires |headers| <= 2
    ensures |HeaderText(headers)| == match |headers|
      case 0 => 0
      case 1 => |headers[0].Line()| + 2
      case _ => |headers[0].Line()| + |headers[1].Line()| + 4
  {
    if |headers| == 2 {
      assert headers[1..] == [headers[1]] && headers[1..][1..] == [];
    }
  }

  lemma HumanSize(host: octets)
    ensures |HumanText(host)| <= |host| + 220
  {
  }

  lemma HeaderTextAt(headers: seq<Header>, i: nat)
    requires i < |headers|
    ensures |HeaderText(headers[i..])| == |headers[i].name| + |headers[i].value| + 4 + |HeaderText(headers[i + 1..])|
  {
    assert headers[i..][1..] == headers[i + 1..];
  }

  lemma OuterSize(input: Input, date: DateText, boundary: octets)
    requires Valid(input) && Ordinary(input) && |boundary| == |PREFIX| + HASH_CHARS
    ensures |HeaderText(OuterHeaders(input, date, boundary))| <= 1200
  {
    hide HeaderText, StatusFields.XText, StatusFields.ValidCode, StatusFields.UnfoldedText;
    var h := OuterHeaders(input, date, boundary);
    OuterTail(input, date, boundary);
    HeaderTextAt(h, 0);
    HeaderTextAt(h, 1);
    HeaderTextAt(h, 2);
    HeaderTextAt(h, 3);
    assert h[0..] == h;
  }

  lemma OuterTail(input: Input, date: DateText, boundary: octets)
    requires Valid(input) && Ordinary(input) && |boundary| == |PREFIX| + HASH_CHARS
    ensures |HeaderText(OuterHeaders(input, date, boundary)[4..])| <= 520
  {
    hide HeaderText, StatusFields.XText, StatusFields.ValidCode, StatusFields.UnfoldedText;
    var h := OuterHeaders(input, date, boundary);
    HeaderTextAt(h, 4);
    HeaderTextAt(h, 5);
    HeaderTextAt(h, 6);
    HeaderTextAt(h, 7);
    assert h[8..] == [];
    HeaderTextEmpty();
  }

  lemma HeaderTextEmpty()
    ensures HeaderText([]) == []
  {
  }

  lemma PartHeaderSizes(t: OriginalType)
    ensures |HeaderText(HUMAN_HEADERS)| <= 66 && |HeaderText(MACHINE_HEADERS)| <= 39
    ensures |HeaderText(OriginalHeaders(t))| <= 35
  {
    HeaderTextSize(HUMAN_HEADERS);
    HeaderTextSize(MACHINE_HEADERS);
    HeaderTextSize(OriginalHeaders(t));
  }

  lemma FramedSize(a: octets, b: octets, c: octets, boundary: octets)
    ensures |Framed([a, b, c], boundary)| == |a| + |b| + |c| + 4 * |boundary| + 24
  {
    FramedCut([a, b, c], boundary);
    assert [a, b, c][1..] == [b, c] && [b, c][1..] == [c] && [c][1..] == [];
    FramedCut([b, c], boundary);
    FramedCut([c], boundary);
    FramedEnd(boundary);
  }

  /** The fixed-parts bound: all rendered octets outside the embedded original total at most 4096. */
  lemma FixedPartsBound(input: Input, date: DateText, boundary: octets)
    requires Valid(input) && Ordinary(input) && |boundary| == |PREFIX| + HASH_CHARS
    ensures FixedSize(input, date, boundary) <= FIXED_PARTS_BOUND
  {
    hide HeaderText, HumanText, MachineText, OuterHeaders, Valid, OriginalHeaders, Framed, Original;
    OuterSize(input, date, boundary);
    PartHeaderSizes(input.originalType);
    HumanSize(input.reportingMta);
    MachineSize(input);
    FramedSize(HumanPart(input), MachinePartText(input), OriginalPart(input), boundary);
  }

  lemma PartsSmaller(input: Input, date: DateText, boundary: octets)
    requires |ReportText(input, date, boundary)| <= MAX_MESSAGE_BYTES
    ensures |HumanPart(input)| <= MAX_MESSAGE_BYTES && |MachinePartText(input)| <= MAX_MESSAGE_BYTES
    ensures |OriginalPart(input)| <= MAX_MESSAGE_BYTES
  {
    hide HeaderText, OuterHeaders, Framed, HumanPart, MachinePartText, OriginalPart;
    FramedSize(HumanPart(input), MachinePartText(input), OriginalPart(input), boundary);
  }

  // The texts are lined

  lemma SecondLine()
    ensures NoLineEnd(SECOND_LINE) && |SECOND_LINE| <= 998
  {
    PlainText("A message that this system forwarded");
    PlainText(" could not be delivered to its next");
  }

  lemma ThirdLine()
    ensures NoLineEnd(THIRD_LINE) && |THIRD_LINE| <= 998
  {
    PlainText("destination. The delivery status");
    PlainText(" report received from that destination");
  }

  lemma LastLine()
    ensures NoLineEnd(LAST_LINE) && |LAST_LINE| <= 998
  {
    PlainText(LAST_LINE);
  }

  lemma HostLineOk(host: octets)
    requires NoLineEnd(host) && |host| <= MAX_DOMAIN
    ensures NoLineEnd(HostLine(host)) && |HostLine(host)| <= 998
  {
    PlainText("This is the mail system at host ");
  }

  lemma HumanLined(input: Input)
    requires Ordinary(input)
    ensures Lined(HumanText(input.reportingMta), 5)
  {
    hide Lined, HostLine, SECOND_LINE, THIRD_LINE, LAST_LINE;
    var host := HostLine(input.reportingMta);
    HumanLines(host, SECOND_LINE, THIRD_LINE, LAST_LINE);
    HostLineOk(input.reportingMta);
    SecondLine();
    ThirdLine();
    LastLine();
    JoinedLined([host, [], SECOND_LINE, THIRD_LINE, LAST_LINE]);
  }

  lemma PlainText(s: octets)
    requires forall i | 0 <= i < |s| :: ' ' <= s[i] <= '~'
    ensures NoLineEnd(s)
  {
  }

  lemma HumanLines(host: octets, a: octets, b: octets, c: octets)
    ensures StatusLines.Joined([host, [], a, b, c])
         == host + CRLF + (CRLF + (a + CRLF + (b + CRLF + (c + CRLF))))
  {
    JoinedThree(a, b, c);
    JoinedCons([], [a, b, c]);
    JoinedCons(host, [[], a, b, c]);
    assert [host] + [[], a, b, c] == [host, [], a, b, c] && [[]] + [a, b, c] == [[], a, b, c];
    assert [] + CRLF == CRLF;
  }

  lemma MachineLined(input: Input)
    requires Valid(input) && Ordinary(input)
    ensures Lined(MachineText(input), FixedLines(input) - 19)
  {
    hide Valid, Ordinary, MachineText, Lined, StatusLines.LineOk, MachinePart.FieldText;
    MachineTextJoined(input);
    MachineLinesShort(input);
    JoinedLined(MachineLines(input));
  }

  lemma MachineLinesShort(input: Input)
    requires Valid(input) && Ordinary(input)
    ensures forall i | 0 <= i < |MachineLines(input)| :: NoLineEnd(MachineLines(input)[i]) && |MachineLines(input)[i]| <= 998
  {
    hide Valid, StatusLines.LineOk;
    ValidSizes(input);
    ValuesPlain(input);
    MachineLinesOk(input);
    forall i | 0 <= i < |MachineLines(input)| ensures NoLineEnd(MachineLines(input)[i]) {
      OkPlain(MachineLines(input)[i]);
    }
  }

  lemma FramedCutLined(parts: seq<octets>, boundary: octets)
    requires parts != [] && NoLineEnd(boundary) && |boundary| <= 70
    ensures Tidy(Framed(parts, boundary)) <==> Tidy(parts[0]) && Tidy(Framed(parts[1..], boundary))
    ensures LineCount(Framed(parts, boundary), false)
         == 2 + LineEnds(parts[0]) + LineCount(Framed(parts[1..], boundary), false)
  {
    hide Tidy, LineEnds, LineCount, Framed;
    var line, part, rest := Multipart.Dashed(boundary), parts[0], Framed(parts[1..], boundary);
    FramedCut(parts, boundary);
    Reassociated(line + CRLF, part + CRLF, rest);
    LineLined(line);
    TidyJoin(part, rest);
    CountJoin(part, rest, false);
    TidyJoin(line, part + CRLF + rest);
    CountJoin(line, part + CRLF + rest, false);
  }

  lemma ClosingLined(boundary: octets)
    requires NoLineEnd(boundary) && |boundary| <= 70
    ensures Lined(Framed([], boundary), 1) && LineCount(Framed([], boundary), false) == 1
  {
    hide Tidy, LineEnds, LineCount;
    var line := Multipart.Dashed(boundary) + "--";
    LineLined(line);
    LinedEmpty();
    TidyJoin(line, []);
    CountJoin(line, [], false);
    CountNone();
    assert line + CRLF + [] == Framed([], boundary);
  }

  lemma FramedPart(part: octets, rest: seq<octets>, boundary: octets)
    requires NoLineEnd(boundary) && |boundary| <= 70
    ensures Tidy(Framed([part] + rest, boundary)) <==> Tidy(part) && Tidy(Framed(rest, boundary))
    ensures LineCount(Framed([part] + rest, boundary), false)
         == 2 + LineEnds(part) + LineCount(Framed(rest, boundary), false)
  {
    hide Tidy, LineEnds, LineCount, Framed;
    assert ([part] + rest)[1..] == rest;
    FramedCutLined([part] + rest, boundary);
  }

  /** A framed body is tidy if and only if its parts are, and its lines are theirs and the boundary lines. */
  lemma FramedLined(a: octets, b: octets, c: octets, boundary: octets)
    requires NoLineEnd(boundary) && |boundary| <= 70
    ensures Tidy(Framed([a, b, c], boundary)) <==> Tidy(a) && Tidy(b) && Tidy(c)
    ensures LineCount(Framed([a, b, c], boundary), false) == LineEnds(a) + LineEnds(b) + LineEnds(c) + 7
  {
    hide Tidy, LineEnds, LineCount, Framed, NoLineEnd;
    ClosingLined(boundary);
    FramedPart(c, [], boundary);
    FramedPart(b, [c], boundary);
    FramedPart(a, [b, c], boundary);
    Listed(a, b, c);
  }

  lemma Listed(a: octets, b: octets, c: octets)
    ensures [c] + [] == [c] && [b] + [c] == [b, c] && [a] + [b, c] == [a, b, c]
  {
  }

  lemma HeaderIsOk(name: octets, value: octets)
    requires ValidName(name) && |name| <= 40 && NoLineEnd(value) && |value| <= 900
    ensures HeaderOk(Header(name, value))
  {
  }

  lemma PartHeadersOk(t: OriginalType)
    ensures HeadersOk(HUMAN_HEADERS) && HeadersOk(MACHINE_HEADERS) && HeadersOk(OriginalHeaders(t))
  {
    hide HeaderOk, ValidName, NoLineEnd, HeadersOk;
    ContentHeadersOk(t);
    HumanHeadersOk();
  }

  lemma HumanHeadersOk()
    ensures HeadersOk(HUMAN_HEADERS)
  {
    hide HeaderOk, ValidName, NoLineEnd;
    NamesOk();
    PlainText("text/plain; charset=us-ascii");
    PlainText("en");
    HeaderIsOk("Content-Type", "text/plain; charset=us-ascii");
    HeaderIsOk("Content-Language", "en");
  }

  lemma ContentHeadersOk(t: OriginalType)
    ensures HeadersOk(MACHINE_HEADERS) && HeadersOk(OriginalHeaders(t))
  {
    hide HeaderOk, ValidName, NoLineEnd;
    NamesOk();
    PlainText(ReportParser.DELIVERY_STATUS);
    PlainText(ReportParser.RFC822);
    PlainText(ReportParser.RFC822_HEADERS);
    HeaderIsOk("Content-Type", ReportParser.DELIVERY_STATUS);
    HeaderIsOk("Content-Type", TypeName(t));
  }

  lemma NamesOk()
    ensures ValidName("Content-Type") && ValidName("Content-Language")
  {
  }

  lemma OuterNamesOk()
    ensures ValidName("From") && ValidName("To") && ValidName("Subject") && ValidName("Date")
    ensures ValidName("Message-ID") && ValidName("Auto-Submitted") && ValidName("MIME-Version")
  {
  }

  lemma TokenPlain(token: octets)
    requires TokenOk(token)
    ensures NoLineEnd(token)
  {
  }

  lemma FromOk(domain: octets)
    requires NoLineEnd(domain) && |domain| <= MAX_DOMAIN
    ensures NoLineEnd("Mail Delivery System <MAILER-DAEMON@" + domain + ">")
  {
    PlainText("Mail Delivery System <MAILER-DAEMON@");
  }

  lemma TypeOk(boundary: octets)
    requires NoLineEnd(boundary)
    ensures NoLineEnd(ReportType(boundary))
  {
    PlainText("multipart/report");
    PlainText("; report-type=delivery-status");
    PlainText("; boundary=\"");
  }

  lemma ValidTransport(input: Input)
    requires Valid(input)
    ensures TokenOk(input.token) && NoLineEnd(input.nextHop)
  {
  }

  lemma OuterHeadersOk(input: Input, date: DateText, boundary: octets)
    requires Valid(input) && Ordinary(input) && NoLineEnd(boundary) && |boundary| <= 70
    ensures HeadersOk(OuterHeaders(input, date, boundary))
  {
    hide HeaderOk, Valid, ValidName;
    ValidTransport(input);
    TokenPlain(input.token);
    NamesOk();
    OuterNamesOk();
    FromOk(input.authorDomain);
    TypeOk(boundary);
    PlainText("Undelivered Mail Returned to Sender");
    PlainText("auto-replied");
    HeaderIsOk("From", "Mail Delivery System <MAILER-DAEMON@" + input.authorDomain + ">");
    HeaderIsOk("To", input.nextHop);
    HeaderIsOk("Subject", "Undelivered Mail Returned to Sender");
    HeaderIsOk("Date", date);
    HeaderIsOk("Message-ID", "<" + input.token + "@" + input.reportingMta + ">");
    HeaderIsOk("Auto-Submitted", "auto-replied");
    HeaderIsOk("MIME-Version", "1.0");
    HeaderIsOk("Content-Type", ReportType(boundary));
  }

  /** What a printed report starts from: checked values of ordinary size and a derived boundary. */
  ghost predicate Printable(hash: octets -> HexDigest, input: Input, boundary: octets) {
    Valid(input) && Ordinary(input) && Derived(hash, Parts(input), boundary)
  }

  lemma HumanRead(input: Input, date: DateText, boundary: octets)
    requires Valid(input) && Ordinary(input) && Embeddable(input, date, boundary)
    ensures ReportParser.ParsePart(HumanPart(input), 1, ReportParser.DEFAULT_OPTIONS) == Ok(HumanMessage(input))
  {
    hide PLAIN, Tidy, LineEnds, LineCount, HeadersOk, TypedBy, PartText, Valid, Ordinary, ContentType.Parse, HumanText;
    hide ReportParser.ParsePart, ReportText;
    HumanLined(input);
    CountEnds(HumanText(input.reportingMta), false);
    PartHeadersOk(input.originalType);
    PartTyped(input.originalType);
    HumanType();
    PartsSmaller(input, date, boundary);
    PartRead(HUMAN_HEADERS, 0, HumanText(input.reportingMta), 1,
             ContentType.Parse("text/plain; charset=us-ascii").value);
  }

  function HumanMessage(input: Input): ReportParser.Part {
    ReportParser.Part(Message(Fields(HUMAN_HEADERS), HumanText(input.reportingMta)), PLAIN)
  }

  function MachineMessage(input: Input): ReportParser.Part {
    ReportParser.Part(Message(Fields(MACHINE_HEADERS), MachineText(input)), ReportParser.DELIVERY_STATUS)
  }

  function OriginalMessage(input: Input): ReportParser.Part {
    ReportParser.Part(Message(Fields(OriginalHeaders(input.originalType)), Original(input)), TypeName(input.originalType))
  }

  lemma MachinePartRead(input: Input, date: DateText, boundary: octets)
    requires Valid(input) && Ordinary(input) && Embeddable(input, date, boundary)
    ensures ReportParser.ParsePart(MachinePartText(input), 2, ReportParser.DEFAULT_OPTIONS) == Ok(MachineMessage(input))
  {
    hide Tidy, LineEnds, LineCount, HeadersOk, TypedBy, PartText, Valid, Ordinary, ContentType.Parse, MachineText;
    hide ReportParser.ParsePart, ReportText;
    MachineLined(input);
    CountEnds(MachineText(input), false);
    PartHeadersOk(input.originalType);
    PartTyped(input.originalType);
    MachineType();
    PartsSmaller(input, date, boundary);
    PartRead(MACHINE_HEADERS, 0, MachineText(input), 2, ContentType.MediaType(ReportParser.DELIVERY_STATUS, map[]));
  }

  lemma OriginalPartRead(input: Input, date: DateText, boundary: octets)
    requires Embeddable(input, date, boundary)
    ensures ReportParser.ParsePart(OriginalPart(input), 3, ReportParser.DEFAULT_OPTIONS) == Ok(OriginalMessage(input))
  {
    hide Tidy, LineEnds, LineCount, HeadersOk, TypedBy, PartText, ContentType.Parse, Original, TypeName;
    hide ReportParser.ParsePart, ReportText;
    CountEnds(Original(input), false);
    PartHeadersOk(input.originalType);
    PartTyped(input.originalType);
    OriginalTypeRead(input.originalType);
    PartsSmaller(input, date, boundary);
    PartRead(OriginalHeaders(input.originalType), 0, Original(input), 3,
             ContentType.MediaType(TypeName(input.originalType), map[]));
  }

  lemma PartsRead(a: octets, b: octets, c: octets, options: ReportParser.Options)
    requires ReportParser.ParsePart(a, 1, options).Ok?
    requires ReportParser.ParsePart(b, 2, options).Ok? && ReportParser.ParsePart(c, 3, options).Ok?
    ensures ReportParser.ParseParts([a, b, c], options) == Ok([
      ReportParser.ParsePart(a, 1, options).value, ReportParser.ParsePart(b, 2, options).value,
      ReportParser.ParsePart(c, 3, options).value])
  {
    hide ReportParser.ParsePart, ReportParser.ParseParts;
    assert [] + [a] == [a] && [a] + [b] == [a, b] && [a, b] + [c] == [a, b, c];
    PartsEmpty(options);
    PartsSnoc([], a, options);
    PartsSnoc([a], b, options);
    PartsSnoc([a, b], c, options);
    var x, y := ReportParser.ParsePart(a, 1, options).value, ReportParser.ParsePart(b, 2, options).value;
    var z := ReportParser.ParsePart(c, 3, options).value;
    assert [] + [x] + [y] + [z] == [x, y, z];
  }

  lemma PartsEmpty(options: ReportParser.Options)
    ensures ReportParser.ParseParts([], options) == Ok([])
  {
  }

  lemma PartsSnoc(init: seq<octets>, last: octets, options: ReportParser.Options)
    requires ReportParser.ParseParts(init, options).Ok? && ReportParser.ParsePart(last, |init| + 1, options).Ok?
    ensures ReportParser.ParseParts(init + [last], options)
         == Ok(ReportParser.ParseParts(init, options).value + [ReportParser.ParsePart(last, |init| + 1, options).value])
  {
    hide ReportParser.ParsePart;
    assert (init + [last])[..|init|] == init;
  }

  /** The lines of the report body, exactly: it is as tidy as the embedded original. */
  lemma BodyLined(input: Input, boundary: octets)
    requires Valid(input) && Ordinary(input) && NoLineEnd(boundary) && |boundary| <= 70
    ensures Tidy(Framed(Parts(input), boundary)) <==> Tidy(Original(input))
    ensures LineCount(Framed(Parts(input), boundary), false) == LineEnds(Original(input)) + FixedLines(input)
  {
    hide Tidy, LineEnds, LineCount, HeadersOk, PartText, Valid, Ordinary, Original, MachineText, HumanText, Framed;
    hide TypeName;
    HumanLined(input);
    MachineLined(input);
    PartHeadersOk(input.originalType);
    PartLined(HUMAN_HEADERS, HumanText(input.reportingMta));
    PartLined(MACHINE_HEADERS, MachineText(input));
    PartLined(OriginalHeaders(input.originalType), Original(input));
    FramedLined(HumanPart(input), MachinePartText(input), OriginalPart(input), boundary);
  }

  /** The raw-message parser accepts a printed report if and only if the embedded original is embeddable. */
  lemma MessageRead(hash: octets -> HexDigest, input: Input, date: DateText, boundary: octets)
    requires Printable(hash, input, boundary)
    ensures MessageParser.Parse(ReportText(input, date, boundary), DEFAULTS) ==
      if Embeddable(input, date, boundary)
      then Some(Message(Fields(OuterHeaders(input, date, boundary)), Framed(Parts(input), boundary))) else None
  {
    hide Tidy, LineEnds, LineCount, HeadersOk, PartText, Valid, Ordinary, Original, Framed, FixedLines;
    hide OuterHeaders, Derived, Fields, MessageParser.Parse, Parts, ReportParser.ValidBoundary;
    DerivedValid(hash, Parts(input), boundary);
    OuterHeadersOk(input, date, boundary);
    OuterCount(input, date, boundary);
    BodyLined(input, boundary);
    PartParsed(OuterHeaders(input, date, boundary), Framed(Parts(input), boundary));
  }

  /** An embeddable original is read back: the structural parser returns exactly the machine part and the original
      that were written. Any other original is refused. */
  lemma ReportRead(hash: octets -> HexDigest, input: Input, date: DateText, boundary: octets)
    requires Printable(hash, input, boundary)
    ensures var report := ReportParser.Parse(ReportText(input, date, boundary), ReportParser.DEFAULT_OPTIONS);
      if Embeddable(input, date, boundary)
      then
        && report.Ok? && report.value.human == HumanMessage(input) && report.value.status == MachineMessage(input)
        && report.value.original == OriginalMessage(input)
      else report.Err?
  {
    hide Tidy, HeadersOk, PartText, Valid, Ordinary, Original, MachineText, HumanText, Framed, Embeddable;
    hide OuterHeaders, HumanPart, MachinePartText, OriginalPart, Collides, Derived, TypeName, Fields, ReportText;
    hide ReportParser.ParsePart, ReportParser.ParseParts, ReportParser.BoundaryOf, MessageParser.Parse;
    hide Multipart.Split, ReportParser.ValidBoundary;
    MessageRead(hash, input, date, boundary);
    if Embeddable(input, date, boundary) {
      EmbeddableSize(input, date, boundary);
      DerivedValid(hash, Parts(input), boundary);
      OuterHeadersOk(input, date, boundary);
      BoundaryRead(input, date, boundary);
      FramedSplits(Parts(input), boundary);
      HumanRead(input, date, boundary);
      MachinePartRead(input, date, boundary);
      OriginalPartRead(input, date, boundary);
      PartsRead(HumanPart(input), MachinePartText(input), OriginalPart(input), ReportParser.DEFAULT_OPTIONS);
      TypeNames(input.originalType);
    }
  }

  lemma EmbeddableSize(input: Input, date: DateText, boundary: octets)
    requires Embeddable(input, date, boundary)
    ensures |ReportText(input, date, boundary)| <= MAX_MESSAGE_BYTES
  {
  }

  lemma TypeNames(t: OriginalType)
    ensures TypeName(t) == ReportParser.RFC822 || TypeName(t) == ReportParser.RFC822_HEADERS
  {
  }

  lemma OuterCount(input: Input, date: DateText, boundary: octets)
    ensures |OuterHeaders(input, date, boundary)| == 8
  {
  }

  /** The self-check of a printed report passes if and only if its values are readable and its embedded original
      is embeddable. */
  lemma SelfCheckIff(o: StatusReport.Oracles, hash: octets -> HexDigest, input: Input, date: DateText, boundary: octets)
    requires Printable(hash, input, boundary)
    ensures Proves(o, input, ReportText(input, date, boundary))
       <==> MachineReadable(o, input) && Embeddable(input, date, boundary)
  {
    hide ReportText, Valid, Ordinary, Embeddable, Derived, MachineText, Original, MachineReadable;
    hide ReportParser.Parse, StatusReport.ParseBody;
    ReportRead(hash, input, date, boundary);
    if Embeddable(input, date, boundary) {
      MachineIff(o, input);
      ActionRead();
      if MachineReadable(o, input) {
        StatedFacts(o, input);
      }
    }
  }

  lemma StatedFacts(o: StatusReport.Oracles, input: Input)
    requires MachineReadable(o, input)
    ensures var status := Stated(o, input);
      && |status.recipients| == 1 && StatusFields.EqualFold(status.recipients[0].action, "failed")
      && (status.envelopeId.Some? <==> input.envelopeId.Some?)
  {
    hide MachineReadable;
  }

  // ---- Transport facts

  lemma NonAsciiConcat(a: octets, b: octets)
    ensures NonAscii(a + b) <==> NonAscii(a) || NonAscii(b)
  {
    var s := a + b;
    if NonAscii(s) {
      var i :| 0 <= i < |s| && s[i] >= 128 as char;
      assert if i < |a| then a[i] == s[i] else b[i - |a|] == s[i];
    }
    if NonAscii(a) {
      var i :| 0 <= i < |a| && a[i] >= 128 as char;
      assert s[i] == a[i];
    }
    if NonAscii(b) {
      var i :| 0 <= i < |b| && b[i] >= 128 as char;
      assert s[|a| + i] == b[i];
    }
  }

  lemma AsciiMarks(boundary: octets)
    requires ReportParser.ValidBoundary(boundary, ReportParser.HARD_MAX_BOUNDARY)
    ensures !NonAscii(Multipart.Dashed(boundary)) && !NonAscii(CRLF) && !NonAscii("--")
  {
    forall i | 0 <= i < |boundary| ensures boundary[i] < 128 as char {
      assert ReportParser.BoundaryChar(boundary[i]);
    }
    forall i | 0 <= i < |Multipart.Dashed(boundary)| ensures Multipart.Dashed(boundary)[i] < 128 as char {
      assert i < 2 || Multipart.Dashed(boundary)[i] == boundary[i - 2];
    }
  }

  lemma {:induction false} FramedAscii(parts: seq<octets>, boundary: octets)
    requires ReportParser.ValidBoundary(boundary, ReportParser.HARD_MAX_BOUNDARY)
    ensures NonAscii(Framed(parts, boundary)) <==> exists i :: 0 <= i < |parts| && NonAscii(parts[i])
  {
    hide NonAscii, Multipart.Dashed;
    AsciiMarks(boundary);
    if parts == [] {
      NonAsciiConcat(Multipart.Dashed(boundary) + "--", CRLF);
      NonAsciiConcat(Multipart.Dashed(boundary), "--");
    } else {
      var dashed, part, rest := Multipart.Dashed(boundary), parts[0], parts[1..];
      FramedAscii(rest, boundary);
      NonAsciiConcat(dashed + CRLF + part + CRLF, Framed(rest, boundary));
      NonAsciiConcat(dashed + CRLF + part, CRLF);
      NonAsciiConcat(dashed + CRLF, part);
      NonAsciiConcat(dashed, CRLF);
      assert parts == [part] + rest;
    }
  }

  /** SMTPUTF8 and 8BITMIME together account for every non-ASCII octet of the report, the first for everything but
      the original's body. */
  lemma TransportFacts(hash: octets -> HexDigest, input: Input, date: DateText, boundary: octets)
    requires Derived(hash, Parts(input), boundary)
    ensures NonAscii(ReportText(input, date, boundary)) <==>
      NonAsciiHeaders(input, date, boundary) || NonAscii(input.originalBody)
  {
    hide NonAscii, Framed, HeaderText, OuterHeaders, HumanPart, MachinePartText, Derived, Collides, OriginalHeaders;
    hide ReportParser.ValidBoundary;
    DerivedValid(hash, Parts(input), boundary);
    AsciiMarks(boundary);
    var outer, framed := HeaderText(OuterHeaders(input, date, boundary)), Framed(Parts(input), boundary);
    NonAsciiConcat(outer + CRLF, framed);
    NonAsciiConcat(outer, CRLF);
    FramedAscii(Parts(input), boundary);
    assert Parts(input)[0] == HumanPart(input) && Parts(input)[1] == MachinePartText(input)
        && Parts(input)[2] == OriginalPart(input);
    var head := HeaderText(OriginalHeaders(input.originalType)) + CRLF + input.originalHeaders;
    assert OriginalPart(input) == head + input.originalBody;
    NonAsciiConcat(head, input.originalBody);
  }
}
