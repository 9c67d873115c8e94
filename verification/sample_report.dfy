/** A received report that frames its original with fewer lines than the printer does: no human text, and only the
    mandatory status fields. */
module SampleReport {
  import opened Octets
  import opened RawMessage
  import opened MachinePart
  import opened Boundary
  import opened PropagationReport
  import opened TextLines
  import ContentType
  import HeaderHash
  import MessageParser
  import Multipart
  import ReportParser
  import StatusFields

  const MARK: octets := "Z"
  const RECIPIENT: octets := "user@example"

  /** The values of the machine part; it uses only the host, the recipient and the status. */
  const STATED := Input("mx.example", "example", 1, "abcdefgh12345678", "<back@example>", RECIPIENT, "5.0.0", None, None,
                        Rfc822, "x", [])

  const TERSE_HEADERS := [Header("Content-Type", "text/plain")]

  const OUTER_HEADERS := [
    Header(HeaderHash.INSTANCE_NAME, "m=1"), Header(HeaderHash.SIGNATURE_NAME, "i=1; m=1"),
    Header("Content-Type", ReportType(MARK))]

  function TerseParts(original: octets): seq<octets> {
    [PartText(TERSE_HEADERS, []), PartText(MACHINE_HEADERS, MachineText(STATED)), PartText(OriginalHeaders(Rfc822), original)]
  }

  function TerseReport(original: octets): octets {
    PartText(OUTER_HEADERS, Framed(TerseParts(original), MARK))
  }

  // ---- The boundary occurs in no part

  predicate Unmarked(s: octets) {
    'Z' !in s
  }

  lemma UnmarkedConcat(a: octets, b: octets)
    ensures Unmarked(a + b) <==> Unmarked(a) && Unmarked(b)
  {
  }

  lemma UnmarkedText(s: octets)
    requires forall i | 0 <= i < |s| :: s[i] != 'Z'
    ensures Unmarked(s)
  {
  }

  lemma UnmarkedFree(s: octets)
    requires Unmarked(s)
    ensures !Contains(s, Multipart.Dashed(MARK))
  {
    forall i | 0 <= i <= |s| ensures !OccursAt(s, i, Multipart.Dashed(MARK)) {
      if i + 3 <= |s| {
        assert s[i..i + 3][2] == s[i + 2] && Multipart.Dashed(MARK)[2] == 'Z';
      }
    }
  }

  lemma UnmarkedField(name: octets, value: octets)
    requires Unmarked(name) && Unmarked(value)
    ensures Unmarked(MachinePart.FieldText(name, value) + CRLF)
  {
    UnmarkedConcat(name, ": ");
    UnmarkedConcat(name + ": ", value);
    UnmarkedConcat(name + ": " + value, CRLF);
  }

  lemma UnmarkedMachine()
    ensures Unmarked(MachineText(STATED))
  {
    hide Unmarked, MachinePart.FieldText;
    UnmarkedText("Reporting-MTA");
    UnmarkedText("dns; " + "mx.example");
    UnmarkedText("Final-Recipient");
    UnmarkedText("rfc822; " + RECIPIENT);
    UnmarkedText("Action");
    UnmarkedText("failed");
    UnmarkedText("Status");
    UnmarkedText("5.0.0");
    UnmarkedText(CRLF);
    UnmarkedText([]);
    UnmarkedField("Reporting-MTA", "dns; " + "mx.example");
    UnmarkedField("Final-Recipient", "rfc822; " + RECIPIENT);
    UnmarkedField("Action", "failed");
    UnmarkedField("Status", "5.0.0");
    var mta := MachinePart.FieldText("Reporting-MTA", "dns; " + "mx.example") + CRLF;
    var final := MachinePart.FieldText("Final-Recipient", "rfc822; " + RECIPIENT) + CRLF;
    var action, status := MachinePart.FieldText("Action", "failed") + CRLF, MachinePart.FieldText("Status", "5.0.0") + CRLF;
    UnmarkedConcat([], mta);
    UnmarkedConcat(action, status);
    UnmarkedConcat(final, action + status);
    UnmarkedConcat([], final + (action + status));
    UnmarkedConcat([] + mta, CRLF);
    UnmarkedConcat([] + mta + CRLF, [] + (final + (action + status)));
  }

  lemma UnmarkedPart(value: octets, body: octets)
    requires Unmarked(value) && Unmarked(body)
    ensures Unmarked(PartText([Header("Content-Type", value)], body))
  {
    hide Unmarked;
    var h := Header("Content-Type", value);
    UnmarkedText("Content-Type: ");
    UnmarkedText(CRLF);
    UnmarkedConcat("Content-Type: ", value);
    UnmarkedConcat("Content-Type: " + value, CRLF);
    UnmarkedConcat("Content-Type: " + value + CRLF, CRLF);
    UnmarkedConcat("Content-Type: " + value + CRLF + CRLF, body);
    HeaderTextOne(h);
    assert h.Line() == "Content-Type: " + value;
  }

  lemma HeaderTextOne(h: Header)
    ensures HeaderText([h]) == h.Line() + CRLF
  {
    hide Header.Line;
    assert [h][1..] == [];
    assert HeaderText([]) == [] && h.Line() + CRLF + [] == h.Line() + CRLF;
  }

  lemma TerseFree(original: octets)
    requires Unmarked(original)
    ensures !Collides(TerseParts(original), MARK)
  {
    hide Unmarked, Contains, PartText, MachineText;
    UnmarkedText([]);
    UnmarkedText("text/plain");
    UnmarkedText(ReportParser.DELIVERY_STATUS);
    UnmarkedText(ReportParser.RFC822);
    UnmarkedMachine();
    UnmarkedPart("text/plain", []);
    UnmarkedPart(ReportParser.DELIVERY_STATUS, MachineText(STATED));
    UnmarkedPart(ReportParser.RFC822, original);
    UnmarkedFree(TerseParts(original)[0]);
    UnmarkedFree(TerseParts(original)[1]);
    UnmarkedFree(TerseParts(original)[2]);
  }

  // ---- The values are in order

  lemma StatedCode()
    ensures FailureCode("5.0.0")
  {
    IndexByteAt("0", '.', "0");
    assert "5.0.0"[2..] == "0" + ['.'] + "0";
    assert "5.0.0"[2..3] == "0" && "5.0.0"[4..] == "0";
  }

  lemma StatedToken()
    ensures TokenOk("abcdefgh12345678")
  {
  }

  lemma StatedPaths()
    ensures |"<back@example>"| == 14 && !SourceRouted("<back@example>") && |RECIPIENT| == 12 && RECIPIENT[0] == 'u'
  {
  }

  lemma StatedValid()
    ensures Valid(STATED) && Ordinary(STATED)
  {
    hide FailureCode, TokenOk, SourceRouted, NoLineEnd, StatusFields.XText, StatusFields.UnfoldedText;
    StatedCode();
    StatedToken();
    StatedPaths();
    PlainText("<back@example>");
    PlainText(RECIPIENT);
    PlainText("mx.example");
    PlainText("example");
  }

  lemma MarkValid()
    ensures ReportParser.ValidBoundary(MARK, ReportParser.HARD_MAX_BOUNDARY) && NoLineEnd(MARK) && |MARK| == 1
  {
  }

  lemma TerseType()
    ensures ContentType.Parse("text/plain") == Some(ContentType.MediaType("text/plain", map[]))
  {
    hide ContentType.Parse, LowerToken;
    LowerTokenText("text");
    LowerTokenText("plain");
    SimpleType("text", "plain");
    assert "text" + "/" + "plain" == "text/plain";
  }

  lemma TerseHeadersOk()
    ensures HeadersOk(TERSE_HEADERS) && TypedBy(TERSE_HEADERS, 0)
  {
    hide HeaderOk, ValidName, NoLineEnd, Lower;
    NamesOk();
    PlainText("text/plain");
    HeaderIsOk("Content-Type", "text/plain");
    IsContentType();
  }

  lemma ProtocolNames()
    ensures ValidName(HeaderHash.INSTANCE_NAME) && |HeaderHash.INSTANCE_NAME| == 16
    ensures ValidName(HeaderHash.SIGNATURE_NAME) && |HeaderHash.SIGNATURE_NAME| == 15
  {
  }

  lemma TerseOuterOk()
    ensures HeadersOk(OUTER_HEADERS) && TypedBy(OUTER_HEADERS, 2) && |ReportType(MARK)| <= 100
  {
    hide HeaderOk, ValidName, NoLineEnd, Lower, ReportType;
    NamesOk();
    ProtocolNames();
    PlainText("m=1");
    PlainText("i=1; m=1");
    MarkValid();
    TypeOk(MARK);
    TypeSize();
    HeaderIsOk(HeaderHash.INSTANCE_NAME, "m=1");
    HeaderIsOk(HeaderHash.SIGNATURE_NAME, "i=1; m=1");
    HeaderIsOk("Content-Type", ReportType(MARK));
    IsContentType();
    NotContentType(HeaderHash.INSTANCE_NAME);
    NotContentType(HeaderHash.SIGNATURE_NAME);
  }

  lemma TypeSize()
    ensures |ReportType(MARK)| <= 100
  {
  }

  // ---- The report is read

  /** The lines of the received report outside its original: six fewer than the printer's fixed lines. */
  const TERSE_LINES := 18

  lemma TerseLines(original: octets)
    ensures Tidy(Framed(TerseParts(original), MARK)) <==> Tidy(original)
    ensures MessageParser.LineCount(Framed(TerseParts(original), MARK), false) == LineEnds(original) + TERSE_LINES
  {
    hide Tidy, LineEnds, MessageParser.LineCount, HeadersOk, PartText, MachineText, Framed;
    StatedValid();
    MachineLined(STATED);
    LinedEmpty();
    TerseHeadersOk();
    PartHeadersOk(Rfc822);
    MarkValid();
    PartLined(TERSE_HEADERS, []);
    PartLined(MACHINE_HEADERS, MachineText(STATED));
    PartLined(OriginalHeaders(Rfc822), original);
    FramedLined(TerseParts(original)[0], TerseParts(original)[1], TerseParts(original)[2], MARK);
  }

  lemma TerseSize(original: octets)
    ensures |TerseReport(original)| <= |original| + 4000
    ensures |TerseParts(original)[0]| <= 4000 && |TerseParts(original)[1]| <= 4000
    ensures |TerseParts(original)[2]| <= |original| + 200
  {
    hide HeaderText, MachineText, Framed, Header.Line;
    StatedValid();
    MachineSize(STATED);
    TerseOuterOk();
    TerseHeaderSizes();
    FramedSize(TerseParts(original)[0], TerseParts(original)[1], TerseParts(original)[2], MARK);
  }

  lemma TerseHeaderSizes()
    ensures |HeaderText(TERSE_HEADERS)| <= 100 && |HeaderText(MACHINE_HEADERS)| <= 100
    ensures |HeaderText(OriginalHeaders(Rfc822))| <= 100 && |HeaderText(OUTER_HEADERS)| <= 1000
  {
    hide HeaderText, ReportType;
    HeaderTextSize(TERSE_HEADERS);
    PartHeaderSizes(Rfc822);
    TerseOuterOk();
    ProtocolNames();
    var h := OUTER_HEADERS;
    HeaderTextAt(h, 0);
    HeaderTextAt(h, 1);
    HeaderTextAt(h, 2);
    HeaderTextEmpty();
    assert h[0..] == h && h[3..] == [];
  }

  lemma TerseBoundary()
    ensures ReportParser.BoundaryOf(Fields(OUTER_HEADERS), ReportParser.DEFAULT_OPTIONS) == Ok(MARK)
  {
    hide HeadersOk, TypedBy, ContentType.Parse, ReportParser.RequiredContentType, ReportType, Lower;
    hide ReportParser.ValidBoundary;
    MarkValid();
    TerseOuterOk();
    ContentTypeRead(OUTER_HEADERS, 2, 0);
    ReportTypeRead(MARK);
    ReportNamesDiffer();
    LowerIs("delivery-status", "delivery-status");
  }

  function OuterMessage(original: octets): MessageParser.Message {
    MessageParser.Message(Fields(OUTER_HEADERS), Framed(TerseParts(original), MARK))
  }

  lemma TerseMessage(original: octets)
    requires Tidy(original) && LineEnds(original) + TERSE_LINES <= MessageParser.DEFAULTS.maxBodyLines
    requires |original| + 4000 <= MessageParser.MAX_MESSAGE_BYTES
    ensures MessageParser.Parse(TerseReport(original), MessageParser.DEFAULTS) == Some(OuterMessage(original))
  {
    hide Tidy, LineEnds, MessageParser.LineCount, HeadersOk, PartText, Framed, Fields, MessageParser.Parse, TerseParts;
    TerseLines(original);
    TerseSize(original);
    TerseOuterOk();
    PartParsed(OUTER_HEADERS, Framed(TerseParts(original), MARK));
  }

  lemma TersePartsRead(original: octets)
    requires Tidy(original) && LineEnds(original) + TERSE_LINES <= MessageParser.DEFAULTS.maxBodyLines
    requires |original| + 4000 <= MessageParser.MAX_MESSAGE_BYTES
    ensures var parts := ReportParser.ParseParts(TerseParts(original), ReportParser.DEFAULT_OPTIONS);
      && parts.Ok? && |parts.value| == 3
      && parts.value[1] == MachineMessage(STATED)
      && parts.value[2] == ReportParser.Part(
           MessageParser.Message(Fields(OriginalHeaders(Rfc822)), original), ReportParser.RFC822)
  {
    hide Tidy, LineEnds, MessageParser.LineCount, HeadersOk, TypedBy, PartText, MachineText, ContentType.Parse;
    hide ReportParser.ParsePart, ReportParser.ParseParts;
    TerseSize(original);
    StatedValid();
    MachineLined(STATED);
    CountEnds(MachineText(STATED), false);
    CountEnds(original, false);
    LinedEmpty();
    CountNone();
    TerseHeadersOk();
    TerseType();
    PartHeadersOk(Rfc822);
    PartTyped(Rfc822);
    MachineType();
    Rfc822Read();
    PartRead(TERSE_HEADERS, 0, [], 1, ContentType.MediaType("text/plain", map[]));
    PartRead(MACHINE_HEADERS, 0, MachineText(STATED), 2, ContentType.MediaType(ReportParser.DELIVERY_STATUS, map[]));
    PartRead(OriginalHeaders(Rfc822), 0, original, 3, ContentType.MediaType(ReportParser.RFC822, map[]));
    PartsRead(TerseParts(original)[0], TerseParts(original)[1], TerseParts(original)[2], ReportParser.DEFAULT_OPTIONS);
  }

  lemma ReadInSteps(data: octets, outer: MessageParser.Message, boundary: octets, encoded: seq<octets>,
                    parts: seq<ReportParser.Part>)
    requires |data| <= MessageParser.MAX_MESSAGE_BYTES && MessageParser.Parse(data, MessageParser.DEFAULTS) == Some(outer)
    requires ReportParser.BoundaryOf(outer.headers, ReportParser.DEFAULT_OPTIONS) == Ok(boundary)
    requires Multipart.Split(outer.body, boundary) == Ok(encoded) && |encoded| == 3
    requires ReportParser.ParseParts(encoded, ReportParser.DEFAULT_OPTIONS) == Ok(parts) && |parts| == 3
    requires parts[1].contentType == ReportParser.DELIVERY_STATUS && parts[2].contentType == ReportParser.RFC822
    ensures ReportParser.Parse(data, ReportParser.DEFAULT_OPTIONS)
         == Ok(ReportParser.Report(outer, parts[0], parts[1], parts[2]))
  {
    hide ReportParser.ParseParts, ReportParser.BoundaryOf, MessageParser.Parse, Multipart.Split;
  }

  /** A received report may use the whole line limit: the parser accepts it and reads its status body and its
      original. */
  lemma TerseRead(original: octets)
    requires Unmarked(original) && Tidy(original)
    requires LineEnds(original) + TERSE_LINES <= MessageParser.DEFAULTS.maxBodyLines
    requires |original| + 4000 <= MessageParser.MAX_MESSAGE_BYTES
    ensures var report := ReportParser.Parse(TerseReport(original), ReportParser.DEFAULT_OPTIONS);
      && report.Ok?
      && report.value.status.message.body == MachineText(STATED)
      && report.value.original.message.body == original && report.value.original.contentType == ReportParser.RFC822
  {
    hide Tidy, LineEnds, PartText, MachineText, Framed, Fields, TerseReport, Unmarked, TerseParts, ReportParser.Parse;
    hide ReportParser.ParseParts, ReportParser.BoundaryOf, MessageParser.Parse, Multipart.Split, Collides;
    TerseMessage(original);
    TerseSize(original);
    TerseBoundary();
    TerseFree(original);
    MarkValid();
    ThreeParts(original);
    FramedSplits(TerseParts(original), MARK);
    TersePartsRead(original);
    ReadInSteps(TerseReport(original), OuterMessage(original), MARK, TerseParts(original),
                ReportParser.ParseParts(TerseParts(original), ReportParser.DEFAULT_OPTIONS).value);
  }

  lemma ThreeParts(original: octets)
    ensures |TerseParts(original)| == 3
  {
  }
}
