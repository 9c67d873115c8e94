/** The structural parser of RFC 6522 reports: one multipart/report message of exactly three parts. */
module ReportParser {
  import opened Octets
  import opened RawMessage
  import opened Multipart
  import ContentType
  import MessageParser

  datatype Options = Options(maxMessageBytes: nat, maxPartBytes: nat, maxBoundaryBytes: nat)

  const HARD_MAX_BOUNDARY := 70

  const DEFAULT_OPTIONS := Options(MessageParser.MAX_MESSAGE_BYTES, MessageParser.MAX_MESSAGE_BYTES, HARD_MAX_BOUNDARY)

  /** A failure and the part it concerns; part 0 is the report itself. */
  datatype ReportError =
    | InvalidOptions
    | LimitExceeded(part: nat)
    | InvalidMessage
    | MissingContentType(part: nat)
    | InvalidContentType(part: nat)
    | InvalidReportType
    | InvalidBoundary
    | Unsplit(cause: SplitError)
    | InvalidPart(part: nat)
    | InvalidPartContentType(part: nat)

  datatype Part = Part(message: MessageParser.Message, contentType: octets)

  datatype Report = Report(message: MessageParser.Message, human: Part, status: Part, original: Part)

  const CONTENT_TYPE: octets := "content-type"
  const DELIVERY_STATUS: octets := "message/delivery-status"
  const RFC822: octets := "message/rfc822"
  const RFC822_HEADERS: octets := "text/rfc822-headers"

  predicate ValidOptions(options: Options) {
    && 0 < options.maxMessageBytes <= MessageParser.MAX_MESSAGE_BYTES
    && 0 < options.maxPartBytes <= options.maxMessageBytes
    && 0 < options.maxBoundaryBytes <= HARD_MAX_BOUNDARY
  }

  predicate BoundaryChar(c: char) {
    'A' <= c <= 'Z' || 'a' <= c <= 'z' || '0' <= c <= '9'
    || c in ['\'', '(', ')', '+', '_', ',', '-', '.', '/', ':', '=', '?', ' ']
  }

  /** The boundary grammar of section 5.1.1 of RFC 2046. */
  predicate ValidBoundary(boundary: octets, max: nat) {
    && 1 <= |boundary| <= max && boundary[|boundary| - 1] != ' '
    && forall i | 0 <= i < |boundary| :: BoundaryChar(boundary[i])
  }

  lemma BoundaryHasNoLineEnd(boundary: octets, max: nat)
    requires ValidBoundary(boundary, max)
    ensures NoLineEnd(boundary)
  {
    forall i | 0 <= i < |boundary| ensures boundary[i] != '\r' && boundary[i] != '\n' {
      assert BoundaryChar(boundary[i]);
    }
  }

  function RequiredContentType(b: Block, part: nat): Result<ContentType.MediaType, ReportError> {
    var fields := Named(b, CONTENT_TYPE);
    if fields == [] then Err(MissingContentType(part))
    else if |fields| != 1 then Err(InvalidContentType(part))
    else
      match ContentType.Parse(fields[0].Value())
      case None => Err(InvalidContentType(part))
      case Some(mediaType) => Ok(mediaType)
  }

  function ParameterOf(mediaType: ContentType.MediaType, name: octets): Option<octets> {
    if name in mediaType.parameters then Some(mediaType.parameters[name]) else None
  }

  /** The boundary of a multipart/report message with report-type delivery-status. */
  function BoundaryOf(b: Block, options: Options): Result<octets, ReportError> {
    match RequiredContentType(b, 0)
    case Err(e) => Err(e)
    case Ok(mediaType) =>
      if mediaType.name != "multipart/report" then Err(InvalidContentType(0))
      else
        match ParameterOf(mediaType, "report-type")
        case None => Err(InvalidReportType)
        case Some(kind) =>
          if Lower(kind) != "delivery-status" then Err(InvalidReportType)
          else
            match ParameterOf(mediaType, "boundary")
            case None => Err(InvalidBoundary)
            case Some(boundary) =>
              if ValidBoundary(boundary, options.maxBoundaryBytes) then Ok(boundary) else Err(InvalidBoundary)
  }

  function PartLimits(max: nat): MessageParser.Limits {
    MessageParser.DEFAULTS.(maxMessageBytes := max)
  }

  function ParsePart(encoded: octets, index: nat, options: Options): Result<Part, ReportError> {
    if |encoded| > options.maxPartBytes then Err(LimitExceeded(index))
    else
      match MessageParser.Parse(encoded, PartLimits(options.maxPartBytes))
      case None => Err(InvalidPart(index))
      case Some(message) =>
        match RequiredContentType(message.headers, index)
        case Err(e) => Err(e)
        case Ok(mediaType) => Ok(Part(message, mediaType.name))
  }

  /** The parts in order, or the first failure. */
  function ParseParts(encoded: seq<octets>, options: Options): Result<seq<Part>, ReportError> {
    if encoded == [] then Ok([])
    else
      match ParseParts(encoded[..|encoded| - 1], options)
      case Err(e) => Err(e)
      case Ok(parts) =>
        match ParsePart(encoded[|encoded| - 1], |encoded|, options)
        case Err(e) => Err(e)
        case Ok(part) => Ok(parts + [part])
  }

  lemma {:induction false} ParsePartsCount(encoded: seq<octets>, options: Options)
    ensures ParseParts(encoded, options).Ok? ==> |ParseParts(encoded, options).value| == |encoded|
  {
    hide ParsePart;
    if encoded != [] {
      ParsePartsCount(encoded[..|encoded| - 1], options);
    }
  }

  function Assemble(message: MessageParser.Message, parts: seq<Part>): Result<Report, ReportError>
    requires |parts| == 3
  {
    if parts[1].contentType != DELIVERY_STATUS then Err(InvalidPartContentType(2))
    else if parts[2].contentType != RFC822 && parts[2].contentType != RFC822_HEADERS
    then Err(InvalidPartContentType(3))
    else Ok(Report(message, parts[0], parts[1], parts[2]))
  }

  ghost function ParsedBody(message: MessageParser.Message, boundary: octets, options: Options): Result<Report, ReportError> {
    match Split(message.body, boundary)
    case Err(e) => Err(Unsplit(e))
    case Ok(encoded) =>
      if |encoded| != 3 then Err(Unsplit(InvalidPartCount))
      else
        match ParseParts(encoded, options)
        case Err(e) => Err(e)
        case Ok(parts) =>
          ParsePartsCount(encoded, options);
          Assemble(message, parts)
  }

  ghost function Parse(data: octets, options: Options): Result<Report, ReportError> {
    if !ValidOptions(options) then Err(InvalidOptions)
    else if |data| > options.maxMessageBytes then Err(LimitExceeded(0))
    else
      match MessageParser.Parse(data, PartLimits(options.maxMessageBytes))
      case None => Err(InvalidMessage)
      case Some(message) =>
        match BoundaryOf(message.headers, options)
        case Err(e) => Err(e)
        case Ok(boundary) => ParsedBody(message, boundary, options)
  }

  lemma {:induction false} ParsePartsFails(encoded: seq<octets>, i: nat, options: Options)
    requires i <= |encoded| && ParseParts(encoded[..i], options).Err?
    ensures ParseParts(encoded, options) == ParseParts(encoded[..i], options)
    decreases |encoded|
  {
    hide ParsePart;
    if i < |encoded| {
      assert encoded[..|encoded| - 1][..i] == encoded[..i];
      ParsePartsFails(encoded[..|encoded| - 1], i, options);
    } else {
      assert encoded[..i] == encoded;
    }
  }

  method ReadParts(encoded: seq<octets>, options: Options) returns (r: Result<seq<Part>, ReportError>)
    ensures r == ParseParts(encoded, options)
  {
    hide ParsePart;
    var parts: seq<Part> := [];
    var i := 0;
    assert encoded[..|encoded|] == encoded;
    while i < |encoded|
      invariant 0 <= i <= |encoded|
      invariant ParseParts(encoded[..i], options) == Ok(parts)
    {
      assert encoded[..i + 1][..i] == encoded[..i];
      var part := ParsePart(encoded[i], i + 1, options);
      if part.Err? {
        ParsePartsFails(encoded, i + 1, options);
        return Err(part.error);
      }
      parts := parts + [part.value];
      i := i + 1;
    }
    return Ok(parts);
  }

  method ParseWithOptions(data: octets, options: Options) returns (r: Result<Report, ReportError>)
    ensures r == Parse(data, options)
  {
    hide ParseParts, BoundaryOf, ValidOptions, Assemble, Split, MessageParser.Parse;
    if !ValidOptions(options) {
      return Err(InvalidOptions);
    }
    if |data| > options.maxMessageBytes {
      return Err(LimitExceeded(0));
    }
    var message := MessageParser.Parse(data, PartLimits(options.maxMessageBytes));
    if message.None? {
      return Err(InvalidMessage);
    }
    var boundary := BoundaryOf(message.value.headers, options);
    if boundary.Err? {
      return Err(boundary.error);
    }
    var encoded := SplitMultipart(message.value.body, boundary.value);
    if encoded.Err? {
      return Err(Unsplit(encoded.error));
    }
    if |encoded.value| != 3 {
      return Err(Unsplit(InvalidPartCount));
    }
    var parts := ReadParts(encoded.value, options);
    if parts.Err? {
      return Err(parts.error);
    }
    ParsePartsCount(encoded.value, options);
    return Assemble(message.value, parts.value);
  }
}
