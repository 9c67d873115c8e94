/** The field vocabulary of RFC 3464 delivery-status bodies: names, ranks inside a group, and value syntax. */
module StatusFields {
  import opened Octets

  datatype Kind =
    | Extension
    | OriginalEnvelopeId
    | ReportingMta
    | DsnGateway
    | ReceivedFromMta
    | ArrivalDate
    | OriginalRecipient
    | FinalRecipient
    | Action
    | Status
    | RemoteMta
    | DiagnosticCode
    | LastAttemptDate
    | FinalLogId
    | WillRetryUntil

  predicate FieldNameChar(c: char) {
    33 as char <= c <= 126 as char && c != ':'
  }

  predicate ValidFieldName(name: octets) {
    name != [] && forall i | 0 <= i < |name| :: FieldNameChar(name[i])
  }

  predicate EqualFold(a: octets, b: octets) {
    Lower(a) == Lower(b)
  }

  function ClassifyLower(name: octets): Kind {
    if name == "original-envelope-id" then OriginalEnvelopeId
    else if name == "reporting-mta" then ReportingMta
    else if name == "dsn-gateway" then DsnGateway
    else if name == "received-from-mta" then ReceivedFromMta
    else if name == "arrival-date" then ArrivalDate
    else if name == "original-recipient" then OriginalRecipient
    else if name == "final-recipient" then FinalRecipient
    else if name == "action" then Action
    else if name == "status" then Status
    else if name == "remote-mta" then RemoteMta
    else if name == "diagnostic-code" then DiagnosticCode
    else if name == "last-attempt-date" then LastAttemptDate
    else if name == "final-log-id" then FinalLogId
    else if name == "will-retry-until" then WillRetryUntil
    else Extension
  }

  function Classify(name: octets): Kind {
    ClassifyLower(Lower(name))
  }

  /** The position of a known field in the ABNF sequence of its group; none for a field of the other group. */
  function Rank(index: nat, kind: Kind): Option<nat> {
    if index == 0 then
      match kind
      case OriginalEnvelopeId => Some(0)
      case ReportingMta => Some(1)
      case DsnGateway => Some(2)
      case ReceivedFromMta => Some(3)
      case ArrivalDate => Some(4)
      case Extension => Some(100)
      case _ => None
    else
      match kind
      case OriginalRecipient => Some(0)
      case FinalRecipient => Some(1)
      case Action => Some(2)
      case Status => Some(3)
      case RemoteMta => Some(4)
      case DiagnosticCode => Some(5)
      case LastAttemptDate => Some(6)
      case FinalLogId => Some(7)
      case WillRetryUntil => Some(8)
      case Extension => Some(100)
      case _ => None
  }

  /** A group orders each of its fields in one place. */
  lemma RankInjective(index: nat, a: Kind, b: Kind)
    requires Rank(index, a).Some? && Rank(index, a) == Rank(index, b)
    ensures a == b
  {
  }

  // ---- Value syntax

  predicate TextChar(c: char) {
    c != 127 as char && (c >= ' ' || c == '\t')
  }

  predicate Text(value: octets) {
    forall i | 0 <= i < |value| :: TextChar(value[i])
  }

  predicate UnfoldedText(value: octets, allowEmpty: bool) {
    if value == [] then allowEmpty else Text(value)
  }

  predicate AtomChar(c: char) {
    33 as char <= c <= 126 as char && c !in ['(', ')', '<', '>', '@', ',', ';', ':', '\\', '"', '.', '[', ']']
  }

  predicate Atom(value: octets) {
    value != [] && forall i | 0 <= i < |value| :: AtomChar(value[i])
  }

  /** `type; text`, returning the text. An empty `requiredType` admits every type. */
  function TypedText(value: octets, requiredType: octets, allowEmpty: bool): Option<octets> {
    match IndexByte(value, ';')
    case None => None
    case Some(separator) =>
      var name := Trim(value[..separator]);
      var text := Trim(value[separator + 1..]);
      if (text == [] && !allowEmpty) || !Atom(name) || (requiredType != [] && !EqualFold(name, requiredType))
        || !Text(text)
      then None
      else Some(text)
  }

  const ACTIONS: seq<octets> := ["failed", "delayed", "delivered", "relayed", "expanded"]

  predicate ValidAction(value: octets) {
    Lower(value) in ACTIONS
  }

  predicate Digits(s: octets) {
    forall i | 0 <= i < |s| :: '0' <= s[i] <= '9'
  }

  predicate CodeComponent(value: octets) {
    1 <= |value| <= 3 && (|value| > 1 ==> value[0] != '0') && Digits(value)
  }

  predicate ValidCode(value: octets) {
    && |value| >= 5 && value[1] == '.' && value[0] in ['2', '4', '5']
    && match IndexByte(value[2..], '.')
       case None => false
       case Some(end) => end >= 1 && CodeComponent(value[2..end + 2]) && CodeComponent(value[end + 3..])
  }

  // ---- Xtext (section 4 of RFC 3461)

  predicate UpperHex(c: char) {
    '0' <= c <= '9' || 'A' <= c <= 'F'
  }

  function HexValue(c: char): nat
    requires UpperHex(c)
  {
    if c <= '9' then c as nat - '0' as nat else c as nat - 'A' as nat + 10
  }

  predicate XChar(c: char) {
    33 as char <= c <= 126 as char && c != '=' && c != '+'
  }

  function XText(value: octets): Option<octets> {
    if value == [] then Some([])
    else if value[0] == '+' then
      if |value| < 3 || !UpperHex(value[1]) || !UpperHex(value[2]) then None
      else match XText(value[3..])
        case None => None
        case Some(rest) => Some([(16 * HexValue(value[1]) + HexValue(value[2])) as char] + rest)
    else if !XChar(value[0]) then None
    else match XText(value[1..])
      case None => None
      case Some(rest) => Some([value[0]] + rest)
  }

  function XPrefixed(decoded: octets, rest: Option<octets>): Option<octets> {
    match rest case None => None case Some(more) => Some(decoded + more)
  }

  method DecodeXText(value: octets) returns (r: Option<octets>)
    ensures r == XText(value)
  {
    var decoded := [];
    var index := 0;
    assert XPrefixed([], XText(value)) == XText(value) by {
      if XText(value).Some? {
        assert [] + XText(value).value == XText(value).value;
      }
    }
    while index < |value|
      invariant 0 <= index <= |value|
      invariant XText(value) == XPrefixed(decoded, XText(value[index..]))
    {
      var current := value[index];
      XStep(decoded, value[index..]);
      if current == '+' {
        if index + 2 >= |value| || !UpperHex(value[index + 1]) || !UpperHex(value[index + 2]) {
          return None;
        }
        decoded := decoded + [(16 * HexValue(value[index + 1]) + HexValue(value[index + 2])) as char];
        assert value[index..][3..] == value[index + 3..];
        index := index + 3;
      } else {
        if !XChar(current) {
          return None;
        }
        decoded := decoded + [current];
        assert value[index..][1..] == value[index + 1..];
        index := index + 1;
      }
    }
    assert value[index..] == [] && decoded + [] == decoded;
    return Some(decoded);
  }

  /** One unit of xtext moves to the decoded side. */
  lemma XStep(decoded: octets, rest: octets)
    requires rest != []
    ensures XPrefixed(decoded, XText(rest)) ==
      if rest[0] == '+' then
        if |rest| < 3 || !UpperHex(rest[1]) || !UpperHex(rest[2]) then None
        else XPrefixed(decoded + [(16 * HexValue(rest[1]) + HexValue(rest[2])) as char], XText(rest[3..]))
      else if !XChar(rest[0]) then None
      else XPrefixed(decoded + [rest[0]], XText(rest[1..]))
  {
    if XText(rest).Some? {
      var unit := if rest[0] == '+' then 3 else 1;
      var head := XText(rest).value[..1];
      assert decoded + (head + XText(rest[unit..]).value) == decoded + head + XText(rest[unit..]).value;
    }
  }

  const MAX_ENVELOPE_ID := 100

  /** A bounded ENVID: the propagation renderer's own scan of the xtext grammar. */
  method ValidEnvelopeId(value: octets) returns (ok: bool)
    ensures ok <==> 1 <= |value| <= MAX_ENVELOPE_ID && XText(value).Some?
  {
    if value == [] || |value| > MAX_ENVELOPE_ID {
      return false;
    }
    var index := 0;
    while index < |value|
      invariant 0 <= index <= |value|
      invariant XText(value).Some? <==> XText(value[index..]).Some?
    {
      var current := value[index];
      if current == '+' {
        if index + 2 >= |value| || !UpperHex(value[index + 1]) || !UpperHex(value[index + 2]) {
          return false;
        }
        assert value[index..][3..] == value[index + 3..];
        index := index + 3;
      } else {
        if current < '!' || current > '~' || current == '=' {
          return false;
        }
        assert value[index..][1..] == value[index + 1..];
        index := index + 1;
      }
    }
    return true;
  }

  /** Xtext is plain printable text without WSP. */
  lemma {:induction false} XTextPrintable(value: octets)
    requires XText(value).Some?
    ensures forall i | 0 <= i < |value| :: 33 as char <= value[i] <= 126 as char
  {
    if value != [] {
      var unit := if value[0] == '+' then 3 else 1;
      XTextPrintable(value[unit..]);
      forall i | 0 <= i < |value| ensures 33 as char <= value[i] <= 126 as char {
        if i >= unit {
          assert value[i] == value[unit..][i - unit];
        }
      }
    }
  }
}
