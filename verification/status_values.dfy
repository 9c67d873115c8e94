/** What the delivery-status vocabulary accepts, said by its grammars: field names, the ABNF order of RFC 3464, status
    codes, and xtext. */
module StatusValues {
  import opened Octets
  import opened StatusFields

  // ---- Names and order

  /** The field names of sections 2.2 and 2.3 of RFC 3464, in lower case. */
  function LowerName(kind: Kind): (r: octets)
    requires kind != Extension
  {
    match kind
    case OriginalEnvelopeId => "original-envelope-id"
    case ReportingMta => "reporting-mta"
    case DsnGateway => "dsn-gateway"
    case ReceivedFromMta => "received-from-mta"
    case ArrivalDate => "arrival-date"
    case OriginalRecipient => "original-recipient"
    case FinalRecipient => "final-recipient"
    case Action => "action"
    case Status => "status"
    case RemoteMta => "remote-mta"
    case DiagnosticCode => "diagnostic-code"
    case LastAttemptDate => "last-attempt-date"
    case FinalLogId => "final-log-id"
    case WillRetryUntil => "will-retry-until"
  }

  /** The length and the first letter of a field name tell it from every other field name. */
  function Mark(kind: Kind): (nat, char)
    requires kind != Extension
  {
    match kind
    case OriginalEnvelopeId => (20, 'o')
    case ReportingMta => (13, 'r')
    case DsnGateway => (11, 'd')
    case ReceivedFromMta => (17, 'r')
    case ArrivalDate => (12, 'a')
    case OriginalRecipient => (18, 'o')
    case FinalRecipient => (15, 'f')
    case Action => (6, 'a')
    case Status => (6, 's')
    case RemoteMta => (10, 'r')
    case DiagnosticCode => (15, 'd')
    case LastAttemptDate => (17, 'l')
    case FinalLogId => (12, 'f')
    case WillRetryUntil => (16, 'w')
  }

  lemma MarkOfName(kind: Kind)
    requires kind != Extension
    ensures |LowerName(kind)| == Mark(kind).0 && LowerName(kind)[0] == Mark(kind).1
  {
  }

  lemma NamesDiffer(a: Kind, b: Kind)
    requires a != Extension && b != Extension && LowerName(a) == LowerName(b)
    ensures a == b
  {
    hide LowerName;
    MarkOfName(a);
    MarkOfName(b);
  }

  lemma ClassifyLowerIs(name: octets)
    ensures var kind := ClassifyLower(name);
      if kind == Extension then forall k: Kind | k != Extension :: name != LowerName(k) else name == LowerName(kind)
  {
  }

  /** A name is classified as a known field exactly when it is that field's name in any letter case. */
  lemma ClassifyIff(name: octets, kind: Kind)
    requires kind != Extension
    ensures Classify(name) == kind <==> Lower(name) == LowerName(kind)
  {
    hide Lower, ClassifyLower, LowerName;
    ClassifyLowerIs(Lower(name));
    if Lower(name) == LowerName(kind) {
      NamesDiffer(Classify(name), kind);
    }
  }

  /** The fields of a group in ABNF order: group 0 is about the message, every other one about a recipient. */
  function AbnfOrder(index: nat): seq<Kind> {
    if index == 0 then [OriginalEnvelopeId, ReportingMta, DsnGateway, ReceivedFromMta, ArrivalDate]
    else [OriginalRecipient, FinalRecipient, Action, Status, RemoteMta, DiagnosticCode, LastAttemptDate, FinalLogId,
          WillRetryUntil]
  }

  lemma RankAt(index: nat, i: nat)
    requires i < |AbnfOrder(index)|
    ensures Rank(index, AbnfOrder(index)[i]) == Some(i) && i < 9
  {
  }

  lemma Listed(index: nat, kind: Kind)
    requires Rank(index, kind).Some? && kind != Extension
    ensures kind in AbnfOrder(index)
  {
    assert Rank(index, kind).value < |AbnfOrder(index)|;
    assert AbnfOrder(index)[Rank(index, kind).value] == kind;
  }

  /** Ranks follow the ABNF: exactly the fields of the group have one, an extension has one above all, and ranks grow
      along the order. */
  lemma RankFollowsAbnf(index: nat, kind: Kind, i: nat, j: nat)
    requires i < j < |AbnfOrder(index)|
    ensures Rank(index, kind).Some? <==> kind in AbnfOrder(index) || kind == Extension
    ensures Rank(index, AbnfOrder(index)[i]).Some? && Rank(index, AbnfOrder(index)[j]).Some?
    ensures Rank(index, Extension).Some?
    ensures Rank(index, AbnfOrder(index)[i]).value < Rank(index, AbnfOrder(index)[j]).value < Rank(index, Extension).value
  {
    RankAt(index, i);
    RankAt(index, j);
    ExtensionRank(index);
    hide Rank, AbnfOrder;
    if Rank(index, kind).Some? && kind != Extension {
      Listed(index, kind);
    }
    if kind in AbnfOrder(index) {
      var k :| 0 <= k < |AbnfOrder(index)| && AbnfOrder(index)[k] == kind;
      RankAt(index, k);
    }
  }

  lemma ExtensionRank(index: nat)
    ensures Rank(index, Extension) == Some(100)
  {
  }

  // ---- Status codes

  /** One to three digits without a leading zero. */
  predicate Numeral(s: octets) {
    && 1 <= |s| <= 3 && (forall c | c in s :: '0' <= c <= '9') && ("0" <= s ==> s == "0")
  }

  /** A class 2, 4 or 5, a subject and a detail (section 2 of RFC 3463). */
  ghost predicate Code(s: octets, severity: char, subject: octets, detail: octets) {
    severity in {'2', '4', '5'} && Numeral(subject) && Numeral(detail) && s == [severity] + "." + subject + "." + detail
  }

  lemma ComponentIff(s: octets)
    ensures CodeComponent(s) <==> Numeral(s)
  {
    if CodeComponent(s) {
      assert |s| == 1 ==> s == [s[0]];
    }
    if Numeral(s) {
      forall i | 0 <= i < |s| ensures '0' <= s[i] <= '9' {
        assert s[i] in s;
      }
      assert s[0] == '0' ==> s[..1] == "0";
    }
  }

  lemma CodeParts(s: octets)
    requires ValidCode(s)
    ensures exists severity: char, subject: octets, detail: octets :: Code(s, severity, subject, detail)
  {
    hide CodeComponent, Numeral;
    var end := IndexByte(s[2..], '.').value;
    var subject, detail := s[2..end + 2], s[end + 3..];
    ComponentIff(subject);
    ComponentIff(detail);
    assert s == [s[0]] + "." + subject + "." + detail by {
      assert s[2..][end] == '.';
    }
    assert Code(s, s[0], subject, detail);
  }

  lemma CodeAccepted(severity: char, subject: octets, detail: octets)
    requires Code([severity] + "." + subject + "." + detail, severity, subject, detail)
    ensures ValidCode([severity] + "." + subject + "." + detail)
  {
    hide CodeComponent;
    var s := [severity] + "." + subject + "." + detail;
    ComponentIff(subject);
    ComponentIff(detail);
    assert s[2..] == subject + ['.'] + detail;
    assert '.' !in subject;
    IndexByteAt(subject, '.', detail);
    assert s[2..|subject| + 2] == subject && s[|subject| + 3..] == detail;
  }

  /** A status code is accepted exactly when it is a class, a subject and a detail. */
  lemma CodeIff(s: octets)
    ensures ValidCode(s) <==> exists severity: char, subject: octets, detail: octets :: Code(s, severity, subject, detail)
  {
    if ValidCode(s) {
      CodeParts(s);
    }
    forall severity: char, subject: octets, detail: octets | Code(s, severity, subject, detail) ensures ValidCode(s) {
      CodeAccepted(severity, subject, detail);
    }
  }

  // ---- Xtext

  function HexDigit(n: nat): (c: char)
    requires n < 16
    ensures UpperHex(c) && HexValue(c) == n
  {
    if n < 10 then '0' + n as char else 'A' + (n - 10) as char
  }

  /** The hexadecimal form of an octet (section 4 of RFC 3461). */
  function HexChar(c: char): octets
    requires c < 256 as char
  {
    ['+', HexDigit(c as nat / 16), HexDigit(c as nat % 16)]
  }

  /** Encoded text: every octet as itself, where it may stand for itself, or in hexadecimal. */
  ghost predicate Encodes(value: octets, text: octets) {
    if text == [] then value == []
    else
      || (XChar(text[0]) && value != [] && value[0] == text[0] && Encodes(value[1..], text[1..]))
      || (text[0] < 256 as char && |value| >= 3 && value[..3] == HexChar(text[0]) && Encodes(value[3..], text[1..]))
  }

  lemma HexRead(c: char, rest: octets)
    requires c < 256 as char
    ensures XText(HexChar(c) + rest) == XPrefixed([c], XText(rest))
  {
    var value := HexChar(c) + rest;
    assert value[3..] == rest;
  }

  lemma {:induction false} EncodedRead(value: octets, text: octets)
    requires Encodes(value, text)
    ensures XText(value) == Some(text)
  {
    if text != [] {
      assert text == [text[0]] + text[1..];
      if XChar(text[0]) && value != [] && value[0] == text[0] && Encodes(value[1..], text[1..]) {
        EncodedRead(value[1..], text[1..]);
      } else {
        EncodedRead(value[3..], text[1..]);
        HexRead(text[0], value[3..]);
        assert value == HexChar(text[0]) + value[3..];
      }
    }
  }

  lemma {:induction false} ReadEncoded(value: octets)
    requires XText(value).Some?
    ensures Encodes(value, XText(value).value)
  {
    if value != [] {
      var text := XText(value).value;
      if value[0] == '+' {
        ReadEncoded(value[3..]);
        assert text[1..] == XText(value[3..]).value;
        HexPair(value[1], value[2]);
        assert value[..3] == HexChar(text[0]);
      } else {
        ReadEncoded(value[1..]);
        assert text[1..] == XText(value[1..]).value;
      }
    }
  }

  lemma HexPair(a: char, b: char)
    requires UpperHex(a) && UpperHex(b)
    ensures 16 * HexValue(a) + HexValue(b) < 256
    ensures HexChar((16 * HexValue(a) + HexValue(b)) as char) == ['+', a, b]
  {
    HexDigitOf(a);
    HexDigitOf(b);
  }

  lemma HexDigitOf(c: char)
    requires UpperHex(c)
    ensures HexValue(c) < 16 && HexDigit(HexValue(c)) == c
  {
  }

  /** Decoding accepts exactly the encodings, and gives back the encoded text. */
  lemma XTextIff(value: octets, text: octets)
    ensures XText(value) == Some(text) <==> Encodes(value, text)
  {
    if XText(value) == Some(text) {
      ReadEncoded(value);
    }
    if Encodes(value, text) {
      EncodedRead(value, text);
    }
  }
}
