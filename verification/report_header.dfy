/** What the header block of a printed report carries when it is parsed. */
module ReportHeader {
  import opened Octets
  import opened RawMessage
  import opened Boundary
  import opened MachinePart
  import MessageParser
  import opened PropagationReport

  /** The block holds exactly one field of the name, with this value. */
  ghost predicate One(b: Block, name: octets, value: octets) {
    exists f :: Named(b, name) == [f] && f.Value() == " " + value
  }

  /** The domain of a bracketed address that ends a value: whatever stands behind the first `@`. */
  ghost predicate AddressDomain(value: octets, domain: octets) {
    exists front: octets :: value == front + "@" + domain + ">" && '@' !in front && '<' in front
  }

  /** The header block has a From at `domain`, is addressed to `nextHop`, and has a Message-ID made by `host`. */
  ghost predicate Carries(b: Block, domain: octets, nextHop: octets, date: octets, token: octets, host: octets) {
    && |b| == 8
    && (exists f :: Named(b, "from") == [f] && AddressDomain(f.Value(), domain))
    && One(b, "to", nextHop) && One(b, "date", date) && One(b, "message-id", "<" + token + "@" + host + ">")
    && One(b, "subject", "Undelivered Mail Returned to Sender")
    && One(b, "auto-submitted", "auto-replied") && One(b, "mime-version", "1.0")
    && |Named(b, "content-type")| == 1
  }

  const NAMES: seq<octets> :=
    ["from", "to", "subject", "date", "message-id", "auto-submitted", "mime-version", "content-type"]

  lemma NamesDiffer(i: nat, j: nat)
    requires i < |NAMES| && j < |NAMES| && NAMES[i] == NAMES[j]
    ensures i == j
  {
    var s, t := NAMES[i], NAMES[j];
    assert |s| == |t| && (|s| > 0 ==> s[0] == t[0]);
  }

  /** The headers have the eight names, in this order. */
  predicate NamedSo(headers: seq<Header>) {
    |headers| == |NAMES| && forall i | 0 <= i < |headers| :: Lower(headers[i].name) == NAMES[i]
  }

  lemma OuterNames(input: Input, date: DateText, boundary: octets)
    ensures NamedSo(OuterHeaders(input, date, boundary))
  {
    hide Lower;
    LowerIs("From", "from");
    LowerIs("To", "to");
    LowerIs("Subject", "subject");
    LowerIs("Date", "date");
    LowerIs("Message-ID", "message-id");
    LowerIs("Auto-Submitted", "auto-submitted");
    LowerIs("MIME-Version", "mime-version");
    LowerIs("Content-Type", "content-type");
  }

  lemma {:induction false} NamedNone(headers: seq<Header>, name: octets)
    requires forall i | 0 <= i < |headers| :: Lower(headers[i].name) != name
    ensures Named(Fields(headers), name) == []
  {
    if headers != [] {
      NamedNone(headers[1..], name);
      assert Fields(headers)[1..] == Fields(headers[1..]);
    }
  }

  lemma {:induction false} NamedAt(headers: seq<Header>, k: nat, name: octets)
    requires k < |headers| && forall i | 0 <= i < |headers| :: Lower(headers[i].name) == name <==> i == k
    ensures Named(Fields(headers), name) == [headers[k].ToField()]
  {
    assert Fields(headers)[1..] == Fields(headers[1..]);
    if k == 0 {
      NamedNone(headers[1..], name);
    } else {
      NamedAt(headers[1..], k - 1, name);
    }
  }

  /** The only field of the `k`-th name is the `k`-th field. */
  lemma FieldAt(headers: seq<Header>, k: nat)
    requires NamedSo(headers) && HeadersOk(headers) && k < |NAMES|
    ensures Named(Fields(headers), NAMES[k]) == [headers[k].ToField()]
    ensures One(Fields(headers), NAMES[k], headers[k].value)
  {
    hide Lower, HeaderOk;
    forall i | 0 <= i < |headers| && Lower(headers[i].name) == NAMES[k] ensures i == k {
      NamesDiffer(i, k);
    }
    NamedAt(headers, k, NAMES[k]);
    HeaderFieldOk(headers[k]);
  }

  lemma SenderText()
    ensures "Mail Delivery System <MAILER-DAEMON@" == "Mail Delivery System <MAILER-DAEMON" + "@"
  {
  }

  lemma Sender()
    ensures '@' !in "Mail Delivery System <MAILER-DAEMON" && '<' in "Mail Delivery System <MAILER-DAEMON"
  {
    assert "Mail Delivery System <MAILER-DAEMON"[21] == '<';
  }

  lemma Spaced(front: octets, domain: octets)
    requires '@' !in front && '<' in front
    ensures AddressDomain(" " + (front + "@" + domain + ">"), domain)
  {
    assert " " + (front + "@" + domain + ">") == (" " + front) + "@" + domain + ">";
  }

  lemma SenderDomain(domain: octets)
    ensures AddressDomain(" " + ("Mail Delivery System <MAILER-DAEMON@" + domain + ">"), domain)
  {
    hide AddressDomain;
    SenderText();
    Sender();
    Spaced("Mail Delivery System <MAILER-DAEMON", domain);
  }

  lemma OuterCarries(input: Input, date: DateText, boundary: octets)
    requires HeadersOk(OuterHeaders(input, date, boundary))
    ensures Carries(Fields(OuterHeaders(input, date, boundary)), input.authorDomain, input.nextHop, date, input.token,
                    input.reportingMta)
  {
    var h := OuterHeaders(input, date, boundary);
    hide Lower, HeadersOk, One, NamedSo, AddressDomain, Fields, ReportType, Named;
    OuterNames(input, date, boundary);
    FieldAt(h, 0);
    FieldAt(h, 1);
    FieldAt(h, 2);
    FieldAt(h, 3);
    FieldAt(h, 4);
    FieldAt(h, 5);
    FieldAt(h, 6);
    FieldAt(h, 7);
    SenderDomain(input.authorDomain);
    SenderValue(h);
  }

  lemma SenderValue(headers: seq<Header>)
    requires HeadersOk(headers) && headers != []
    ensures headers[0].ToField().Value() == " " + headers[0].value
  {
    hide HeaderOk;
    HeaderFieldOk(headers[0]);
  }

  /** A printed report that parses has one From at the author's domain, one To for the next hop, and one Message-ID of
      the reporting host. */
  lemma HeaderRead(hash: octets -> HexDigest, input: Input, date: DateText, boundary: octets)
    requires Printable(hash, input, boundary)
    ensures var parsed := MessageParser.Parse(ReportText(input, date, boundary), MessageParser.DEFAULTS);
      parsed.Some? ==>
        Carries(parsed.value.headers, input.authorDomain, input.nextHop, date, input.token, input.reportingMta)
  {
    hide ReportText, Valid, Ordinary, Embeddable, Derived, OuterHeaders, Carries, HeadersOk, MessageParser.Parse;
    MessageRead(hash, input, date, boundary);
    DerivedValid(hash, Parts(input), boundary);
    OuterHeadersOk(input, date, boundary);
    OuterCarries(input, date, boundary);
  }
}
