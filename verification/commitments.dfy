/** Domain-separated, length-delimited commitments over datasource administration records. */
module Commitments {
  import opened Octets
  import opened Sorting

  type Uint32 = n: nat | n < 0x1_0000_0000
  type Uint64 = n: nat | n < 0x1_0000_0000_0000_0000

  /** A 32-octet SHA-256 value; only a nonzero one is an initialized commitment. */
  type Digest = d: octets | |d| == 32 witness seq(32, _ => '\0')

  predicate Initialized(d: Digest) {
    exists i :: 0 <= i < |d| && d[i] != '\0'
  }

  // ---- Framing

  /** One framed value: a length-delimited string, a fixed-width number, or a fixed-width digest. */
  datatype Token = Text(text: octets) | Count(count: Uint32) | Generation(generation: Uint64) | Hash(digest: Digest)

  function Byte(n: nat): char
    requires n < 256
  {
    n as char
  }

  function BigEndian32(n: Uint32): (r: octets)
    ensures |r| == 4
  {
    [Byte(n / 0x100_0000), Byte(n / 0x1_0000 % 256), Byte(n / 0x100 % 256), Byte(n % 256)]
  }

  function BigEndian64(n: Uint64): (r: octets)
    ensures |r| == 8
  {
    BigEndian32(n / 0x1_0000_0000) + BigEndian32(n % 0x1_0000_0000)
  }

  /** A Go count conversion: the length modulo the width of its frame. */
  function Length32(s: octets): Uint32 {
    |s| % 0x1_0000_0000
  }

  function Frame(t: Token): octets {
    match t
    case Text(text) => BigEndian32(Length32(text)) + text
    case Count(n) => BigEndian32(n)
    case Generation(n) => BigEndian64(n)
    case Hash(d) => d
  }

  function Framed(tokens: seq<Token>): octets {
    if tokens == [] then [] else Framed(tokens[..|tokens| - 1]) + Frame(tokens[|tokens| - 1])
  }

  /** Tokens of one kind, and texts short enough for their frame. */
  predicate Alike(a: Token, b: Token) {
    match a
    case Text(x) => b.Text? && |x| < 0x1_0000_0000 && |b.text| < 0x1_0000_0000
    case Count(_) => b.Count?
    case Generation(_) => b.Generation?
    case Hash(_) => b.Hash?
  }

  predicate SameShape(a: seq<Token>, b: seq<Token>) {
    |a| == |b| && forall i | 0 <= i < |a| :: Alike(a[i], b[i])
  }

  lemma Digits32(n: nat)
    requires n < 0x1_0000_0000
    ensures n == 0x100_0000 * (n / 0x100_0000) + 0x1_0000 * (n / 0x1_0000 % 256) + 0x100 * (n / 0x100 % 256) + n % 256
  {
    assert n / 0x1_0000 / 256 == n / 0x100_0000;
    assert n / 0x100 / 256 == n / 0x1_0000;
  }

  /** The number a run of octets writes, most significant octet first. */
  function Read(bytes: octets): nat {
    if bytes == [] then 0 else 0x100 * Read(bytes[..|bytes| - 1]) + bytes[|bytes| - 1] as nat
  }

  lemma ReadSnoc(bytes: octets, last: char)
    ensures Read(bytes + [last]) == 0x100 * Read(bytes) + last as nat
  {
    assert (bytes + [last])[..|bytes|] == bytes;
  }

  lemma ReadWord(bytes: octets, n: Uint32)
    ensures Read(bytes + BigEndian32(n)) == 0x1_0000_0000 * Read(bytes) + n
  {
    var b3, b2, b1, b0 := Byte(n / 0x100_0000), Byte(n / 0x1_0000 % 256), Byte(n / 0x100 % 256), Byte(n % 256);
    ReadSnoc(bytes, b3);
    ReadSnoc(bytes + [b3], b2);
    ReadSnoc(bytes + [b3] + [b2], b1);
    ReadSnoc(bytes + [b3] + [b2] + [b1], b0);
    assert bytes + BigEndian32(n) == bytes + [b3] + [b2] + [b1] + [b0];
    Digits32(n);
  }

  /** A fixed-width frame read most significant octet first gives back its number. */
  lemma ReadFrame(n: Uint32, k: Uint64)
    ensures Frame(Count(n)) == BigEndian32(n) && Read(Frame(Count(n))) == n
    ensures Read(Frame(Generation(k))) == k
  {
    hide BigEndian32;
    ReadWord([], n);
    assert [] + BigEndian32(n) == BigEndian32(n);
    ReadWord([], k / 0x1_0000_0000);
    assert [] + BigEndian32(k / 0x1_0000_0000) == BigEndian32(k / 0x1_0000_0000);
    ReadWord(BigEndian32(k / 0x1_0000_0000), k % 0x1_0000_0000);
  }

  /** A text frame starts with the length of its text, and the text follows. */
  lemma ReadText(text: octets)
    requires |text| < 0x1_0000_0000
    ensures Read(Frame(Text(text))[..4]) == |text| && Frame(Text(text))[4..] == text
  {
    hide BigEndian32;
    ReadWord([], |text|);
    assert [] + BigEndian32(|text|) == BigEndian32(|text|);
    assert Frame(Text(text))[..4] == BigEndian32(|text|);
  }

  lemma BigEndian32Injective(a: Uint32, b: Uint32)
    requires BigEndian32(a) == BigEndian32(b)
    ensures a == b
  {
    var x, y := BigEndian32(a), BigEndian32(b);
    assert x[0] as nat == a / 0x100_0000 && x[1] as nat == a / 0x1_0000 % 256;
    assert x[2] as nat == a / 0x100 % 256 && x[3] as nat == a % 256;
    assert y[0] as nat == b / 0x100_0000 && y[1] as nat == b / 0x1_0000 % 256;
    assert y[2] as nat == b / 0x100 % 256 && y[3] as nat == b % 256;
    Digits32(a);
    Digits32(b);
  }

  lemma BigEndian64Injective(a: Uint64, b: Uint64)
    requires BigEndian64(a) == BigEndian64(b)
    ensures a == b
  {
    assert BigEndian64(a)[..4] == BigEndian64(b)[..4] && BigEndian64(a)[4..] == BigEndian64(b)[4..];
    BigEndian32Injective(a / 0x1_0000_0000, b / 0x1_0000_0000);
    BigEndian32Injective(a % 0x1_0000_0000, b % 0x1_0000_0000);
  }

  /** Equal concatenations with equally long fronts have equal fronts and rests. */
  lemma CutAt(a: octets, x: octets, b: octets, y: octets)
    requires a + x == b + y && |a| == |b|
    ensures a == b && x == y
  {
    assert a == (a + x)[..|a|] && b == (b + y)[..|b|];
    assert x == (a + x)[|a|..] && y == (b + y)[|b|..];
  }

  lemma TextCut(a: octets, x: octets, b: octets, y: octets)
    requires |a| < 0x1_0000_0000 && |b| < 0x1_0000_0000
    requires BigEndian32(|a|) + a + x == BigEndian32(|b|) + b + y
    ensures a == b && x == y
  {
    hide BigEndian32;
    assert BigEndian32(|a|) + (a + x) == BigEndian32(|a|) + a + x;
    assert BigEndian32(|b|) + (b + y) == BigEndian32(|b|) + b + y;
    CutAt(BigEndian32(|a|), a + x, BigEndian32(|b|), b + y);
    BigEndian32Injective(|a|, |b|);
    CutAt(a, x, b, y);
  }

  /** A framed token can be read off the front without knowing where it ends. */
  lemma FrameCut(a: Token, x: octets, b: Token, y: octets)
    requires Alike(a, b) && Frame(a) + x == Frame(b) + y
    ensures a == b && x == y
  {
    hide BigEndian32, BigEndian64;
    match a
    case Text(text) =>
      TextCut(text, x, b.text, y);
    case Count(n) =>
      CutAt(Frame(a), x, Frame(b), y);
      BigEndian32Injective(n, b.count);
    case Generation(n) =>
      CutAt(Frame(a), x, Frame(b), y);
      BigEndian64Injective(n, b.generation);
    case Hash(_) =>
      CutAt(Frame(a), x, Frame(b), y);
  }

  lemma {:induction false} FramedConcat(a: seq<Token>, b: seq<Token>)
    ensures Framed(a + b) == Framed(a) + Framed(b)
    decreases |b|
  {
    hide Frame;
    if b == [] {
      assert a + b == a;
    } else {
      var init := b[..|b| - 1];
      assert (a + b)[..|a + b| - 1] == a + init;
      FramedConcat(a, init);
    }
  }

  lemma FramedOne(t: Token)
    ensures Framed([t]) == Frame(t)
  {
    hide Frame;
    assert [t][..0] == [];
  }

  lemma FramedCons(t: Token, rest: seq<Token>)
    ensures Framed([t] + rest) == Frame(t) + Framed(rest)
  {
    FramedOne(t);
    FramedConcat([t], rest);
  }

  /** Token lists of one shape can be read off the front of a framed text. */
  lemma {:induction false} FramedCut(a: seq<Token>, x: octets, b: seq<Token>, y: octets)
    requires SameShape(a, b) && Framed(a) + x == Framed(b) + y
    ensures a == b && x == y
    decreases |a|
  {
    hide Frame, Framed, Alike;
    if a == [] {
      FramedNothing();
      assert [] + x == x && [] + y == y;
    } else {
      assert a == [a[0]] + a[1..] && b == [b[0]] + b[1..];
      FramedCons(a[0], a[1..]);
      FramedCons(b[0], b[1..]);
      assert Frame(a[0]) + (Framed(a[1..]) + x) == Framed(a) + x;
      assert Frame(b[0]) + (Framed(b[1..]) + y) == Framed(b) + y;
      FrameCut(a[0], Framed(a[1..]) + x, b[0], Framed(b[1..]) + y);
      FramedCut(a[1..], x, b[1..], y);
    }
  }

  lemma FramedNothing()
    ensures Framed([]) == []
  {
  }

  /** A hash under construction: the octets fed so far. The hash function itself is a parameter of every digest. */
  class Hasher {
    var fed: octets
    ghost var written: seq<Token>

    ghost predicate Valid()
      reads this
    {
      fed == Framed(written)
    }

    constructor ()
      ensures Valid() && written == []
    {
      fed := [];
      written := [];
    }

    method Write(ghost token: Token, bytes: octets)
      requires Valid() && bytes == Frame(token)
      modifies this
      ensures Valid() && written == old(written) + [token]
    {
      assert (written + [token])[..|written|] == written;
      fed := fed + bytes;
      written := written + [token];
    }

    method WriteString(value: octets)
      requires Valid()
      modifies this
      ensures Valid() && written == old(written) + [Text(value)]
    {
      Write(Text(value), BigEndian32(Length32(value)) + value);
    }

    method WriteCount(count: nat)
      requires Valid()
      modifies this
      ensures Valid() && written == old(written) + [Count(count % 0x1_0000_0000)]
    {
      Write(Count(count % 0x1_0000_0000), BigEndian32(count % 0x1_0000_0000));
    }

    method WriteUint64(value: Uint64)
      requires Valid()
      modifies this
      ensures Valid() && written == old(written) + [Generation(value)]
    {
      Write(Generation(value), BigEndian64(value));
    }

    method WriteDigest(digest: Digest)
      requires Valid()
      modifies this
      ensures Valid() && written == old(written) + [Hash(digest)]
    {
      Write(Hash(digest), digest);
    }
  }

  // ---- Records

  datatype WorkItem = WorkItem(tenant: octets, domain: octets, use: octets, profile: octets, algorithms: seq<octets>)

  datatype Mode = Normal | Emergency

  /** A campaign plan without its work list. */
  datatype Terms = Terms(
    version: octets, mode: Mode, sourceSchema: octets, sourceGeneration: Uint64, candidateGeneration: Uint64,
    operationId: octets, emergencyReason: octets, rotationPolicy: octets, dnsPolicy: octets, retentionPolicy: octets,
    limitProfile: octets)

  datatype DnsBatch = DnsBatch(
    candidate: Digest, frozenWork: Digest, ordinal: Uint32, start: Uint32, end: Uint32, total: Uint32)

  datatype PurgeTarget = PurgeTarget(generation: Uint64, schema: octets, lifecycle: octets, content: Digest)

  datatype PurgePlan = PurgePlan(
    version: octets, currentGeneration: Uint64, inventoryVersion: octets, policyVersion: octets,
    targets: seq<PurgeTarget>)

  /** The RFC 3339 text of an instant. */
  type InstantText = s: octets | |s| <= 64 witness []

  /** A point in time as the contract sees it: whether it is the zero instant, whether it is in UTC, and its text. */
  datatype Instant = Instant(zero: bool, utc: bool, text: InstantText)

  datatype Receipt = Receipt(
    version: octets, generation: Uint64, schema: octets, lifecycle: octets, operationClass: octets, content: Digest,
    destroyedAt: Instant, result: octets, policyVersion: octets, purgePlan: Digest)

  const CONTRACT_VERSION: octets := "dkim2-admin-contract-v1"
  const MAX_WORK_ITEMS := 131072
  const MAX_TARGETS := 4096
  const FROZEN_DOMAIN: octets := "DKIM2-FROZEN-WORK-V1\0"
  const PLAN_DOMAIN: octets := "DKIM2-ROTATION-CAMPAIGN-PLAN-V1\0"
  const BATCH_DOMAIN: octets := "DKIM2-ROTATION-DNS-BATCH-V1\0"
  const PURGE_DOMAIN: octets := "DKIM2-PURGE-PLAN-V1\0"
  const AUDIT_DOMAIN: octets := "DKIM2-PURGE-AUDIT-V1\0"
  const SCHEMAS: seq<octets> := ["dkim2-datasource-v2", "dkim2-datasource-v3"]
  const USES: seq<octets> := ["originator", "ordinary_transit", "next_domain_transit", "delivery_status"]
  const ALGORITHMS: seq<octets> := ["ed25519-sha256", "rsa-sha256"]
  const REASONS: seq<octets> := ["compromise", "suspected_compromise", "provider_failure", "policy_violation"]
  const LIFECYCLES: seq<octets> := ["active_history", "never_active", "aborted", "absent"]
  const OPERATION_CLASSES: seq<octets> := ["normal", "emergency", "onboarding", "unknown"]
  const PURGED: octets := "purged"

  // ---- Validity

  /** Well-formed UTF-8 without Unicode white space at either end; library code outside this model. */
  type TextCheck = octets -> bool

  predicate ValidText(utf8: TextCheck, value: octets, max: nat) {
    && 1 <= |value| <= max && utf8(value)
    && forall i | 0 <= i < |value| :: value[i] > ' ' && value[i] != 127 as char
  }

  predicate ValidVersion(utf8: TextCheck, value: octets) {
    ValidText(utf8, value, 128)
  }

  predicate LabelChar(c: char) {
    c == '-' || 'a' <= c <= 'z' || '0' <= c <= '9'
  }

  predicate ValidLabel(part: octets) {
    && 1 <= |part| <= 63 && part[0] != '-' && part[|part| - 1] != '-'
    && forall i | 0 <= i < |part| :: LabelChar(part[i])
  }

  predicate ValidLabels(value: octets) {
    match IndexByte(value, '.')
    case None => ValidLabel(value)
    case Some(dot) => ValidLabel(value[..dot]) && ValidLabels(value[dot + 1..])
  }

  predicate ValidDnsName(utf8: TextCheck, value: octets) {
    ValidText(utf8, value, 253) && ValidLabels(value)
  }

  predicate Base32Char(c: char) {
    'a' <= c <= 'z' || '2' <= c <= '7'
  }

  function Base32Value(c: char): nat
    requires Base32Char(c)
  {
    if c <= '7' then c as nat - '2' as nat + 26 else c as nat - 'a' as nat
  }

  /** 128 bits in 26 characters, nonzero, with the two spare bits of the last character clear. */
  predicate ValidOperationId(value: octets) {
    && |value| == 26 && (forall i | 0 <= i < |value| :: Base32Char(value[i]))
    && Base32Value(value[25]) % 4 == 0
    && exists i :: 0 <= i < |value| && value[i] != 'a'
  }

  predicate ValidAlgorithms(algorithms: seq<octets>) {
    && 1 <= |algorithms| <= |ALGORITHMS|
    && (forall i | 0 <= i < |algorithms| :: algorithms[i] in ALGORITHMS)
    && forall i | 0 < i < |algorithms| :: Less(algorithms[i - 1], algorithms[i])
  }

  predicate ValidItem(utf8: TextCheck, item: WorkItem) {
    && ValidText(utf8, item.tenant, 128) && ValidDnsName(utf8, item.domain) && item.use in USES
    && ValidText(utf8, item.profile, 128) && ValidAlgorithms(item.algorithms)
  }

  function Identity(item: WorkItem): octets {
    item.tenant + ['\0'] + (item.domain + ['\0'] + (item.use + ['\0'] + item.profile))
  }

  /** Bounded, well-formed items in strictly increasing identity. */
  predicate ValidWork(utf8: TextCheck, work: seq<WorkItem>) {
    && 1 <= |work| <= MAX_WORK_ITEMS
    && (forall i | 0 <= i < |work| :: ValidItem(utf8, work[i]))
    && forall i | 0 < i < |work| :: Less(Identity(work[i - 1]), Identity(work[i]))
  }

  predicate ValidTerms(utf8: TextCheck, terms: Terms) {
    && terms.version == CONTRACT_VERSION && terms.sourceSchema in SCHEMAS
    && 0 < terms.sourceGeneration < terms.candidateGeneration
    && ValidOperationId(terms.operationId) && ValidVersion(utf8, terms.rotationPolicy)
    && ValidVersion(utf8, terms.dnsPolicy) && ValidVersion(utf8, terms.retentionPolicy)
    && ValidVersion(utf8, terms.limitProfile)
    && match terms.mode
       case Normal => terms.emergencyReason == []
       case Emergency => terms.emergencyReason in REASONS
  }

  predicate ValidBatch(batch: DnsBatch) {
    && Initialized(batch.candidate) && Initialized(batch.frozenWork) && batch.ordinal != 0 && batch.total != 0
    && batch.start < batch.end <= batch.total && (batch.start == 0 <==> batch.ordinal == 1)
  }

  predicate ValidTarget(target: PurgeTarget, current: Uint64) {
    && target.generation != 0 && target.generation != current && target.schema in SCHEMAS
    && target.lifecycle in LIFECYCLES && Initialized(target.content)
  }

  predicate ValidPurge(utf8: TextCheck, plan: PurgePlan) {
    && plan.version == CONTRACT_VERSION && plan.currentGeneration != 0 && ValidVersion(utf8, plan.inventoryVersion)
    && ValidVersion(utf8, plan.policyVersion) && 1 <= |plan.targets| <= MAX_TARGETS
    && (forall i | 0 <= i < |plan.targets| :: ValidTarget(plan.targets[i], plan.currentGeneration))
    && forall i | 0 < i < |plan.targets| :: plan.targets[i - 1].generation < plan.targets[i].generation
  }

  predicate ValidReceipt(utf8: TextCheck, receipt: Receipt) {
    && receipt.version == CONTRACT_VERSION && receipt.generation != 0 && receipt.schema in SCHEMAS
    && receipt.lifecycle in LIFECYCLES && receipt.operationClass in OPERATION_CLASSES
    && Initialized(receipt.content) && !receipt.destroyedAt.zero && receipt.destroyedAt.utc
    && receipt.destroyedAt.text != [] && receipt.result == PURGED && ValidVersion(utf8, receipt.policyVersion) && Initialized(receipt.purgePlan)
  }

  // ---- Preimages

  function Texts(values: seq<octets>): (r: seq<Token>)
    ensures |r| == |values| && forall i | 0 <= i < |r| :: r[i] == Text(values[i])
  {
    seq(|values|, i requires 0 <= i < |values| => Text(values[i]))
  }

  function ItemHead(item: WorkItem): seq<Token> {
    [Text(item.tenant), Text(item.domain), Text(item.use), Text(item.profile),
     Count(|item.algorithms| % 0x1_0000_0000)]
  }

  function ItemTokens(item: WorkItem): seq<Token> {
    ItemHead(item) + Texts(item.algorithms)
  }

  function WorkTokens(work: seq<WorkItem>): seq<Token> {
    if work == [] then [] else WorkTokens(work[..|work| - 1]) + ItemTokens(work[|work| - 1])
  }

  function TargetTokens(target: PurgeTarget): seq<Token> {
    [Generation(target.generation), Text(target.schema), Text(target.lifecycle), Hash(target.content)]
  }

  function TargetsTokens(targets: seq<PurgeTarget>): seq<Token> {
    if targets == [] then [] else TargetsTokens(targets[..|targets| - 1]) + TargetTokens(targets[|targets| - 1])
  }

  function ModeName(mode: Mode): octets {
    match mode case Normal => "normal" case Emergency => "emergency"
  }

  /** What one digest commits to. A campaign commits to its work list through that list's own digest. */
  datatype Commitment =
    | Frozen(work: seq<WorkItem>)
    | Campaign(terms: Terms, frozen: Digest)
    | Batch(batch: DnsBatch)
    | Purge(plan: PurgePlan)
    | Audit(receipt: Receipt)

  function Head(c: Commitment): seq<Token> {
    match c
    case Frozen(work) => [Text(FROZEN_DOMAIN), Count(|work| % 0x1_0000_0000)]
    case Campaign(t, frozen) =>
      [Text(PLAN_DOMAIN), Text(t.version), Text(ModeName(t.mode)), Text(t.sourceSchema), Generation(t.sourceGeneration),
       Generation(t.candidateGeneration), Text(t.operationId), Hash(frozen), Text(t.emergencyReason),
       Text(t.rotationPolicy), Text(t.dnsPolicy), Text(t.retentionPolicy), Text(t.limitProfile)]
    case Batch(b) =>
      [Text(BATCH_DOMAIN), Hash(b.candidate), Hash(b.frozenWork), Count(b.ordinal), Count(b.start), Count(b.end),
       Count(b.total)]
    case Purge(p) =>
      [Text(PURGE_DOMAIN), Text(p.version), Generation(p.currentGeneration), Text(p.inventoryVersion),
       Text(p.policyVersion), Count(|p.targets| % 0x1_0000_0000)]
    case Audit(r) =>
      [Text(AUDIT_DOMAIN), Text(r.version), Generation(r.generation), Text(r.schema), Text(r.lifecycle),
       Text(r.operationClass), Hash(r.content), Text(r.destroyedAt.text), Text(r.result), Text(r.policyVersion),
       Hash(r.purgePlan)]
  }

  function Tokens(c: Commitment): seq<Token> {
    Head(c) + match c
      case Frozen(work) => WorkTokens(work)
      case Purge(plan) => TargetsTokens(plan.targets)
      case _ => []
  }

  function Preimage(c: Commitment): octets {
    Framed(Tokens(c))
  }

  predicate Valid(utf8: TextCheck, c: Commitment) {
    match c
    case Frozen(work) => ValidWork(utf8, work)
    case Campaign(terms, _) => ValidTerms(utf8, terms)
    case Batch(batch) => ValidBatch(batch)
    case Purge(plan) => ValidPurge(utf8, plan)
    case Audit(receipt) => ValidReceipt(utf8, receipt)
  }

  // ---- Injectivity

  predicate Short(value: octets) {
    |value| < 0x1_0000_0000
  }

  lemma {:induction false} FramedPrefixCut(a: seq<Token>, x: seq<Token>, b: seq<Token>, y: seq<Token>)
    requires SameShape(a, b) && Framed(a + x) == Framed(b + y)
    ensures a == b && Framed(x) == Framed(y)
  {
    hide Framed, Alike;
    FramedConcat(a, x);
    FramedConcat(b, y);
    FramedCut(a, Framed(x), b, Framed(y));
  }

  predicate ShortItem(item: WorkItem) {
    && Short(item.tenant) && Short(item.domain) && Short(item.use) && Short(item.profile)
    && |item.algorithms| < 0x1_0000_0000 && forall i | 0 <= i < |item.algorithms| :: Short(item.algorithms[i])
  }

  lemma ItemCut(a: WorkItem, x: octets, b: WorkItem, y: octets)
    requires ShortItem(a) && ShortItem(b) && Framed(ItemTokens(a)) + x == Framed(ItemTokens(b)) + y
    ensures a == b && x == y
  {
    hide Framed;
    var s, t := Texts(a.algorithms), Texts(b.algorithms);
    FramedConcat(ItemHead(a), s);
    FramedConcat(ItemHead(b), t);
    assert Framed(ItemHead(a)) + (Framed(s) + x) == Framed(ItemTokens(a)) + x;
    assert Framed(ItemHead(b)) + (Framed(t) + y) == Framed(ItemTokens(b)) + y;
    HeadsAlike(a, b);
    FramedCut(ItemHead(a), Framed(s) + x, ItemHead(b), Framed(t) + y);
    HeadsEqual(a, b);
    FramedCut(s, x, t, y);
    TextsInjective(a.algorithms, b.algorithms);
  }

  lemma HeadsAlike(a: WorkItem, b: WorkItem)
    requires ShortItem(a) && ShortItem(b)
    ensures SameShape(ItemHead(a), ItemHead(b))
  {
  }

  lemma HeadsEqual(a: WorkItem, b: WorkItem)
    requires ShortItem(a) && ShortItem(b) && ItemHead(a) == ItemHead(b)
    ensures a.tenant == b.tenant && a.domain == b.domain && a.use == b.use && a.profile == b.profile
    ensures |a.algorithms| == |b.algorithms| && SameShape(Texts(a.algorithms), Texts(b.algorithms))
  {
    var h, k := ItemHead(a), ItemHead(b);
    assert h[0] == k[0] && h[1] == k[1] && h[2] == k[2] && h[3] == k[3] && h[4] == k[4];
  }

  lemma TextsInjective(a: seq<octets>, b: seq<octets>)
    requires Texts(a) == Texts(b)
    ensures a == b
  {
    assert |a| == |Texts(a)| && |b| == |Texts(b)|;
    forall i | 0 <= i < |a| ensures a[i] == b[i] {
      assert Texts(a)[i] == Text(a[i]) && Texts(b)[i] == Text(b[i]);
    }
  }

  lemma {:induction false} WorkTokensCons(item: WorkItem, rest: seq<WorkItem>)
    ensures WorkTokens([item] + rest) == ItemTokens(item) + WorkTokens(rest)
    decreases |rest|
  {
    hide ItemTokens;
    var all := [item] + rest;
    if rest == [] {
      assert all == [item] && [item][..0] == [];
    } else {
      assert all[..|all| - 1] == [item] + rest[..|rest| - 1];
      WorkTokensCons(item, rest[..|rest| - 1]);
    }
  }

  lemma {:induction false} WorkInjective(a: seq<WorkItem>, b: seq<WorkItem>)
    requires |a| == |b| && Framed(WorkTokens(a)) == Framed(WorkTokens(b))
    requires forall i | 0 <= i < |a| :: ShortItem(a[i]) && ShortItem(b[i])
    ensures a == b
  {
    hide Framed, ItemTokens, WorkTokens, ShortItem;
    if a != [] {
      assert a == [a[0]] + a[1..] && b == [b[0]] + b[1..];
      WorkTokensCons(a[0], a[1..]);
      WorkTokensCons(b[0], b[1..]);
      FramedConcat(ItemTokens(a[0]), WorkTokens(a[1..]));
      FramedConcat(ItemTokens(b[0]), WorkTokens(b[1..]));
      ItemCut(a[0], Framed(WorkTokens(a[1..])), b[0], Framed(WorkTokens(b[1..])));
      WorkInjective(a[1..], b[1..]);
    }
  }

  predicate ShortTarget(t: PurgeTarget) {
    Short(t.schema) && Short(t.lifecycle)
  }

  lemma TargetCut(a: PurgeTarget, x: octets, b: PurgeTarget, y: octets)
    requires ShortTarget(a) && ShortTarget(b) && Framed(TargetTokens(a)) + x == Framed(TargetTokens(b)) + y
    ensures a == b && x == y
  {
    hide Framed;
    var h, k := TargetTokens(a), TargetTokens(b);
    FramedCut(h, x, k, y);
    assert h[0] == k[0] && h[1] == k[1] && h[2] == k[2] && h[3] == k[3];
  }

  lemma {:induction false} TargetsTokensCons(target: PurgeTarget, rest: seq<PurgeTarget>)
    ensures TargetsTokens([target] + rest) == TargetTokens(target) + TargetsTokens(rest)
    decreases |rest|
  {
    hide TargetTokens;
    var all := [target] + rest;
    if rest == [] {
      assert all == [target] && [target][..0] == [];
    } else {
      assert all[..|all| - 1] == [target] + rest[..|rest| - 1];
      TargetsTokensCons(target, rest[..|rest| - 1]);
    }
  }

  lemma {:induction false} TargetsInjective(a: seq<PurgeTarget>, b: seq<PurgeTarget>)
    requires |a| == |b| && Framed(TargetsTokens(a)) == Framed(TargetsTokens(b))
    requires forall i | 0 <= i < |a| :: ShortTarget(a[i]) && ShortTarget(b[i])
    ensures a == b
  {
    hide Framed, TargetTokens, TargetsTokens, ShortTarget;
    if a != [] {
      assert a == [a[0]] + a[1..] && b == [b[0]] + b[1..];
      TargetsTokensCons(a[0], a[1..]);
      TargetsTokensCons(b[0], b[1..]);
      FramedConcat(TargetTokens(a[0]), TargetsTokens(a[1..]));
      FramedConcat(TargetTokens(b[0]), TargetsTokens(b[1..]));
      TargetCut(a[0], Framed(TargetsTokens(a[1..])), b[0], Framed(TargetsTokens(b[1..])));
      TargetsInjective(a[1..], b[1..]);
    }
  }

  function Domain(c: Commitment): octets {
    match c
    case Frozen(_) => FROZEN_DOMAIN
    case Campaign(_, _) => PLAN_DOMAIN
    case Batch(_) => BATCH_DOMAIN
    case Purge(_) => PURGE_DOMAIN
    case Audit(_) => AUDIT_DOMAIN
  }

  predicate SameKind(a: Commitment, b: Commitment) {
    match a
    case Frozen(_) => b.Frozen?
    case Campaign(_, _) => b.Campaign?
    case Batch(_) => b.Batch?
    case Purge(_) => b.Purge?
    case Audit(_) => b.Audit?
  }

  lemma DomainSizes()
    ensures |FROZEN_DOMAIN| == 21 && |PLAN_DOMAIN| == 32 && |BATCH_DOMAIN| == 28 && |PURGE_DOMAIN| == 20
    ensures |AUDIT_DOMAIN| == 21 && FROZEN_DOMAIN[6] == 'F' && AUDIT_DOMAIN[6] == 'P'
  {
  }

  lemma DomainsDiffer(a: Commitment, b: Commitment)
    requires Domain(a) == Domain(b)
    ensures SameKind(a, b)
  {
    hide FROZEN_DOMAIN, PLAN_DOMAIN, BATCH_DOMAIN, PURGE_DOMAIN, AUDIT_DOMAIN;
    DomainSizes();
  }

  lemma DomainShort(c: Commitment)
    ensures Short(Domain(c))
  {
    hide FROZEN_DOMAIN, PLAN_DOMAIN, BATCH_DOMAIN, PURGE_DOMAIN, AUDIT_DOMAIN;
    DomainSizes();
  }

  lemma StartsWithDomain(c: Commitment)
    ensures Head(c) != [] && Head(c)[0] == Text(Domain(c)) && Tokens(c) == [Text(Domain(c))] + Tokens(c)[1..]
  {
    hide FROZEN_DOMAIN, PLAN_DOMAIN, BATCH_DOMAIN, PURGE_DOMAIN, AUDIT_DOMAIN, WorkTokens, TargetsTokens;
  }

  /** Domain separation: preimages of different kinds never coincide, whatever they hold. */
  lemma KindsSeparated(a: Commitment, b: Commitment)
    requires Preimage(a) == Preimage(b)
    ensures SameKind(a, b)
  {
    hide Framed, Tokens, Domain, SameKind;
    StartsWithDomain(a);
    StartsWithDomain(b);
    FramedCons(Text(Domain(a)), Tokens(a)[1..]);
    FramedCons(Text(Domain(b)), Tokens(b)[1..]);
    DomainShort(a);
    DomainShort(b);
    FrameCut(Text(Domain(a)), Framed(Tokens(a)[1..]), Text(Domain(b)), Framed(Tokens(b)[1..]));
    DomainsDiffer(a, b);
  }

  // ---- Valid commitments fit their frames

  lemma VocabularyShort(value: octets)
    requires value in SCHEMAS || value in USES || value in ALGORITHMS || value in REASONS || value in LIFECYCLES
      || value in OPERATION_CLASSES
    ensures Short(value)
  {
  }

  lemma ItemShort(utf8: TextCheck, item: WorkItem)
    requires ValidItem(utf8, item)
    ensures ShortItem(item)
  {
    hide ValidLabels;
    VocabularyShort(item.use);
    forall i | 0 <= i < |item.algorithms| ensures Short(item.algorithms[i]) {
      VocabularyShort(item.algorithms[i]);
    }
  }

  lemma FrozenInjective(utf8: TextCheck, a: seq<WorkItem>, b: seq<WorkItem>)
    requires ValidWork(utf8, a) && ValidWork(utf8, b) && Preimage(Frozen(a)) == Preimage(Frozen(b))
    ensures a == b
  {
    hide Framed, WorkTokens, ValidItem, ShortItem, Identity;
    FramedPrefixCut(Head(Frozen(a)), WorkTokens(a), Head(Frozen(b)), WorkTokens(b));
    assert Head(Frozen(a))[1] == Head(Frozen(b))[1];
    forall i | 0 <= i < |a| ensures ShortItem(a[i]) && ShortItem(b[i]) {
      ItemShort(utf8, a[i]);
      ItemShort(utf8, b[i]);
    }
    WorkInjective(a, b);
  }

  lemma TermsShort(utf8: TextCheck, t: Terms)
    requires ValidTerms(utf8, t)
    ensures Short(t.version) && Short(t.sourceSchema) && Short(t.operationId) && Short(t.emergencyReason)
    ensures Short(t.rotationPolicy) && Short(t.dnsPolicy) && Short(t.retentionPolicy) && Short(t.limitProfile)
    ensures Short(ModeName(t.mode))
  {
    VocabularyShort(t.sourceSchema);
    if t.mode == Emergency {
      VocabularyShort(t.emergencyReason);
    }
  }

  /** A framed plan determines the plan's terms and the digest of its work list. */
  lemma CampaignInjective(utf8: TextCheck, a: Terms, f: Digest, b: Terms, g: Digest)
    requires ValidTerms(utf8, a) && ValidTerms(utf8, b) && Preimage(Campaign(a, f)) == Preimage(Campaign(b, g))
    ensures a == b && f == g
  {
    hide Framed, ValidTerms;
    var h, k := Head(Campaign(a, f)), Head(Campaign(b, g));
    TermsShort(utf8, a);
    TermsShort(utf8, b);
    FramedPrefixCut(h, [], k, []);
    assert h[1] == k[1] && h[2] == k[2] && h[3] == k[3] && h[4] == k[4] && h[5] == k[5] && h[6] == k[6];
    assert h[7] == k[7] && h[8] == k[8] && h[9] == k[9] && h[10] == k[10] && h[11] == k[11] && h[12] == k[12];
    ModeNames();
  }

  lemma ModeNames()
    ensures ModeName(Normal) != ModeName(Emergency)
  {
    assert |ModeName(Normal)| != |ModeName(Emergency)|;
  }

  lemma BatchInjective(a: DnsBatch, b: DnsBatch)
    requires Preimage(Batch(a)) == Preimage(Batch(b))
    ensures a == b
  {
    hide Framed;
    var h, k := Head(Batch(a)), Head(Batch(b));
    FramedPrefixCut(h, [], k, []);
    assert h[1] == k[1] && h[2] == k[2] && h[3] == k[3] && h[4] == k[4] && h[5] == k[5] && h[6] == k[6];
  }

  lemma PurgeInjective(utf8: TextCheck, a: PurgePlan, b: PurgePlan)
    requires ValidPurge(utf8, a) && ValidPurge(utf8, b) && Preimage(Purge(a)) == Preimage(Purge(b))
    ensures a == b
  {
    hide Framed, TargetsTokens, ShortTarget;
    var h, k := Head(Purge(a)), Head(Purge(b));
    FramedPrefixCut(h, TargetsTokens(a.targets), k, TargetsTokens(b.targets));
    assert h[1] == k[1] && h[2] == k[2] && h[3] == k[3] && h[4] == k[4] && h[5] == k[5];
    forall i | 0 <= i < |a.targets| ensures ShortTarget(a.targets[i]) && ShortTarget(b.targets[i]) {
      TargetShort(a.targets[i], a.currentGeneration);
      TargetShort(b.targets[i], b.currentGeneration);
    }
    TargetsInjective(a.targets, b.targets);
  }

  lemma TargetShort(t: PurgeTarget, current: Uint64)
    requires ValidTarget(t, current)
    ensures ShortTarget(t)
  {
    VocabularyShort(t.schema);
    VocabularyShort(t.lifecycle);
  }

  lemma ReceiptShort(utf8: TextCheck, r: Receipt)
    requires ValidReceipt(utf8, r)
    ensures Short(r.version) && Short(r.schema) && Short(r.lifecycle) && Short(r.operationClass)
    ensures Short(r.destroyedAt.text) && Short(r.result) && Short(r.policyVersion)
    ensures r.destroyedAt == Instant(false, true, r.destroyedAt.text)
  {
    VocabularyShort(r.schema);
    VocabularyShort(r.lifecycle);
    VocabularyShort(r.operationClass);
  }

  lemma AuditInjective(utf8: TextCheck, a: Receipt, b: Receipt)
    requires ValidReceipt(utf8, a) && ValidReceipt(utf8, b) && Preimage(Audit(a)) == Preimage(Audit(b))
    ensures a == b
  {
    hide Framed, ValidReceipt;
    var h, k := Head(Audit(a)), Head(Audit(b));
    ReceiptShort(utf8, a);
    ReceiptShort(utf8, b);
    FramedPrefixCut(h, [], k, []);
    assert h[1] == k[1] && h[2] == k[2] && h[3] == k[3] && h[4] == k[4] && h[5] == k[5];
    assert h[6] == k[6] && h[7] == k[7] && h[8] == k[8] && h[9] == k[9] && h[10] == k[10];
  }

  /** Equal framed octets mean the same commitment: the same kind, and equal work lists, plan terms with the digest
      of their work, batches, purge plans or receipts. */
  lemma PreimageInjective(utf8: TextCheck, a: Commitment, b: Commitment)
    requires Valid(utf8, a) && Valid(utf8, b) && Preimage(a) == Preimage(b)
    ensures a == b
  {
    hide Preimage, ValidWork, ValidTerms, ValidBatch, ValidPurge, ValidReceipt;
    KindsSeparated(a, b);
    match a
    case Frozen(work) => FrozenInjective(utf8, work, b.work);
    case Campaign(terms, frozen) => CampaignInjective(utf8, terms, frozen, b.terms, b.frozen);
    case Batch(batch) => BatchInjective(batch, b.batch);
    case Purge(plan) => PurgeInjective(utf8, plan, b.plan);
    case Audit(receipt) => AuditInjective(utf8, receipt, b.receipt);
  }

  // ---- The canonical order of work items

  predicate NoNul(s: octets) {
    forall i | 0 <= i < |s| :: s[i] > '\0'
  }

  /** A NUL sorts below everything else, so joining by NUL keeps the order of the first parts. */
  lemma {:induction false} JoinedLess(a: octets, x: octets, b: octets, y: octets)
    requires NoNul(a) && NoNul(b)
    ensures Less(a + ['\0'] + x, b + ['\0'] + y) <==> Less(a, b) || (a == b && Less(x, y))
    decreases |a|
  {
    var s, t := a + ['\0'] + x, b + ['\0'] + y;
    if a == [] || b == [] {
      assert s[1..] == if a == [] then x else a[1..] + ['\0'] + x;
      assert t[1..] == if b == [] then y else b[1..] + ['\0'] + y;
    } else {
      assert s[1..] == a[1..] + ['\0'] + x && t[1..] == b[1..] + ['\0'] + y;
      JoinedLess(a[1..], x, b[1..], y);
      assert a == [a[0]] + a[1..] && b == [b[0]] + b[1..];
    }
  }

  /** Lexicographic order of the four-part binding. */
  predicate BindingLess(a: WorkItem, b: WorkItem) {
    if a.tenant != b.tenant then Less(a.tenant, b.tenant)
    else if a.domain != b.domain then Less(a.domain, b.domain)
    else if a.use != b.use then Less(a.use, b.use)
    else Less(a.profile, b.profile)
  }

  lemma LessIrreflexive(s: octets)
    ensures !Less(s, s)
  {
    LessTotal(s, s);
  }

  lemma ItemHasNoNul(utf8: TextCheck, item: WorkItem)
    requires ValidItem(utf8, item)
    ensures NoNul(item.tenant) && NoNul(item.domain) && NoNul(item.use)
  {
    hide ValidAlgorithms, ValidLabels;
    UsesHaveNoNul(item.use);
  }

  lemma UsesHaveNoNul(use: octets)
    requires use in USES
    ensures NoNul(use)
  {
    assert use == USES[0] || use == USES[1] || use == USES[2] || use == USES[3];
  }

  /** For valid items the order of the NUL-joined identities is the lexicographic order of the bindings. */
  lemma IdentityOrder(utf8: TextCheck, a: WorkItem, b: WorkItem)
    requires ValidItem(utf8, a) && ValidItem(utf8, b)
    ensures Less(Identity(a), Identity(b)) <==> BindingLess(a, b)
  {
    hide ValidItem, NoNul, Less;
    ItemHasNoNul(utf8, a);
    ItemHasNoNul(utf8, b);
    JoinedLess(a.use, a.profile, b.use, b.profile);
    var u, v := a.use + ['\0'] + a.profile, b.use + ['\0'] + b.profile;
    JoinedLess(a.domain, u, b.domain, v);
    JoinedLess(a.tenant, a.domain + ['\0'] + u, b.tenant, b.domain + ['\0'] + v);
    LessIrreflexive(a.tenant);
    LessIrreflexive(a.domain);
    LessIrreflexive(a.use);
  }

  predicate IdentityLess(a: WorkItem, b: WorkItem) {
    Less(Identity(a), Identity(b))
  }

  lemma IdentityAsymmetric()
    ensures Asymmetric(IdentityLess)
  {
    hide Less, Identity;
    forall a, b | IdentityLess(a, b) ensures !IdentityLess(b, a) {
      LessTotal(Identity(a), Identity(b));
    }
  }

  predicate Stepwise(work: seq<WorkItem>) {
    forall i | 0 < i < |work| :: IdentityLess(work[i - 1], work[i])
  }

  lemma {:induction false} StepwiseBefore(work: seq<WorkItem>, i: nat, j: nat)
    requires Stepwise(work) && i < j < |work|
    ensures IdentityLess(work[i], work[j])
    decreases j
  {
    hide Less, Identity;
    assert IdentityLess(work[j - 1], work[j]);
    if i < j - 1 {
      StepwiseBefore(work, i, j - 1);
      LessTransitive(Identity(work[i]), Identity(work[j - 1]), Identity(work[j]));
    }
  }

  lemma StepwiseSorted(work: seq<WorkItem>)
    requires Stepwise(work)
    ensures SortedBy(work, IdentityLess)
  {
    hide IdentityLess;
    forall i, j | 0 <= i < j < |work| ensures IdentityLess(work[i], work[j]) {
      StepwiseBefore(work, i, j);
    }
  }

  /** Two valid work lists of the same items are the same list. */
  lemma ListingUnique(utf8: TextCheck, a: seq<WorkItem>, b: seq<WorkItem>)
    requires ValidWork(utf8, a) && ValidWork(utf8, b) && multiset(a) == multiset(b)
    ensures a == b
  {
    hide ValidItem, Less, Identity;
    StepwiseSorted(a);
    StepwiseSorted(b);
    IdentityAsymmetric();
    SortedUnique(a, b, IdentityLess);
  }

  /** Insertion into a listing. */
  function Inserted(x: WorkItem, work: seq<WorkItem>): (r: seq<WorkItem>)
    ensures multiset(r) == multiset(work) + multiset{x} && |r| == |work| + 1
  {
    if work == [] || IdentityLess(x, work[0]) then [x] + work
    else
      assert work == [work[0]] + work[1..];
      [work[0]] + Inserted(x, work[1..])
  }

  lemma {:induction false} InsertedStepwise(x: WorkItem, work: seq<WorkItem>)
    requires Stepwise(work) && forall i | 0 <= i < |work| :: Identity(work[i]) != Identity(x)
    ensures Stepwise(Inserted(x, work))
    ensures work != [] && !IdentityLess(x, work[0]) ==> Inserted(x, work)[0] == work[0]
  {
    hide Less, Identity;
    if work != [] && !IdentityLess(x, work[0]) {
      var rest := work[1..];
      LessTotal(Identity(x), Identity(work[0]));
      assert Stepwise(rest) by {
        forall i | 0 < i < |rest| ensures IdentityLess(rest[i - 1], rest[i]) {
          assert IdentityLess(work[i], work[i + 1]);
        }
      }
      InsertedStepwise(x, rest);
      var tail := Inserted(x, rest);
      assert IdentityLess(work[0], tail[0]) by {
        if rest != [] {
          assert IdentityLess(work[0], work[1]);
        }
      }
      forall i | 0 < i < |tail| + 1 ensures IdentityLess(([work[0]] + tail)[i - 1], ([work[0]] + tail)[i]) {
        assert i > 1 ==> IdentityLess(tail[i - 2], tail[i - 1]);
      }
    }
  }

  /** Every inventory of valid items with distinct bindings has a valid listing; with the lemma above, exactly one. */
  lemma ListingExists(utf8: TextCheck, items: seq<WorkItem>) returns (work: seq<WorkItem>)
    requires 1 <= |items| <= MAX_WORK_ITEMS && forall i | 0 <= i < |items| :: ValidItem(utf8, items[i])
    requires forall i, j | 0 <= i < j < |items| :: Identity(items[i]) != Identity(items[j])
    ensures ValidWork(utf8, work) && multiset(work) == multiset(items)
  {
    hide ValidItem, Less, Identity;
    work := Listed(items);
    assert |multiset(work)| == |work| && |multiset(items)| == |items|;
    forall i | 0 <= i < |work| ensures ValidItem(utf8, work[i]) {
      assert work[i] in multiset(items);
    }
    forall i | 0 < i < |work| ensures Less(Identity(work[i - 1]), Identity(work[i])) {
      assert IdentityLess(work[i - 1], work[i]);
    }
  }

  lemma {:induction false} Listed(items: seq<WorkItem>) returns (work: seq<WorkItem>)
    requires forall i, j | 0 <= i < j < |items| :: Identity(items[i]) != Identity(items[j])
    ensures Stepwise(work) && multiset(work) == multiset(items)
  {
    hide Identity, IdentityLess;
    if items == [] {
      work := [];
    } else {
      var rest := Listed(items[1..]);
      assert items == [items[0]] + items[1..];
      forall i | 0 <= i < |rest| ensures Identity(rest[i]) != Identity(items[0]) {
        assert rest[i] in multiset(items[1..]);
        var j :| 0 <= j < |items[1..]| && items[1..][j] == rest[i];
        assert items[j + 1] == rest[i];
      }
      InsertedStepwise(items[0], rest);
      work := Inserted(items[0], rest);
    }
  }

  // ---- Digests

  type Sha256 = octets -> Digest

  method ValidateAlgorithms(algorithms: seq<octets>) returns (ok: bool)
    ensures ok <==> ValidAlgorithms(algorithms)
  {
    hide Less, ALGORITHMS;
    if algorithms == [] || |algorithms| > |ALGORITHMS| {
      return false;
    }
    var previous: octets := [];
    var i := 0;
    while i < |algorithms|
      invariant 0 <= i <= |algorithms|
      invariant forall j | 0 <= j < i :: algorithms[j] in ALGORITHMS
      invariant forall j | 0 < j < i :: Less(algorithms[j - 1], algorithms[j])
      invariant previous == if i == 0 then [] else algorithms[i - 1]
    {
      if algorithms[i] !in ALGORITHMS {
        return false;
      }
      LessTotal(previous, algorithms[i]);
      LessIrreflexive(algorithms[i]);
      if !Less(previous, algorithms[i]) {
        if i == 0 {
          AlgorithmsPresent(algorithms[i]);
        }
        return false;
      }
      previous := algorithms[i];
      i := i + 1;
    }
    return true;
  }

  lemma AlgorithmsPresent(algorithm: octets)
    requires algorithm in ALGORITHMS
    ensures Less([], algorithm)
  {
  }

  /** The single pass over a work list: bounded items, each identity above the previous one. */
  method ValidateWork(utf8: TextCheck, work: seq<WorkItem>) returns (ok: bool)
    ensures ok <==> ValidWork(utf8, work)
  {
    hide ValidText, ValidDnsName, ValidAlgorithms, Less;
    if work == [] || |work| > MAX_WORK_ITEMS {
      return false;
    }
    var previous: octets := [];
    var i := 0;
    while i < |work|
      invariant 0 <= i <= |work|
      invariant forall j | 0 <= j < i :: ValidItem(utf8, work[j])
      invariant forall j | 0 < j < i :: Less(Identity(work[j - 1]), Identity(work[j]))
      invariant previous == if i == 0 then [] else Identity(work[i - 1])
    {
      var item := work[i];
      if !ValidText(utf8, item.tenant, 128) || !ValidDnsName(utf8, item.domain) || item.use !in USES
        || !ValidText(utf8, item.profile, 128) {
        return false;
      }
      var algorithms := ValidateAlgorithms(item.algorithms);
      if !algorithms {
        return false;
      }
      var identity := Identity(item);
      if previous != [] && !Less(previous, identity) {
        return false;
      }
      previous := identity;
      i := i + 1;
    }
    return true;
  }

  method WriteAlgorithms(output: Hasher, algorithms: seq<octets>)
    requires output.Valid()
    modifies output
    ensures output.Valid() && output.written == old(output.written) + Texts(algorithms)
  {
    hide Framed, Hasher.Valid;
    ghost var before := output.written;
    var i := 0;
    assert algorithms[..|algorithms|] == algorithms && before + Texts(algorithms[..0]) == before;
    while i < |algorithms|
      invariant 0 <= i <= |algorithms|
      invariant output.Valid() && output.written == before + Texts(algorithms[..i])
    {
      TextsSnoc(before, algorithms, i);
      output.WriteString(algorithms[i]);
      i := i + 1;
    }
  }

  lemma TextsSnoc(before: seq<Token>, values: seq<octets>, i: nat)
    requires i < |values|
    ensures before + Texts(values[..i + 1]) == before + Texts(values[..i]) + [Text(values[i])]
  {
    assert Texts(values[..i + 1]) == Texts(values[..i]) + [Text(values[i])];
  }

  method WriteWork(output: Hasher, item: WorkItem)
    requires output.Valid()
    modifies output
    ensures output.Valid() && output.written == old(output.written) + ItemTokens(item)
  {
    hide Framed, Hasher.Valid, Texts;
    ghost var before := output.written;
    output.WriteString(item.tenant);
    output.WriteString(item.domain);
    output.WriteString(item.use);
    output.WriteString(item.profile);
    output.WriteCount(|item.algorithms|);
    assert output.written == before + ItemHead(item);
    WriteAlgorithms(output, item.algorithms);
    assert before + ItemHead(item) + Texts(item.algorithms) == before + ItemTokens(item);
  }

  method WriteItems(output: Hasher, work: seq<WorkItem>)
    requires output.Valid()
    modifies output
    ensures output.Valid() && output.written == old(output.written) + WorkTokens(work)
  {
    hide Framed, Hasher.Valid, ItemTokens;
    ghost var before := output.written;
    var i := 0;
    assert work[..|work|] == work;
    while i < |work|
      invariant 0 <= i <= |work|
      invariant output.Valid() && output.written == before + WorkTokens(work[..i])
    {
      assert work[..i + 1][..i] == work[..i];
      WriteWork(output, work[i]);
      assert before + (WorkTokens(work[..i]) + ItemTokens(work[i])) == before + WorkTokens(work[..i]) + ItemTokens(work[i]);
      i := i + 1;
    }
  }

  method FrozenWorkDigest(sha: Sha256, utf8: TextCheck, work: seq<WorkItem>) returns (r: Option<Digest>)
    ensures r == if ValidWork(utf8, work) then Some(sha(Preimage(Frozen(work)))) else None
  {
    hide ValidWork, WorkTokens, Framed, FROZEN_DOMAIN;
    var ok := ValidateWork(utf8, work);
    if !ok {
      return None;
    }
    var output := new Hasher();
    output.WriteString(FROZEN_DOMAIN);
    output.WriteCount(|work|);
    assert output.written == Head(Frozen(work));
    WriteItems(output, work);
    return Some(sha(output.fed));
  }

  predicate ValidPlan(utf8: TextCheck, terms: Terms, work: seq<WorkItem>) {
    ValidTerms(utf8, terms) && (terms.mode == Emergency ==> |work| == 1) && ValidWork(utf8, work)
  }

  method CampaignPlanDigest(sha: Sha256, utf8: TextCheck, terms: Terms, work: seq<WorkItem>) returns (r: Option<Digest>)
    ensures r == if ValidPlan(utf8, terms, work)
                 then Some(sha(Preimage(Campaign(terms, sha(Preimage(Frozen(work))))))) else None
  {
    hide ValidWork, ValidTerms, Framed, PLAN_DOMAIN, WorkTokens, FROZEN_DOMAIN;
    if !ValidTerms(utf8, terms) || (terms.mode == Emergency && |work| != 1) {
      return None;
    }
    var frozen := FrozenWorkDigest(sha, utf8, work);
    if frozen.None? {
      return None;
    }
    var output := new Hasher();
    WritePlan(output, terms, frozen.value);
    WritePolicies(output, terms);
    assert PlanTokens(terms, frozen.value) + PolicyTokens(terms) == Tokens(Campaign(terms, frozen.value));
    return Some(sha(output.fed));
  }

  function PlanTokens(t: Terms, frozen: Digest): seq<Token> {
    [Text(PLAN_DOMAIN), Text(t.version), Text(ModeName(t.mode)), Text(t.sourceSchema), Generation(t.sourceGeneration),
     Generation(t.candidateGeneration), Text(t.operationId), Hash(frozen)]
  }

  function PolicyTokens(t: Terms): seq<Token> {
    [Text(t.emergencyReason), Text(t.rotationPolicy), Text(t.dnsPolicy), Text(t.retentionPolicy), Text(t.limitProfile)]
  }

  method WritePlan(output: Hasher, terms: Terms, frozen: Digest)
    requires output.Valid() && output.written == []
    modifies output
    ensures output.Valid() && output.written == PlanTokens(terms, frozen)
  {
    hide Framed, PLAN_DOMAIN, Hasher.Valid;
    output.WriteString(PLAN_DOMAIN);
    output.WriteString(terms.version);
    output.WriteString(ModeName(terms.mode));
    output.WriteString(terms.sourceSchema);
    output.WriteUint64(terms.sourceGeneration);
    output.WriteUint64(terms.candidateGeneration);
    output.WriteString(terms.operationId);
    output.WriteDigest(frozen);
  }

  method WritePolicies(output: Hasher, terms: Terms)
    requires output.Valid()
    modifies output
    ensures output.Valid() && output.written == old(output.written) + PolicyTokens(terms)
  {
    hide Framed, Hasher.Valid;
    output.WriteString(terms.emergencyReason);
    output.WriteString(terms.rotationPolicy);
    output.WriteString(terms.dnsPolicy);
    output.WriteString(terms.retentionPolicy);
    output.WriteString(terms.limitProfile);
  }

  method DnsBatchDigest(sha: Sha256, batch: DnsBatch) returns (r: Option<Digest>)
    ensures r == if ValidBatch(batch) then Some(sha(Preimage(Batch(batch)))) else None
  {
    hide Framed, BATCH_DOMAIN;
    if !ValidBatch(batch) {
      return None;
    }
    var output := new Hasher();
    output.WriteString(BATCH_DOMAIN);
    output.WriteDigest(batch.candidate);
    output.WriteDigest(batch.frozenWork);
    output.WriteCount(batch.ordinal);
    output.WriteCount(batch.start);
    output.WriteCount(batch.end);
    output.WriteCount(batch.total);
    assert output.written == Tokens(Batch(batch));
    return Some(sha(output.fed));
  }

  method ValidateTargets(targets: seq<PurgeTarget>, current: Uint64) returns (ok: bool)
    ensures ok <==>
      && (forall i | 0 <= i < |targets| :: ValidTarget(targets[i], current))
      && forall i | 0 < i < |targets| :: targets[i - 1].generation < targets[i].generation
  {
    var previous := 0;
    var i := 0;
    while i < |targets|
      invariant 0 <= i <= |targets|
      invariant forall j | 0 <= j < i :: ValidTarget(targets[j], current)
      invariant forall j | 0 < j < i :: targets[j - 1].generation < targets[j].generation
      invariant previous == if i == 0 then 0 else targets[i - 1].generation
    {
      if targets[i].generation <= previous || !ValidTarget(targets[i], current) {
        return false;
      }
      previous := targets[i].generation;
      i := i + 1;
    }
    return true;
  }

  method PurgePlanDigest(sha: Sha256, utf8: TextCheck, plan: PurgePlan) returns (r: Option<Digest>)
    ensures r == if ValidPurge(utf8, plan) then Some(sha(Preimage(Purge(plan)))) else None
  {
    hide Framed, PURGE_DOMAIN, ValidTarget, ValidVersion;
    if plan.version != CONTRACT_VERSION || plan.currentGeneration == 0 || !ValidVersion(utf8, plan.inventoryVersion)
      || !ValidVersion(utf8, plan.policyVersion) || plan.targets == [] || |plan.targets| > MAX_TARGETS {
      return None;
    }
    var ok := ValidateTargets(plan.targets, plan.currentGeneration);
    if !ok {
      return None;
    }
    var output := new Hasher();
    output.WriteString(PURGE_DOMAIN);
    output.WriteString(plan.version);
    output.WriteUint64(plan.currentGeneration);
    output.WriteString(plan.inventoryVersion);
    output.WriteString(plan.policyVersion);
    output.WriteCount(|plan.targets|);
    ghost var head := Head(Purge(plan));
    assert output.written == head;
    WriteTargets(output, plan.targets);
    return Some(sha(output.fed));
  }

  method WriteTargets(output: Hasher, targets: seq<PurgeTarget>)
    requires output.Valid()
    modifies output
    ensures output.Valid() && output.written == old(output.written) + TargetsTokens(targets)
  {
    hide Framed;
    ghost var before := output.written;
    var i := 0;
    assert targets[..|targets|] == targets;
    while i < |targets|
      invariant 0 <= i <= |targets|
      invariant output.Valid() && output.written == before + TargetsTokens(targets[..i])
    {
      assert targets[..i + 1][..i] == targets[..i];
      var target := targets[i];
      ghost var now := output.written;
      output.WriteUint64(target.generation);
      output.WriteString(target.schema);
      output.WriteString(target.lifecycle);
      output.WriteDigest(target.content);
      assert output.written == now + TargetTokens(target);
      assert before + TargetsTokens(targets[..i]) + TargetTokens(target)
          == before + (TargetsTokens(targets[..i]) + TargetTokens(target));
      i := i + 1;
    }
  }

  method AuditCommitment(sha: Sha256, utf8: TextCheck, receipt: Receipt) returns (r: Option<Digest>)
    ensures r == if ValidReceipt(utf8, receipt) then Some(sha(Preimage(Audit(receipt)))) else None
  {
    hide Framed, AUDIT_DOMAIN, ValidReceipt;
    if !ValidReceipt(utf8, receipt) {
      return None;
    }
    var output := new Hasher();
    output.WriteString(AUDIT_DOMAIN);
    output.WriteString(receipt.version);
    output.WriteUint64(receipt.generation);
    output.WriteString(receipt.schema);
    output.WriteString(receipt.lifecycle);
    output.WriteString(receipt.operationClass);
    output.WriteDigest(receipt.content);
    output.WriteString(receipt.destroyedAt.text);
    output.WriteString(receipt.result);
    output.WriteString(receipt.policyVersion);
    output.WriteDigest(receipt.purgePlan);
    assert output.written == Tokens(Audit(receipt));
    return Some(sha(output.fed));
  }

  /** The campaign digest binds the work list itself: with no collision between the two frozen inventories, plans
      with one preimage are one plan. */
  lemma PlanBindsWork(sha: Sha256, utf8: TextCheck, a: Terms, x: seq<WorkItem>, b: Terms, y: seq<WorkItem>)
    requires ValidPlan(utf8, a, x) && ValidPlan(utf8, b, y)
    requires Preimage(Campaign(a, sha(Preimage(Frozen(x))))) == Preimage(Campaign(b, sha(Preimage(Frozen(y)))))
    ensures a == b
    ensures x == y || (Preimage(Frozen(x)) != Preimage(Frozen(y))
                       && sha(Preimage(Frozen(x))) == sha(Preimage(Frozen(y))))
  {
    hide Preimage, ValidWork, ValidTerms;
    CampaignInjective(utf8, a, sha(Preimage(Frozen(x))), b, sha(Preimage(Frozen(y))));
    if Preimage(Frozen(x)) == Preimage(Frozen(y)) {
      FrozenInjective(utf8, x, y);
    }
  }
}
