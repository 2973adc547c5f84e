/** Sealed envelopes: what is sealed over, the text they travel as, and where one opens. AES-GCM is an
    ideal box that opens what was sealed, under what it was sealed over, and nothing else. */
module Envelopes {
  import opened Base64
  import opened Decimals
  import opened Octets
  import opened Strings
  import opened Wrappers

  /** A configured key, by the two values derived from it: the generation tag that is written
      in the clear, and the key of the box. */
  datatype Key = Key(tag: string, box: Bytes)

  predicate IsTag(tag: string)
  {
    |tag| == 8 && forall c :: c in tag ==> '0' <= c <= '9' || 'a' <= c <= 'f'
  }

  /** How an address is read, and the address this build publishes for each roster source. */
  datatype Addresses = Addresses(originOf: string -> string, published: map<string, string>)

  predicate IsSafeSource(source: string)
  {
    && 1 <= |source| <= 32
    && forall c :: c in source ==> 'a' <= c <= 'z' || '0' <= c <= '9' || c == '_' || c == '-'
  }

  const UNBOUND_VERSION := "v1"
  const VERSION := "v2"

  // ── What an envelope is for ───────────────────────────────────────────────

  /** A catalogue login of the superseded scheme, one bound to where it may be sent, a member's own. */
  datatype Kind =
    | Unbound(source: string)
    | Bound(source: string, origin: string)
    | Member(service: string, member: int, origin: string)

  predicate IsProper(kind: Kind)
  {
    match kind
    case Unbound(source) => IsSafeSource(source)
    case Bound(source, origin) => IsSafeSource(source) && origin != ""
    case Member(service, _, origin) => IsSafeSource(service) && origin != ""
  }

  function Version(kind: Kind): string
  {
    if kind.Unbound? then UNBOUND_VERSION else VERSION
  }

  /** The kind's own word, which is what keeps a member's login out of the catalogue's table. */
  function Word(kind: Kind): string
  {
    if kind.Member? then "member-login" else "catalogue-credential"
  }

  function Subject(kind: Kind): string
  {
    match kind
    case Unbound(source) => source
    case Bound(source, origin) => source + "/" + origin
    case Member(service, member, origin) => service + "/" + (Decimal(member) + "/" + origin)
  }

  /** `endpaper/v1/catalogue-credential/...`, and the same for the other kinds. */
  function Purpose(kind: Kind): string
  {
    "endpaper/" + (Version(kind) + "/" + (Word(kind) + "/" + Subject(kind)))
  }

  function Associated(tag: string, kind: Kind): string
  {
    Version(kind) + "." + (tag + "." + Purpose(kind))
  }

  // ── One string, one meaning ───────────────────────────────────────────────

  /** The first separator splits the text whatever stands after it. */
  lemma HeadIsDetermined(c: char, a: string, x: string, b: string, y: string)
    requires c !in a && c !in b && a + [c] + x == b + [c] + y
    ensures a == b && x == y
  {
    SplitOfPrefixed(c, a, [c] + x);
    SplitOfPrefixed(c, b, [c] + y);
    assert a + [c] + x == a + ([c] + x) && b + [c] + y == b + ([c] + y);
    assert a + "" == a && b + "" == b;
    assert SplitOn(c, a + ([c] + x))[0] == a && SplitOn(c, b + ([c] + y))[0] == b;
    TailIsDetermined(a + [c], x, y);
  }

  lemma TailIsDetermined(head: string, x: string, y: string)
    requires head + x == head + y
    ensures x == y
  {
    assert x == (head + x)[|head|..] == y;
  }

  lemma SubjectIsInjective(k: Kind, l: Kind)
    requires IsProper(k) && IsProper(l) && Version(k) == Version(l) && Word(k) == Word(l) && Subject(k) == Subject(l)
    ensures k == l
  {
    WordsTellKindsApart(k, l);
    if k.Bound? {
      HeadIsDetermined('/', k.source, k.origin, l.source, l.origin);
    } else if k.Member? {
      var rest, other := Decimal(k.member) + "/" + k.origin, Decimal(l.member) + "/" + l.origin;
      HeadIsDetermined('/', k.service, rest, l.service, other);
      DecimalIsRead(k.member);
      DecimalIsRead(l.member);
      HeadIsDetermined('/', Decimal(k.member), k.origin, Decimal(l.member), l.origin);
    }
  }

  lemma WordsTellKindsApart(k: Kind, l: Kind)
    requires Version(k) == Version(l) && Word(k) == Word(l)
    ensures k.Unbound? == l.Unbound? && k.Bound? == l.Bound? && k.Member? == l.Member?
  {
    assert Version(k)[1] == if k.Unbound? then '1' else '2';
    assert Word(k)[0] == if k.Member? then 'm' else 'c';
  }

  lemma SlashIsDetermined(a: string, x: string, b: string, y: string)
    requires '/' !in a && '/' !in b && a + "/" + x == b + "/" + y
    ensures a == b && x == y
  {
    assert "/" == ['/'];
    HeadIsDetermined('/', a, x, b, y);
  }

  lemma PurposeSaysTheVersion(k: Kind, l: Kind)
    requires IsProper(k) && IsProper(l) && Purpose(k) == Purpose(l)
    ensures Version(k) == Version(l) && Word(k) + "/" + Subject(k) == Word(l) + "/" + Subject(l)
  {
    var x, y := Word(k) + "/" + Subject(k), Word(l) + "/" + Subject(l);
    TailIsDetermined("endpaper/", Version(k) + "/" + x, Version(l) + "/" + y);
    SlashIsDetermined(Version(k), x, Version(l), y);
  }

  lemma PurposeIsInjective(k: Kind, l: Kind)
    requires IsProper(k) && IsProper(l) && Purpose(k) == Purpose(l)
    ensures k == l
  {
    PurposeSaysTheVersion(k, l);
    SlashIsDetermined(Word(k), Subject(k), Word(l), Subject(l));
    SubjectIsInjective(k, l);
  }

  /** What is sealed over says which key, which scheme, whose login and where it may go, and no
      two of those read the same: across both catalogue schemes and the members' logins. */
  lemma AssociatedIsInjective(tag: string, k: Kind, tag': string, l: Kind)
    requires IsTag(tag) && IsTag(tag') && IsProper(k) && IsProper(l)
    requires Associated(tag, k) == Associated(tag', l)
    ensures tag == tag' && k == l
  {
    var x, y := tag + "." + Purpose(k), tag' + "." + Purpose(l);
    HeadIsDetermined('.', Version(k), x, Version(l), y);
    HeadIsDetermined('.', tag, Purpose(k), tag', Purpose(l));
    PurposeIsInjective(k, l);
  }

  /** What it is for, as it is written, part by part. */
  lemma PurposeReads(kind: Kind) returns (v: string, word: string, subject: string)
    ensures Purpose(kind) == "endpaper/" + (v + ("/" + (word + ("/" + subject))))
    ensures match kind
            case Unbound(source) => v == "v1" && word == "catalogue-credential" && subject == source
            case Bound(source, origin) => v == "v2" && word == "catalogue-credential" && subject == source + "/" + origin
            case Member(service, member, origin) =>
              v == "v2" && word == "member-login" && subject == service + "/" + (Decimal(member) + "/" + origin)
  {
    v, word, subject := Version(kind), Word(kind), Subject(kind);
  }

  // ── The ideal box ─────────────────────────────────────────────────────────

  /** What the box checks when it opens: everything it was given when it sealed. */
  datatype Ticket = Ticket(box: Bytes, nonce: Bytes, sealed: Bytes, associated: string)

  /** One sealing: under which key, for what, and the secret. */
  datatype Act = Act(key: Key, kind: Kind, secret: string)

  /** Every sealing there has been. */
  type Box = map<Ticket, Act>

  ghost predicate IsHonestly(t: Ticket, a: Act)
  {
    IsTag(a.key.tag) && IsProper(a.kind) && t.box == a.key.box && t.associated == Associated(a.key.tag, a.kind)
  }

  /** Every sealing was one of this application's, over its own associated data, with a nonce of its own. */
  ghost predicate Honest(box: Box)
  {
    && (forall t :: t in box ==> IsHonestly(t, box[t]))
    && (forall t, u :: t in box && u in box && t.nonce == u.nonce ==> t == u)
  }

  function TicketOf(key: Key, kind: Kind, nonce: Bytes, sealed: Bytes): Ticket
  {
    Ticket(key.box, nonce, sealed, Associated(key.tag, kind))
  }

  /** The box after one more sealing, which drew `nonce` and gave `sealed`. */
  function AfterSealing(box: Box, key: Key, kind: Kind, secret: string, nonce: Bytes, sealed: Bytes): Box
  {
    box[TicketOf(key, kind, nonce, sealed) := Act(key, kind, secret)]
  }

  ghost predicate IsDrawn(box: Box, nonce: Bytes)
  {
    forall t :: t in box ==> t.nonce != nonce
  }

  lemma SealingStaysHonest(box: Box, key: Key, kind: Kind, secret: string, nonce: Bytes, sealed: Bytes)
    requires Honest(box) && IsDrawn(box, nonce) && IsTag(key.tag) && IsProper(kind)
    ensures Honest(AfterSealing(box, key, kind, secret, nonce, sealed))
  {
  }

  /** The envelope's text. */
  function Envelope(key: Key, kind: Kind, nonce: Bytes, sealed: Bytes): string
  {
    Join(".", [Version(kind), key.tag, B64(nonce), B64(sealed)])
  }

  /** The text parses back to its parts: no part can hold a dot. */
  lemma EnvelopeParses(key: Key, kind: Kind, nonce: Bytes, sealed: Bytes)
    requires IsTag(key.tag)
    ensures SplitOn('.', Envelope(key, kind, nonce, sealed)) == [Version(kind), key.tag, B64(nonce), B64(sealed)]
    ensures Unb64(B64(nonce)) == Some(nonce) && Unb64(B64(sealed)) == Some(sealed)
  {
    B64IsPlain(nonce);
    B64IsPlain(sealed);
    RoundTrip(nonce);
    RoundTrip(sealed);
    SplitJoin('.', [Version(kind), key.tag, B64(nonce), B64(sealed)]);
  }

  // ── Opening ───────────────────────────────────────────────────────────────

  datatype Refusal =
    | UnknownFormat | UnboundElsewhere | OtherKey | UnsafeSource | NoAddress | Damaged
    | NothingStored | NeedsBothHalves | ColonInUsername

  /** Where an envelope that names no address of its own is let open at all. */
  predicate MayOpenUnbound(at: Addresses, source: string, base: string)
  {
    && source in at.published
    && at.originOf(base) != "" && at.originOf(base) == at.originOf(at.published[source])
  }

  predicate IsARosterSource(at: Addresses, source: string)
  {
    source in at.published && MayOpenUnbound(at, source, at.published[source])
  }

  /** The kind a catalogue envelope is read as, or why there is none. */
  function KindAt(at: Addresses, source: string, base: string, version: string): Result<Kind, Refusal>
  {
    if !IsSafeSource(source) then Err(UnsafeSource)
    else if at.originOf(base) == "" then Err(NoAddress)
    else Ok(if version == UNBOUND_VERSION then Unbound(source) else Bound(source, at.originOf(base)))
  }

  /** A member's login is refused in one breath: no address, or no service. */
  function MemberKindAt(at: Addresses, service: string, member: int, base: string): Result<Kind, Refusal>
  {
    if at.originOf(base) == "" || !IsSafeSource(service) then Err(NoAddress)
    else Ok(Member(service, member, at.originOf(base)))
  }

  function Open(box: Box, key: Key, kind: Kind, nonce: string, sealed: string): Result<string, Refusal>
  {
    match (Unb64(nonce), Unb64(sealed))
    case (Some(n), Some(c)) =>
      var t := TicketOf(key, kind, n, c);
      if t in box then Ok(box[t].secret) else Err(Damaged)
    case _ => Err(Damaged)
  }

  function Unseal(box: Box, key: Key, at: Addresses, source: string, base: string, envelope: string): Result<string, Refusal>
  {
    var parts := SplitOn('.', envelope);
    if |parts| != 4 || parts[0] !in [UNBOUND_VERSION, VERSION] then Err(UnknownFormat)
    else if parts[0] == UNBOUND_VERSION && !MayOpenUnbound(at, source, base) then Err(UnboundElsewhere)
    else if parts[1] != key.tag then Err(OtherKey)
    else
      match KindAt(at, source, base, parts[0])
      case Err(e) => Err(e)
      case Ok(kind) => Open(box, key, kind, parts[2], parts[3])
  }

  function UnsealMember(box: Box, key: Key, at: Addresses, service: string, member: int, base: string, envelope: string)
    : Result<string, Refusal>
  {
    var parts := SplitOn('.', envelope);
    if |parts| != 4 || parts[0] != VERSION then Err(UnknownFormat)
    else if parts[1] != key.tag then Err(OtherKey)
    else
      match MemberKindAt(at, service, member, base)
      case Err(e) => Err(e)
      case Ok(kind) => Open(box, key, kind, parts[2], parts[3])
  }

  /** Four parts, the first a version there is. */
  predicate IsAnEnvelope(parts: seq<string>)
  {
    |parts| == 4 && (parts[0] == "v1" || parts[0] == "v2")
  }

  /** A superseded envelope, read for an address that is not the one published for its source. */
  predicate IsElsewhere(at: Addresses, source: string, base: string, parts: seq<string>)
  {
    && IsAnEnvelope(parts) && parts[0] == "v1"
    && (source !in at.published || at.originOf(base) == "" || at.originOf(at.published[source]) != at.originOf(base))
  }

  /** What an opening that fails is told: the first of these that is so. */
  lemma RefusalSays(box: Box, key: Key, at: Addresses, source: string, base: string, envelope: string)
    ensures var parts, r := SplitOn('.', envelope), Unseal(box, key, at, source, base, envelope);
            && (r == Err(UnknownFormat) <==> !IsAnEnvelope(parts))
            && (r == Err(UnboundElsewhere) <==> IsElsewhere(at, source, base, parts))
            && (r == Err(OtherKey) <==> IsAnEnvelope(parts) && !IsElsewhere(at, source, base, parts) && parts[1] != key.tag)
            && (IsAnEnvelope(parts) && !IsElsewhere(at, source, base, parts) && parts[1] == key.tag ==>
                  && (r == Err(UnsafeSource) <==> !IsSafeSource(source))
                  && (r == Err(NoAddress) <==> IsSafeSource(source) && at.originOf(base) == "")
                  && (IsSafeSource(source) && at.originOf(base) != "" ==> r.Ok? || r == Err(Damaged)))
  {
  }

  /** And a member's, where only the current scheme is read. */
  lemma MemberRefusalSays(box: Box, key: Key, at: Addresses, service: string, member: int, base: string, envelope: string)
    ensures var parts, r := SplitOn('.', envelope), UnsealMember(box, key, at, service, member, base, envelope);
            && (r == Err(UnknownFormat) <==> |parts| != 4 || parts[0] != "v2")
            && (r == Err(OtherKey) <==> |parts| == 4 && parts[0] == "v2" && parts[1] != key.tag)
            && (|parts| == 4 && parts[0] == "v2" && parts[1] == key.tag ==>
                  && (r == Err(NoAddress) <==> at.originOf(base) == "" || !IsSafeSource(service))
                  && (at.originOf(base) != "" && IsSafeSource(service) ==> r.Ok? || r == Err(Damaged)))
  {
  }

  /** `[a-z0-9_-]{1,32}` by code points: U+0061 to U+007A, U+0030 to U+0039, U+005F and U+002D, up to 32 of them. */
  lemma SafeSourceIs(source: string)
    ensures IsSafeSource(source) <==>
              source != "" && |source| < 33
              && forall i :: 0 <= i < |source| ==>
                   var p := source[i] as int; 0x61 <= p <= 0x7A || 0x30 <= p <= 0x39 || p == 0x5F || p == 0x2D
  {
    assert forall i :: 0 <= i < |source| ==> source[i] in source;
  }

  /** Sealed for just this: the source and the address, or by the superseded scheme at the one
      address it may open at. */
  predicate IsFor(at: Addresses, source: string, base: string, kind: Kind)
  {
    && at.originOf(base) != ""
    && (|| kind == Bound(source, at.originOf(base))
        || (kind == Unbound(source) && source in at.published && at.originOf(at.published[source]) == at.originOf(base)))
  }

  ghost predicate IsSealed(box: Box, key: Key, kind: Kind, secret: string)
  {
    exists t :: t in box && box[t] == Act(key, kind, secret)
  }

  lemma OpenedWasSealed(box: Box, key: Key, kind: Kind, nonce: string, sealed: string)
    requires Honest(box) && IsTag(key.tag) && IsProper(kind)
    ensures var r := Open(box, key, kind, nonce, sealed); r.Ok? ==> IsSealed(box, key, kind, r.value)
  {
    if Open(box, key, kind, nonce, sealed).Ok? {
      var t := TicketOf(key, kind, Unb64(nonce).value, Unb64(sealed).value);
      assert IsHonestly(t, box[t]);
      AssociatedIsInjective(key.tag, kind, box[t].key.tag, box[t].kind);
    }
  }

  /** An envelope opens only where it was sealed. Whatever text stands on a source's row, and
      whoever moved it there, what comes out was sealed under this key for this very source and
      address, or by the superseded scheme for this source, whose published address this is. */
  lemma OpensOnlyWhereSealed(box: Box, key: Key, at: Addresses, source: string, base: string, envelope: string)
    requires Honest(box) && IsTag(key.tag)
    ensures var r := Unseal(box, key, at, source, base, envelope);
            r.Ok? ==> exists kind :: IsFor(at, source, base, kind) && IsSealed(box, key, kind, r.value)
  {
    var parts := SplitOn('.', envelope);
    if Unseal(box, key, at, source, base, envelope).Ok? {
      var kind := KindAt(at, source, base, parts[0]).value;
      OpenedWasSealed(box, key, kind, parts[2], parts[3]);
      assert IsFor(at, source, base, kind);
    }
  }

  /** A member's login opens only for that member, that service and that address, and never as a
      catalogue's. */
  lemma MemberOpensOnlyWhereSealed(
    box: Box, key: Key, at: Addresses, service: string, member: int, base: string, envelope: string)
    requires Honest(box) && IsTag(key.tag)
    ensures var r := UnsealMember(box, key, at, service, member, base, envelope);
            r.Ok? ==> IsSealed(box, key, Member(service, member, at.originOf(base)), r.value)
  {
    var parts := SplitOn('.', envelope);
    if UnsealMember(box, key, at, service, member, base, envelope).Ok? {
      OpenedWasSealed(box, key, Member(service, member, at.originOf(base)), parts[2], parts[3]);
    }
  }

  lemma UnsealParts(
    box: Box, key: Key, at: Addresses, source: string, base: string, envelope: string, parts: seq<string>)
    requires SplitOn('.', envelope) == parts && |parts| == 4 && parts[0] in [UNBOUND_VERSION, VERSION]
    ensures Unseal(box, key, at, source, base, envelope)
         == if parts[0] == UNBOUND_VERSION && !MayOpenUnbound(at, source, base) then Err(UnboundElsewhere)
            else if parts[1] != key.tag then Err(OtherKey)
            else
              match KindAt(at, source, base, parts[0])
              case Err(e) => Err(e)
              case Ok(kind) => Open(box, key, kind, parts[2], parts[3])
  {
  }

  lemma DrawnOpensAs(box: Box, key: Key, kind: Kind, secret: string, nonce: Bytes, sealed: Bytes, key': Key, kind': Kind)
    requires Honest(box) && IsDrawn(box, nonce)
    requires IsTag(key.tag) && IsProper(kind) && IsTag(key'.tag) && IsProper(kind')
    ensures Open(AfterSealing(box, key, kind, secret, nonce, sealed), key', kind', B64(nonce), B64(sealed))
         == if key' == key && kind' == kind then Ok(secret) else Err(Damaged)
  {
    RoundTrip(nonce);
    RoundTrip(sealed);
    if TicketOf(key', kind', nonce, sealed) == TicketOf(key, kind, nonce, sealed) {
      AssociatedIsInjective(key'.tag, kind', key.tag, kind);
    }
  }

  /** Where a freshly sealed envelope opens, and what comes out: exactly under its key and exactly
      where it is for. Nothing else in the box, and no other kind, answers for it. */
  lemma SealedOpensExactlyThere(
    box: Box, key: Key, kind: Kind, secret: string, nonce: Bytes, sealed: Bytes,
    at: Addresses, key': Key, source: string, base: string)
    requires Honest(box) && IsDrawn(box, nonce)
    requires IsTag(key.tag) && IsProper(kind) && IsTag(key'.tag)
    ensures var r := Unseal(AfterSealing(box, key, kind, secret, nonce, sealed), key', at, source, base,
                            Envelope(key, kind, nonce, sealed));
            (r.Ok? <==> key' == key && IsFor(at, source, base, kind)) && (r.Ok? ==> r.value == secret)
  {
    EnvelopeParses(key, kind, nonce, sealed);
    var after, text := AfterSealing(box, key, kind, secret, nonce, sealed), Envelope(key, kind, nonce, sealed);
    var parts := [Version(kind), key.tag, B64(nonce), B64(sealed)];
    UnsealParts(after, key', at, source, base, text, parts);
    var read := KindAt(at, source, base, Version(kind));
    if read.Ok? {
      DrawnOpensAs(box, key, kind, secret, nonce, sealed, key', read.value);
    }
  }

  lemma MemberSealedOpensExactlyThere(
    box: Box, key: Key, kind: Kind, secret: string, nonce: Bytes, sealed: Bytes,
    at: Addresses, key': Key, service: string, member: int, base: string)
    requires Honest(box) && IsDrawn(box, nonce)
    requires IsTag(key.tag) && IsProper(kind) && IsTag(key'.tag)
    ensures var r := UnsealMember(AfterSealing(box, key, kind, secret, nonce, sealed), key', at, service, member, base,
                                  Envelope(key, kind, nonce, sealed));
            (r.Ok? <==> key' == key && kind == Member(service, member, at.originOf(base))) && (r.Ok? ==> r.value == secret)
  {
    EnvelopeParses(key, kind, nonce, sealed);
    match MemberKindAt(at, service, member, base) {
      case Err(_) =>
      case Ok(kind') => DrawnOpensAs(box, key, kind, secret, nonce, sealed, key', kind');
    }
  }

  // ── The question asked without an address ─────────────────────────────────

  /** `_openable_by`: what an opening is refused for whatever the address turns out to be. */
  predicate OpenableBy(key: Key, at: Addresses, source: string, envelope: string)
  {
    var parts := SplitOn('.', envelope);
    && |parts| == 4 && parts[0] in [UNBOUND_VERSION, VERSION] && parts[1] == key.tag
    && (parts[0] != UNBOUND_VERSION || IsARosterSource(at, source))
  }

  predicate IsDecidedWithoutAddress(r: Result<string, Refusal>)
  {
    r.Err? && r.error in [UnknownFormat, UnboundElsewhere, OtherKey]
  }

  /** Answered no exactly where every address is refused for the format, the key or the scheme:
      so a new key strands no envelope that any address could have opened. */
  lemma OpenableIffSomeAddressGetsPast(box: Box, key: Key, at: Addresses, source: string, envelope: string)
    ensures !OpenableBy(key, at, source, envelope)
       <==> forall base :: IsDecidedWithoutAddress(Unseal(box, key, at, source, base, envelope))
  {
    if OpenableBy(key, at, source, envelope) {
      var base := if source in at.published then at.published[source] else "";
      assert !IsDecidedWithoutAddress(Unseal(box, key, at, source, base, envelope));
    }
  }
}
