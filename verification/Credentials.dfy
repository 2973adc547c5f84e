/** The store of catalogue logins: put, read with its carrying forward of the superseded scheme,
    forget, and the ladder that decides which login a request carries. */
module Credentials {
  import opened Envelopes
  import opened Octets
  import opened Strings
  import opened Wrappers

  /** The rows by source, and every sealing the box has done. */
  datatype Store = Store(rows: map<string, string>, box: Box)

  /** What the box draws for one sealing. */
  datatype Draw = Draw(nonce: Bytes, sealed: Bytes)

  type Pair = (string, string)

  /** The text split at its first colon; all of it and nothing where there is none. */
  function Partition(text: string): Pair
  {
    if text == "" then ("", "")
    else if text[0] == ':' then ("", text[1..])
    else var rest := Partition(text[1..]); ([text[0]] + rest.0, rest.1)
  }

  // ── Operations, on values ─────────────────────────────────────────────────

  /** What the box gives is its own: in no sealing before, and on no row. */
  ghost predicate IsFresh(store: Store, draw: Draw)
  {
    && IsDrawn(store.box, draw.nonce)
    && forall s :: s in store.rows ==> !Carries(store.rows[s], draw.nonce)
  }

  predicate Carries(envelope: string, nonce: Bytes)
  {
    var parts := SplitOn('.', envelope);
    |parts| == 4 && Base64.Unb64(parts[2]) == Some(nonce)
  }

  /** The row written: the secret sealed for the source and the address. */
  function WithSealed(store: Store, key: Key, source: string, origin: string, secret: string, draw: Draw): Store
  {
    var kind := Bound(source, origin);
    Store(
      store.rows[source := Envelope(key, kind, draw.nonce, draw.sealed)],
      AfterSealing(store.box, key, kind, secret, draw.nonce, draw.sealed))
  }

  function PutRefusal(at: Addresses, source: string, base: string, pair: Pair): Option<Refusal>
  {
    if pair.0 == "" || pair.1 == "" then Some(NeedsBothHalves)
    else if ':' in pair.0 then Some(ColonInUsername)
    else if !IsSafeSource(source) then Some(UnsafeSource)
    else if at.originOf(base) == "" then Some(NoAddress)
    else None
  }

  function Secret(pair: Pair): string
  {
    pair.0 + ":" + pair.1
  }

  function PutIn(store: Store, key: Key, at: Addresses, source: string, base: string, pair: Pair, draw: Draw): Store
  {
    if PutRefusal(at, source, base, pair).Some? then store
    else WithSealed(store, key, source, at.originOf(base), Secret(pair), draw)
  }

  function Opened(store: Store, key: Key, at: Addresses, source: string, base: string): Result<string, Refusal>
  {
    if source !in store.rows || store.rows[source] == "" then Err(NothingStored)
    else Unseal(store.box, key, at, source, base, store.rows[source])
  }

  /** What a read answers. */
  function Answer(store: Store, key: Key, at: Addresses, source: string, base: string): Result<Pair, Refusal>
  {
    match Opened(store, key, at, source, base)
    case Err(e) => Err(e)
    case Ok(text) => Ok(Partition(text))
  }

  /** The version an envelope names. */
  function VersionOf(envelope: string): string
  {
    SplitOn('.', envelope)[0]
  }

  /** A read carries a superseded envelope forward once it has opened; a write that cannot be made is
      dropped. */
  function ReadIn(
    store: Store, key: Key, at: Addresses, source: string, base: string, draw: Draw, writable: bool): Store
  {
    var read := Opened(store, key, at, source, base);
    if read.Err? || VersionOf(store.rows[source]) == VERSION || !writable then store
    else WithSealed(store, key, source, at.originOf(base), read.value, draw)
  }

  function ForgetIn(store: Store, source: string): Store
  {
    store.(rows := store.rows - {source})
  }

  // ── Operations ────────────────────────────────────────────────────────────

  class Vault {
    var rows: map<string, string>
    var box: Box

    function Current(): Store
      reads this
    {
      Store(rows, box)
    }

    method Seal(key: Key, at: Addresses, source: string, base: string, secret: string, draw: Draw)
      returns (envelope: Result<string, Refusal>)
      requires Honest(box) && IsDrawn(box, draw.nonce) && IsTag(key.tag)
      modifies this`box
      ensures Honest(box)
      ensures envelope.Err? <==> !IsSafeSource(source) || at.originOf(base) == ""
      ensures envelope.Err? ==> box == old(box) && envelope.error == if !IsSafeSource(source) then UnsafeSource else NoAddress
      ensures envelope.Ok? ==>
                && envelope.value == Envelope(key, Bound(source, at.originOf(base)), draw.nonce, draw.sealed)
                && box == AfterSealing(old(box), key, Bound(source, at.originOf(base)), secret, draw.nonce, draw.sealed)
    {
      var kind := KindAt(at, source, base, VERSION);
      if kind.Err? {
        return Err(kind.error);
      }
      SealingStaysHonest(box, key, kind.value, secret, draw.nonce, draw.sealed);
      box := AfterSealing(box, key, kind.value, secret, draw.nonce, draw.sealed);
      envelope := Ok(Envelope(key, kind.value, draw.nonce, draw.sealed));
    }

    method Put(key: Key, at: Addresses, source: string, base: string, username: string, password: string, draw: Draw)
      returns (refusal: Option<Refusal>)
      requires Honest(box) && IsFresh(Current(), draw) && IsTag(key.tag)
      modifies this
      ensures Honest(box)
      ensures refusal == PutRefusal(at, source, base, (username, password))
      ensures refusal.None? <==>
                username != "" && password != "" && ':' !in username && IsSafeSource(source) && at.originOf(base) != ""
      ensures refusal == Some(NeedsBothHalves) <==> username == "" || password == ""
      ensures refusal == Some(ColonInUsername) <==> username != "" && password != "" && ':' in username
      ensures refusal.Some? ==> Current() == old(Current())
      ensures Current() == PutIn(old(Current()), key, at, source, base, (username, password), draw)
      ensures refusal.None? ==> Answer(Current(), key, at, source, base) == Ok((username, password))
    {
      if username == "" || password == "" {
        return Some(NeedsBothHalves);
      }
      if ':' in username {
        return Some(ColonInUsername);
      }
      if IsSafeSource(source) && at.originOf(base) != "" {
        PutThenStored(Current(), key, at, source, base, (username, password), draw, base);
      }
      var envelope := Seal(key, at, source, base, username + ":" + password, draw);
      if envelope.Err? {
        return Some(envelope.error);
      }
      rows := rows[source := envelope.value];
      refusal := None;
    }

    method Forget(source: string) returns (had: bool)
      modifies this`rows
      ensures had <==> source in old(rows)
      ensures Current() == ForgetIn(old(Current()), source)
    {
      had := source in rows;
      rows := rows - {source};
    }

    /** Answers a login, and may write. */
    method Stored(key: Key, at: Addresses, source: string, base: string, draw: Draw, writable: bool)
      returns (answer: Result<Pair, Refusal>)
      requires Honest(box) && IsFresh(Current(), draw) && IsTag(key.tag)
      modifies this
      ensures Honest(box)
      ensures answer == Answer(old(Current()), key, at, source, base)
      ensures answer == Err(NothingStored) <==> source !in old(rows) || old(rows)[source] == ""
      ensures Current() == ReadIn(old(Current()), key, at, source, base, draw, writable)
    {
      if source !in rows || rows[source] == "" {
        return Err(NothingStored);
      }
      var envelope := rows[source];
      var read := Unseal(box, key, at, source, base, envelope);
      if read.Err? {
        return Err(read.error);
      }
      ResealIfSuperseded(key, at, source, base, envelope, read.value, draw, writable);
      answer := Ok(Partition(read.value));
    }

    method ResealIfSuperseded(
      key: Key, at: Addresses, source: string, base: string, envelope: string, read: string, draw: Draw, writable: bool)
      requires Honest(box) && IsDrawn(box, draw.nonce) && IsTag(key.tag)
      requires source in rows && rows[source] == envelope && Unseal(box, key, at, source, base, envelope) == Ok(read)
      modifies this
      ensures Honest(box)
      ensures Current() == if VersionOf(envelope) == VERSION || !writable then old(Current())
                           else WithSealed(old(Current()), key, source, at.originOf(base), read, draw)
    {
      if VersionOf(envelope) == VERSION || !writable {
        return;
      }
      var sealed := Seal(key, at, source, base, read, draw);
      if sealed.Ok? {
        rows := rows[source := sealed.value];
      }
    }
  }

  // ── One put, one read ─────────────────────────────────────────────────────

  lemma {:induction false} PartitionOfSecret(username: string, password: string)
    requires ':' !in username
    ensures Partition(username + ":" + password) == (username, password)
  {
    var text := username + ":" + password;
    if username == "" {
      assert text[0] == ':' && text[1..] == password;
    } else {
      assert text[0] == username[0] && text[1..] == username[1..] + ":" + password;
      assert [username[0]] + username[1..] == username;
      PartitionOfSecret(username[1..], password);
    }
  }

  /** Where a freshly sealed row opens: under its key, at its address. */
  lemma WithSealedOpens(
    store: Store, key: Key, at: Addresses, source: string, origin: string, secret: string, draw: Draw, key': Key, base: string)
    requires Honest(store.box) && IsDrawn(store.box, draw.nonce)
    requires IsTag(key.tag) && IsTag(key'.tag) && IsSafeSource(source) && origin != ""
    ensures var r := Opened(WithSealed(store, key, source, origin, secret, draw), key', at, source, base);
            (r.Ok? <==> key' == key && at.originOf(base) == origin) && (r.Ok? ==> r.value == secret)
  {
    var kind := Bound(source, origin);
    SealedOpensExactlyThere(store.box, key, kind, secret, draw.nonce, draw.sealed, at, key', source, base);
    EnvelopeParses(key, kind, draw.nonce, draw.sealed);
    assert Envelope(key, kind, draw.nonce, draw.sealed) != "";
  }

  /** A login put for an address is the login read there, whatever is in the password, and at no
      other address. */
  lemma PutThenStored(
    store: Store, key: Key, at: Addresses, source: string, base: string, pair: Pair, draw: Draw, base': string)
    requires Honest(store.box) && IsFresh(store, draw) && IsTag(key.tag)
    requires pair.0 != "" && pair.1 != "" && ':' !in pair.0 && IsSafeSource(source) && at.originOf(base) != ""
    ensures var answer := Answer(PutIn(store, key, at, source, base, pair, draw), key, at, source, base');
            (answer.Ok? <==> at.originOf(base') == at.originOf(base)) && (answer.Ok? ==> answer.value == pair)
  {
    WithSealedOpens(store, key, at, source, at.originOf(base), Secret(pair), draw, key, base');
    PartitionOfSecret(pair.0, pair.1);
  }

  // ── Carrying forward ──────────────────────────────────────────────────────

  /** Another row answers as it did: the new sealing is one no row carries. */
  lemma OtherRowsOpenAlike(
    store: Store, key: Key, at: Addresses, source: string, origin: string, secret: string, draw: Draw,
    key': Key, source': string, base: string)
    requires IsFresh(store, draw) && source' != source
    ensures Opened(WithSealed(store, key, source, origin, secret, draw), key', at, source', base)
         == Opened(store, key', at, source', base)
  {
    if source' in store.rows {
      assert !Carries(store.rows[source'], draw.nonce);
    }
  }

  /** A superseded envelope is opened as its own source's, wherever the published address is meant. */
  lemma UnboundOpensAs(box: Box, key: Key, at: Addresses, source: string, base: string, envelope: string, parts: seq<string>)
    requires SplitOn('.', envelope) == parts && |parts| == 4 && parts[0] == UNBOUND_VERSION && IsSafeSource(source)
    ensures var r := Unseal(box, key, at, source, base, envelope);
            && (r.Ok? <==> MayOpenUnbound(at, source, base) && parts[1] == key.tag && Open(box, key, Unbound(source), parts[2], parts[3]).Ok?)
            && (r.Ok? ==> r == Open(box, key, Unbound(source), parts[2], parts[3]))
  {
    UnsealParts(box, key, at, source, base, envelope, parts);
  }

  /** What was sealed under one key opens under no other. */
  lemma OpensUnderItsKey(box: Box, key: Key, key': Key, kind: Kind, nonce: string, sealed: string)
    requires Honest(box) && Open(box, key, kind, nonce, sealed).Ok? && key'.tag == key.tag
    ensures Open(box, key', kind, nonce, sealed).Ok? <==> key' == key
  {
    var n, c := Base64.Unb64(nonce).value, Base64.Unb64(sealed).value;
    var t, t' := TicketOf(key, kind, n, c), TicketOf(key', kind, n, c);
    assert t in box && (t' in box ==> t'.nonce == t.nonce);
  }

  lemma OpenedIsUnbound(box: Box, key: Key, at: Addresses, source: string, base: string, envelope: string) returns (parts: seq<string>)
    requires VersionOf(envelope) != VERSION && Unseal(box, key, at, source, base, envelope).Ok?
    ensures SplitOn('.', envelope) == parts && |parts| == 4 && parts[0] == UNBOUND_VERSION && IsSafeSource(source)
  {
    parts := SplitOn('.', envelope);
    UnsealParts(box, key, at, source, base, envelope, parts);
  }

  /** An envelope that opened under a key opens under no other. */
  lemma OpensUnderOneKey(
    box: Box, key: Key, at: Addresses, source: string, base: string, envelope: string, key': Key, base': string)
    requires Honest(box) && VersionOf(envelope) != VERSION
    requires Unseal(box, key, at, source, base, envelope).Ok?
    ensures var r := Unseal(box, key', at, source, base', envelope);
            && (r.Ok? <==> key' == key && at.originOf(base') == at.originOf(base))
            && (r.Ok? ==> r.value == Unseal(box, key, at, source, base, envelope).value)
  {
    var parts := OpenedIsUnbound(box, key, at, source, base, envelope);
    UnboundOpensAs(box, key, at, source, base, envelope, parts);
    UnboundOpensAs(box, key', at, source, base', envelope, parts);
    if parts[1] == key'.tag {
      OpensUnderItsKey(box, key, key', Unbound(source), parts[2], parts[3]);
    }
  }

  /** Carrying an envelope forward changes no later answer: for every key, source and address, a
      login comes out exactly where one did before, and it is the same. */
  lemma ReadKeepsEveryAnswer(
    store: Store, key: Key, at: Addresses, source: string, base: string, draw: Draw, writable: bool,
    key': Key, source': string, base': string)
    requires Honest(store.box) && IsFresh(store, draw) && IsTag(key.tag) && IsTag(key'.tag)
    ensures var before := Answer(store, key', at, source', base');
            var after := Answer(ReadIn(store, key, at, source, base, draw, writable), key', at, source', base');
            (after.Ok? <==> before.Ok?) && (before.Ok? ==> after.value == before.value)
  {
    var read := Opened(store, key, at, source, base);
    if read.Ok? && VersionOf(store.rows[source]) != VERSION && writable {
      if source' == source {
        OpensUnderOneKey(store.box, key, at, source, base, store.rows[source], key', base');
        WithSealedOpens(store, key, at, source, at.originOf(base), read.value, draw, key', base');
      } else {
        OtherRowsOpenAlike(store, key, at, source, at.originOf(base), read.value, draw, key', source', base');
      }
    }
  }

  // ── Runs ──────────────────────────────────────────────────────────────────

  datatype Step =
    | Put(source: string, base: string, pair: Pair, draw: Draw)
    | Read(source: string, base: string, draw: Draw, writable: bool)
    | Forget(source: string)

  function After(store: Store, key: Key, at: Addresses, step: Step): Store
  {
    match step
    case Put(source, base, pair, draw) => PutIn(store, key, at, source, base, pair, draw)
    case Read(source, base, draw, writable) => ReadIn(store, key, at, source, base, draw, writable)
    case Forget(source) => ForgetIn(store, source)
  }

  ghost predicate IsWellDrawn(store: Store, step: Step)
  {
    step.Forget? || IsFresh(store, step.draw)
  }

  function Run(store: Store, key: Key, at: Addresses, steps: seq<Step>): Store
  {
    if steps == [] then store else After(Run(store, key, at, steps[..|steps| - 1]), key, at, steps[|steps| - 1])
  }

  ghost predicate IsWellDrawnRun(store: Store, key: Key, at: Addresses, steps: seq<Step>)
  {
    forall i :: 0 <= i < |steps| ==> IsWellDrawn(Run(store, key, at, steps[..i]), steps[i])
  }

  /** A row of the current scheme. */
  predicate IsCurrent(store: Store, source: string)
  {
    source in store.rows && VersionOf(store.rows[source]) == VERSION
  }

  lemma WithSealedIsCurrent(store: Store, key: Key, source: string, origin: string, secret: string, draw: Draw)
    requires IsTag(key.tag)
    ensures IsCurrent(WithSealed(store, key, source, origin, secret, draw), source)
  {
    EnvelopeParses(key, Bound(source, origin), draw.nonce, draw.sealed);
  }

  /** A row never goes back to the superseded scheme, and no step but a put makes a row. A read that
      opened one and could write leaves it current. */
  lemma StepNeverGoesBack(store: Store, key: Key, at: Addresses, step: Step, source: string)
    requires IsTag(key.tag)
    ensures var after := After(store, key, at, step);
            && (source in after.rows ==> IsCurrent(after, source) || (source in store.rows && after.rows[source] == store.rows[source]))
            && (step.Read? && step.source == source && step.writable && Opened(store, key, at, source, step.base).Ok?
                ==> IsCurrent(after, source))
  {
    match step
    case Put(s, base, pair, draw) => WithSealedIsCurrent(store, key, s, at.originOf(base), Secret(pair), draw);
    case Read(s, base, draw, _) =>
      var read := Opened(store, key, at, s, base);
      if read.Ok? { WithSealedIsCurrent(store, key, s, at.originOf(base), read.value, draw); }
    case Forget(_) =>
  }

  lemma {:induction false} RunNeverGoesBack(store: Store, key: Key, at: Addresses, steps: seq<Step>, source: string)
    requires IsTag(key.tag)
    ensures var after := Run(store, key, at, steps);
            source in after.rows ==> IsCurrent(after, source) || (source in store.rows && after.rows[source] == store.rows[source])
  {
    if steps != [] {
      RunNeverGoesBack(store, key, at, steps[..|steps| - 1], source);
      StepNeverGoesBack(Run(store, key, at, steps[..|steps| - 1]), key, at, steps[|steps| - 1], source);
    }
  }

  /** Forgetting is for good, for that source and no other: under every key and address it answers that
      nothing is stored until the next put, whatever is read meanwhile, and every other source
      answers as it did. */
  lemma ForgottenUntilPut(
    store: Store, key: Key, at: Addresses, source: string, steps: seq<Step>, key': Key, base: string)
    requires forall i :: 0 <= i < |steps| ==> !(steps[i].Put? && steps[i].source == source)
    ensures Answer(Run(ForgetIn(store, source), key, at, steps), key', at, source, base) == Err(NothingStored)
    ensures forall other :: other != source ==> Answer(ForgetIn(store, source), key', at, other, base) == Answer(store, key', at, other, base)
  {
    ForgottenRow(ForgetIn(store, source), key, at, source, steps);
    forall other | other != source ensures Opened(ForgetIn(store, source), key', at, other, base) == Opened(store, key', at, other, base) {
    }
  }

  lemma {:induction false} ForgottenRow(store: Store, key: Key, at: Addresses, source: string, steps: seq<Step>)
    requires source !in store.rows
    requires forall i :: 0 <= i < |steps| ==> !(steps[i].Put? && steps[i].source == source)
    ensures source !in Run(store, key, at, steps).rows
  {
    if steps != [] {
      ForgottenRow(store, key, at, source, steps[..|steps| - 1]);
    }
  }

  // ── The plain store the sealed one stands for ─────────────────────────────

  /** A login and where it may be sent. */
  datatype Login = Login(origin: string, pair: Pair)

  type Plain = map<string, Login>

  function PlainAfter(plain: Plain, at: Addresses, step: Step): Plain
  {
    match step
    case Put(source, base, pair, _) =>
      if pair.0 != "" && pair.1 != "" && ':' !in pair.0 && IsSafeSource(source) && at.originOf(base) != ""
      then plain[source := Login(at.originOf(base), pair)]
      else plain
    case Read(_, _, _, _) => plain
    case Forget(source) => plain - {source}
  }

  function PlainRun(plain: Plain, at: Addresses, steps: seq<Step>): Plain
  {
    if steps == [] then plain else PlainAfter(PlainRun(plain, at, steps[..|steps| - 1]), at, steps[|steps| - 1])
  }

  predicate PlainAnswers(plain: Plain, at: Addresses, source: string, base: string, pair: Pair)
  {
    source in plain && plain[source] == Login(at.originOf(base), pair)
  }

  /** The sealed store answers as the plain one does, at every source and address. */
  ghost predicate StandsFor(store: Store, key: Key, at: Addresses, plain: Plain)
  {
    forall source, base :: AnswersAlike(store, key, at, plain, source, base)
  }

  ghost predicate AnswersAlike(store: Store, key: Key, at: Addresses, plain: Plain, source: string, base: string)
  {
    forall pair :: Answer(store, key, at, source, base) == Ok(pair) <==> PlainAnswers(plain, at, source, base, pair)
  }

  lemma StepKeepsHonest(store: Store, key: Key, at: Addresses, step: Step)
    requires Honest(store.box) && IsWellDrawn(store, step) && IsTag(key.tag)
    ensures Honest(After(store, key, at, step).box)
  {
    match step
    case Put(source, base, pair, draw) =>
      if PutRefusal(at, source, base, pair).None? {
        SealingStaysHonest(store.box, key, Bound(source, at.originOf(base)), Secret(pair), draw.nonce, draw.sealed);
      }
    case Read(source, base, draw, _) =>
      var read := Opened(store, key, at, source, base);
      if read.Ok? {
        SealingStaysHonest(store.box, key, Bound(source, at.originOf(base)), read.value, draw.nonce, draw.sealed);
      }
    case Forget(_) =>
  }

  lemma PutStandsFor(store: Store, key: Key, at: Addresses, plain: Plain, step: Step, source: string, base: string)
    requires Honest(store.box) && IsWellDrawn(store, step) && IsTag(key.tag) && step.Put?
    requires AnswersAlike(store, key, at, plain, source, base)
    ensures AnswersAlike(After(store, key, at, step), key, at, PlainAfter(plain, at, step), source, base)
  {
    if PutRefusal(at, step.source, step.base, step.pair).None? {
      if source == step.source {
        PutThenStored(store, key, at, source, step.base, step.pair, step.draw, base);
      } else {
        OtherRowsOpenAlike(store, key, at, step.source, at.originOf(step.base), Secret(step.pair), step.draw, key, source, base);
      }
    }
  }

  lemma StepStandsFor(store: Store, key: Key, at: Addresses, plain: Plain, step: Step)
    requires Honest(store.box) && IsWellDrawn(store, step) && IsTag(key.tag) && StandsFor(store, key, at, plain)
    ensures StandsFor(After(store, key, at, step), key, at, PlainAfter(plain, at, step))
  {
    forall source, base ensures AnswersAlike(After(store, key, at, step), key, at, PlainAfter(plain, at, step), source, base) {
      assert AnswersAlike(store, key, at, plain, source, base);
      match step
      case Put(_, _, _, _) => PutStandsFor(store, key, at, plain, step, source, base);
      case Read(s, b, draw, writable) => ReadKeepsEveryAnswer(store, key, at, s, b, draw, writable, key, source, base);
      case Forget(_) =>
    }
  }

  /** Over every run of puts, reads and forgettings the sealed store refines the plain one: a read
      answers the login last put for that source, at the address it was put for and nowhere else,
      however many reads carried it forward. */
  lemma {:induction false} EveryRunStandsFor(store: Store, key: Key, at: Addresses, plain: Plain, steps: seq<Step>)
    requires Honest(store.box) && IsTag(key.tag) && StandsFor(store, key, at, plain)
    requires IsWellDrawnRun(store, key, at, steps)
    ensures Honest(Run(store, key, at, steps).box)
    ensures StandsFor(Run(store, key, at, steps), key, at, PlainRun(plain, at, steps))
  {
    if steps != [] {
      var before := steps[..|steps| - 1];
      forall i | 0 <= i < |before| ensures IsWellDrawn(Run(store, key, at, before[..i]), before[i]) {
        assert before[..i] == steps[..i] && before[i] == steps[i];
      }
      EveryRunStandsFor(store, key, at, plain, before);
      StepKeepsHonest(Run(store, key, at, before), key, at, steps[|steps| - 1]);
      StepStandsFor(Run(store, key, at, before), key, at, PlainRun(plain, at, before), steps[|steps| - 1]);
    }
  }

  lemma EmptyStandsForNothing(key: Key, at: Addresses)
    ensures Honest(Store(map[], map[]).box) && StandsFor(Store(map[], map[]), key, at, map[])
  {
    forall source, base ensures AnswersAlike(Store(map[], map[]), key, at, map[], source, base) {
    }
  }

  /** So from an empty store, after any run, a login is answered if and only if it is the last one put for
      that source and not forgotten since, and the address is the one it was put for. */
  lemma EveryRunFromNothing(key: Key, at: Addresses, steps: seq<Step>, source: string, base: string, pair: Pair)
    requires IsTag(key.tag) && IsWellDrawnRun(Store(map[], map[]), key, at, steps)
    ensures Answer(Run(Store(map[], map[]), key, at, steps), key, at, source, base) == Ok(pair)
       <==> PlainAnswers(PlainRun(map[], at, steps), at, source, base, pair)
  {
    EmptyStandsForNothing(key, at);
    EveryRunStandsFor(Store(map[], map[]), key, at, map[], steps);
    assert AnswersAlike(Run(Store(map[], map[]), key, at, steps), key, at, PlainRun(map[], at, steps), source, base);
  }

  // ── The ladder ────────────────────────────────────────────────────────────

  datatype Provenance = FromEnv | FromStore | Shipped | Nowhere

  /** What the deployment pinned, and what this build ships. */
  datatype Outside = Outside(env: map<string, string>, ships: map<string, Pair>)

  function Pinned(raw: string): Option<Pair>
  {
    if ':' in raw && Partition(raw).0 != "" && Partition(raw).1 != "" then Some(Partition(raw)) else None
  }

  function ShippedAt(outside: Outside, at: Addresses, source: string, base: string): Option<Pair>
  {
    if source in at.published && source in outside.ships && MayOpenUnbound(at, source, base)
    then Some(outside.ships[source])
    else None
  }

  /** Which level supplies a source's login, and the pair it carries: none where the level in force
      cannot be used. */
  function Resolve(store: Store, outside: Outside, key: Key, at: Addresses, source: string, base: string)
    : (Provenance, Option<Pair>)
  {
    if source in outside.env then (FromEnv, Pinned(outside.env[source]))
    else if source in store.rows && store.rows[source] != "" then
      match Answer(store, key, at, source, base)
      case Ok(pair) => (FromStore, Some(pair))
      case Err(_) => (FromStore, None)
    else
      match ShippedAt(outside, at, source, base)
      case Some(pair) => (Shipped, Some(pair))
      case None => (Nowhere, None)
  }

  lemma {:induction false} PartitionIs(text: string)
    ensures var (before, after) := Partition(text);
            && ':' !in before
            && (':' in text ==> text == before + ":" + after) && (':' !in text ==> before == text && after == "")
  {
    if text != "" && text[0] != ':' {
      PartitionIs(text[1..]);
      var (before, after) := Partition(text[1..]);
      assert text == [text[0]] + text[1..];
      if ':' in text[1..] {
        assert [text[0]] + (before + ":" + after) == [text[0]] + before + ":" + after;
      }
    } else if text != "" {
      assert text == "" + ":" + text[1..];
    }
  }

  /** A name and a password, both of them something, with the first colon between them. */
  ghost predicate IsPinnedAs(raw: string, pair: Pair)
  {
    pair.0 != "" && pair.1 != "" && ':' !in pair.0 && raw == pair.0 + ":" + pair.1
  }

  lemma PinnedIs(raw: string, pair: Pair)
    ensures Pinned(raw) == Some(pair) <==> IsPinnedAs(raw, pair)
  {
    PartitionIs(raw);
    if IsPinnedAs(raw, pair) {
      PartitionOfSecret(pair.0, pair.1);
      assert raw[|pair.0|] == ':';
    }
  }

  /** What the deployment pins stands above what is stored, though it cannot be read; what is stored stands
      above what is shipped, though it cannot be opened; and what is shipped is for its published
      address. */
  lemma ResolvesTo(store: Store, outside: Outside, key: Key, at: Addresses, source: string, base: string)
    ensures var (level, pair) := Resolve(store, outside, key, at, source, base);
            && (level == FromEnv <==> source in outside.env)
            && (level == FromEnv ==> forall p :: pair == Some(p) <==> IsPinnedAs(outside.env[source], p))
            && (level == FromStore <==> source !in outside.env && source in store.rows && store.rows[source] != "")
            && (level == FromStore ==> forall p :: pair == Some(p) <==> Answer(store, key, at, source, base) == Ok(p))
            && (level == Shipped <==>
                  && source !in outside.env && (source !in store.rows || store.rows[source] == "")
                  && source in outside.ships && source in at.published
                  && at.originOf(base) == at.originOf(at.published[source]) != "")
            && (level == Shipped ==> pair == Some(outside.ships[source]))
            && (level == Nowhere ==> pair.None?)
  {
    if source in outside.env {
      forall p {
        PinnedIs(outside.env[source], p);
      }
    }
  }

  /** A login the deployment did not pin goes only to an address it is for: one it was sealed for
      under this key, or the one this build publishes for the source whose default it ships. And a
      row that cannot be opened keeps the default below it. */
  lemma LoginStaysWithItsAddress(store: Store, outside: Outside, key: Key, at: Addresses, source: string, base: string)
    requires Honest(store.box) && IsTag(key.tag) && source !in outside.env
    ensures var (level, pair) := Resolve(store, outside, key, at, source, base);
            pair.Some? ==>
              || (level == FromStore && exists kind, secret ::
                    IsFor(at, source, base, kind) && IsSealed(store.box, key, kind, secret) && pair.value == Partition(secret))
              || (level == Shipped && (source !in store.rows || store.rows[source] == "")
                  && at.originOf(base) == at.originOf(at.published[source]) != "")
  {
    if source in store.rows && store.rows[source] != "" {
      OpensOnlyWhereSealed(store.box, key, at, source, base, store.rows[source]);
    }
  }
}
