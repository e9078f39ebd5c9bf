/**
 From a provider's raw identifiers to the refs of an event: which identifiers are usable, and exactly
 which of them end up as the same ref.
 */
module EventIdentifiers {
  import opened Common
  import opened EventHash
  import K = IdempotencyKeys

  /** An integer, a text, or anything else (fractions, NaN, infinities, other types). */
  datatype Raw = Number(amount: int) | Text(text: string) | Other

  /** Lower-casing and the unsafe-value patterns. */
  datatype TextPolicy = TextPolicy(lower: string -> string, unsafe: string -> bool)

  function Abs(n: int): nat {
    if n < 0 then -n else n
  }

  /** Trimmed, lower-cased, with a dash for each run of white space. */
  function Folded(policy: TextPolicy, text: string): string {
    Dashed(policy.lower(TrimText(text)), false)
  }

  /** The normalised identifier; None when the value is no usable identifier. */
  function Identifier(policy: TextPolicy, value: Raw): Option<string> {
    match value
    case Number(n) => if Abs(n) <= K.MAX_SAFE_INTEGER then Some(K.Decimal(Abs(n))) else None
    case Text(text) =>
      var id := Folded(policy, text);
      if !SafeId(id) || policy.unsafe(id) then None else Some(id)
    case Other => None
  }

  function RawRef(policy: TextPolicy, prefix: string, value: Raw): Option<string> {
    var id := Identifier(policy, value);
    if id.None? then None else Some(SafeRef(prefix, id.value))
  }

  // ----- identifiers are safe -----

  lemma {:induction false} DecimalIsDigits(n: nat)
    ensures K.Decimal(n) != "" && forall i | 0 <= i < |K.Decimal(n)| :: '0' <= K.Decimal(n)[i] <= '9'
  {
    if n >= 10 {
      DecimalIsDigits(n / 10);
    }
  }

  lemma DecimalIsShort(n: nat)
    requires n <= K.MAX_SAFE_INTEGER
    ensures |K.Decimal(n)| <= 16
  {
    assert K.Power10(16) == 10000000000000000 by {
      assert K.Power10(4) == 10000 && K.Power10(8) == 100000000 && K.Power10(12) == 1000000000000;
    }
    K.DecimalIsSafe(n, K.Power10(16), 16);
  }

  /** Whatever normalises is an identifier that the later texts can hold. */
  lemma IdentifierIsSafe(policy: TextPolicy, value: Raw)
    requires Identifier(policy, value).Some?
    ensures SafeId(Identifier(policy, value).value)
  {
    if value.Number? {
      DecimalIsDigits(Abs(value.amount));
      DecimalIsShort(Abs(value.amount));
    }
  }

  // ----- which identifiers share a ref -----

  predicate Usable(policy: TextPolicy, value: Raw) {
    match value
    case Number(n) => -K.MAX_SAFE_INTEGER <= n <= K.MAX_SAFE_INTEGER
    case Text(text) => SafeId(Folded(policy, text)) && !policy.unsafe(Folded(policy, text))
    case Other => false
  }

  /** Equal up to sign, or up to white space, case and dashes, or a number and its decimal text. */
  predicate SameIdentifier(policy: TextPolicy, a: Raw, b: Raw) {
    match (a, b)
    case (Number(m), Number(n)) => m == n || m == -n
    case (Number(m), Text(t)) => Folded(policy, t) == K.Decimal(Abs(m))
    case (Text(s), Number(n)) => Folded(policy, s) == K.Decimal(Abs(n))
    case (Text(s), Text(t)) => Folded(policy, s) == Folded(policy, t)
    case _ => false
  }

  /** `long` is a text that spells out the prefix before what `short` normalises to. */
  predicate SpellsPrefix(policy: TextPolicy, prefix: string, long: Raw, short: Raw) {
    && long.Text?
    && match short
       case Number(n) => Folded(policy, long.text) == prefix + ":" + K.Decimal(Abs(n))
       case Text(t) =>
         Folded(policy, long.text) == prefix + ":" + Folded(policy, t) && !(prefix + ":" <= Folded(policy, t))
       case Other => false
  }

  lemma DecimalsAgreeExactly(m: int, n: int)
    ensures K.Decimal(Abs(m)) == K.Decimal(Abs(n)) <==> m == n || m == -n
  {
    if K.Decimal(Abs(m)) == K.Decimal(Abs(n)) {
      K.DecimalInjective(Abs(m), Abs(n));
    }
  }

  lemma DecimalHasNoPrefix(prefix: string, n: nat)
    ensures !(prefix + ":" <= K.Decimal(n))
  {
    DecimalIsDigits(n);
    assert (prefix + ":")[|prefix|] == ':';
  }

  lemma UsableExactly(policy: TextPolicy, value: Raw)
    ensures Usable(policy, value) <==> Identifier(policy, value).Some?
  {}

  /** Exactly when two raw identifiers both give the same ref, for every prefix. */
  lemma RawRefsAgreeExactly(policy: TextPolicy, prefix: string, a: Raw, b: Raw)
    ensures RawRef(policy, prefix, a).Some? && RawRef(policy, prefix, a) == RawRef(policy, prefix, b) <==>
            && Usable(policy, a) && Usable(policy, b)
            && (SameIdentifier(policy, a, b) || SpellsPrefix(policy, prefix, a, b) || SpellsPrefix(policy, prefix, b, a))
  {
    hide Folded, K.Decimal, SafeId, SafeRef;
    UsableExactly(policy, a);
    UsableExactly(policy, b);
    if Usable(policy, a) && Usable(policy, b) {
      SafeRefMergesExactly(prefix, Identifier(policy, a).value, Identifier(policy, b).value);
      if a.Number? {
        DecimalHasNoPrefix(prefix, Abs(a.amount));
      }
      if b.Number? {
        DecimalHasNoPrefix(prefix, Abs(b.amount));
      }
      if a.Number? && b.Number? {
        DecimalsAgreeExactly(a.amount, b.amount);
      }
      SpelledHasPrefix(prefix, Identifier(policy, a).value);
      SpelledHasPrefix(prefix, Identifier(policy, b).value);
    }
  }

  lemma SpelledHasPrefix(prefix: string, id: string)
    ensures prefix + ":" <= prefix + ":" + id
  {}

  /** The chat identifiers -5 and 5 become one ref. */
  lemma SignIsLost(policy: TextPolicy, prefix: string)
    ensures RawRef(policy, prefix, Number(-5)) == RawRef(policy, prefix, Number(5)) == Some(prefix + ":5")
  {
    assert K.Decimal(5) == "5";
    DecimalHasNoPrefix(prefix, 5);
    assert prefix + ":" + "5" == prefix + ":5";
  }

  // ----- raw events -----

  /** The identifying part of a provider event, before normalisation. */
  datatype RawEvent = RawEvent(
    provider: Provider, kind: Kind, channelId: Raw, chatId: Raw, threadId: Raw, messageId: Raw,
    callbackId: Raw, systemKind: SystemKind, eventId: Raw)

  /** None when a required identifier is missing or unusable. */
  function ReadEvent(policy: TextPolicy, e: RawEvent): Option<Event> {
    match (Identifier(policy, e.channelId), Identifier(policy, e.chatId), Identifier(policy, e.threadId),
           Identifier(policy, e.messageId))
    case (Some(channel), Some(chat), Some(thread), Some(message)) =>
      Some(Event(e.provider, e.kind, channel, chat, thread, message, Identifier(policy, e.callbackId), e.systemKind,
                 Identifier(policy, e.eventId)))
    case _ => None
  }

  /**
   Every event that is read has safe identifiers, each from its own property, so the guarantees about hashes and
   keys hold of it.
   */
  lemma ReadEventsAreSafe(policy: TextPolicy, e: RawEvent)
    requires ReadEvent(policy, e).Some?
    ensures var event := ReadEvent(policy, e).value;
            && SafeEvent(event)
            && event.provider == e.provider && event.kind == e.kind && event.systemKind == e.systemKind
            && Identifier(policy, e.channelId) == Some(event.channelId) && Identifier(policy, e.chatId) == Some(event.chatId)
            && Identifier(policy, e.threadId) == Some(event.threadId)
            && Identifier(policy, e.messageId) == Some(event.messageId)
            && Identifier(policy, e.callbackId) == event.callbackId && Identifier(policy, e.eventId) == event.eventId
  {
    hide Identifier, SafeId;
    IdentifierIsSafe(policy, e.channelId);
    IdentifierIsSafe(policy, e.chatId);
    IdentifierIsSafe(policy, e.threadId);
    IdentifierIsSafe(policy, e.messageId);
    if Identifier(policy, e.callbackId).Some? {
      IdentifierIsSafe(policy, e.callbackId);
    }
    if Identifier(policy, e.eventId).Some? {
      IdentifierIsSafe(policy, e.eventId);
    }
  }
}
