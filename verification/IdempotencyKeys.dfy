/**
 Adapter idempotency keys: a scope and safe parts joined by ':', and the delivery-attempt refs
 derived from them by writing '.' for ':'.
 */
module IdempotencyKeys {
  import opened Common

  const MAX_PART_LENGTH := 128
  const MAX_ATTEMPT_REF_LENGTH := 256
  const MAX_SAFE_INTEGER := 0x1F_FFFF_FFFF_FFFF

  const INBOUND := "inbound-message"
  const CALLBACK := "callback"
  const DELIVERY := "delivery-attempt"

  predicate IsScope(s: string) {
    s == INBOUND || s == CALLBACK || s == DELIVERY
  }

  predicate SafeChar(c: char) {
    'A' <= c <= 'Z' || 'a' <= c <= 'z' || '0' <= c <= '9' || c == '.' || c == '_' || c == '~' || c == '-'
  }

  predicate SafePart(p: string) {
    0 < |p| <= MAX_PART_LENGTH && forall i | 0 <= i < |p| :: SafeChar(p[i])
  }

  predicate SafeParts(parts: seq<string>) {
    parts != [] && forall i | 0 <= i < |parts| :: SafePart(parts[i])
  }

  /** None where the source throws. */
  function CreateKey(scope: string, parts: seq<string>): Option<string> {
    if IsScope(scope) && SafeParts(parts) then Some(scope + ":" + Join(':', parts)) else None
  }

  predicate IsKey(candidate: string) {
    var pieces := Split(':', candidate);
    IsScope(pieces[0]) && SafeParts(pieces[1..])
  }

  /** Splitting a built key gives back its scope and its parts, and the key is recognised. */
  lemma SplitOfKey(scope: string, parts: seq<string>)
    requires CreateKey(scope, parts).Some?
    ensures Split(':', CreateKey(scope, parts).value) == [scope] + parts
    ensures IsKey(CreateKey(scope, parts).value)
  {
    SplitAfterPart(':', scope, Join(':', parts));
    SplitJoin(':', parts);
  }

  /** Every recognised key is the build of its own split; nothing else is recognised. */
  lemma KeyOfSplit(k: string)
    ensures IsKey(k) <==> exists scope, parts :: CreateKey(scope, parts) == Some(k)
    ensures IsKey(k) ==> CreateKey(Split(':', k)[0], Split(':', k)[1..]) == Some(k)
  {
    JoinSplit(':', k);
    if IsKey(k) {
      assert CreateKey(Split(':', k)[0], Split(':', k)[1..]) == Some(k);
    }
    forall scope, parts | CreateKey(scope, parts) == Some(k)
      ensures IsKey(k)
    {
      SplitOfKey(scope, parts);
    }
  }

  lemma KeysAreInjective(scope: string, parts: seq<string>, scope': string, parts': seq<string>)
    requires CreateKey(scope, parts).Some? && CreateKey(scope, parts) == CreateKey(scope', parts')
    ensures scope == scope' && parts == parts'
  {
    SplitOfKey(scope, parts);
    SplitOfKey(scope', parts');
    assert parts == ([scope] + parts)[1..] && parts' == ([scope'] + parts')[1..];
  }

  // ----- the three builders -----

  datatype KeyInput =
    | InboundMessage(channelId: string, chatId: string, messageId: string, threadId: Option<string>)
    | CallbackPress(channelId: string, chatId: string, callbackId: string, threadId: Option<string>)
    | DeliveryAttempt(outboxRef: string, claimRef: string, attemptNumber: int)

  function TopicParts(threadId: Option<string>): seq<string> {
    match threadId
    case None => ["thread-none"]
    case Some(id) => ["thread", id]
  }

  function Decimal(n: nat): string {
    if n < 10 then [Digit(n)] else Decimal(n / 10) + [Digit(n % 10)]
  }

  function Digit(d: nat): (c: char)
    requires d < 10
    ensures '0' <= c <= '9'
  {
    '0' + d as char
  }

  function BuildKey(input: KeyInput): Option<string> {
    match input
    case InboundMessage(channel, chat, message, thread) =>
      CreateKey(INBOUND, [channel, chat] + TopicParts(thread) + [message])
    case CallbackPress(channel, chat, callback, thread) =>
      CreateKey(CALLBACK, [channel, chat] + TopicParts(thread) + [callback])
    case DeliveryAttempt(outbox, claim, n) =>
      if 1 <= n <= MAX_SAFE_INTEGER then
        CreateKey(DELIVERY, ["outbox", outbox, "claim", claim, "attempt", Decimal(n)])
      else None
  }

  /** The number that a decimal text stands for. */
  function Number(s: string): int {
    if s == "" then 0 else 10 * Number(s[..|s| - 1]) + (s[|s| - 1] as int - '0' as int)
  }

  lemma {:induction false} DecimalReads(n: nat)
    ensures Number(Decimal(n)) == n
  {
    if n >= 10 {
      DecimalReads(n / 10);
      assert Decimal(n)[..|Decimal(n)| - 1] == Decimal(n / 10);
    }
  }

  /** Every built key, piece by piece. */
  lemma BuiltKeyReads(input: KeyInput)
    requires BuildKey(input).Some?
    ensures var pieces := Split(':', BuildKey(input).value);
            match input
            case InboundMessage(channel, chat, message, None) =>
              pieces == ["inbound-message", channel, chat, "thread-none", message]
            case InboundMessage(channel, chat, message, Some(thread)) =>
              pieces == ["inbound-message", channel, chat, "thread", thread, message]
            case CallbackPress(channel, chat, callback, None) =>
              pieces == ["callback", channel, chat, "thread-none", callback]
            case CallbackPress(channel, chat, callback, Some(thread)) =>
              pieces == ["callback", channel, chat, "thread", thread, callback]
            case DeliveryAttempt(outbox, claim, n) =>
              |pieces| == 7 && pieces[..6] == ["delivery-attempt", "outbox", outbox, "claim", claim, "attempt"]
              && Number(pieces[6]) == n
  {
    hide CreateKey, Split, Decimal, Number;
    match input
    case InboundMessage(channel, chat, message, thread) =>
      SplitOfKey(INBOUND, [channel, chat] + TopicParts(thread) + [message]);
    case CallbackPress(channel, chat, callback, thread) =>
      SplitOfKey(CALLBACK, [channel, chat] + TopicParts(thread) + [callback]);
    case DeliveryAttempt(outbox, claim, n) =>
      SplitOfKey(DELIVERY, ["outbox", outbox, "claim", claim, "attempt", Decimal(n)]);
      DecimalReads(n);
  }

  lemma {:induction false} DecimalInjective(n: nat, m: nat)
    requires Decimal(n) == Decimal(m)
    ensures n == m
  {
    if n >= 10 && m >= 10 {
      var dn, dm := Decimal(n), Decimal(m);
      assert Decimal(n / 10) == dn[..|dn| - 1] && Decimal(m / 10) == dm[..|dm| - 1];
      assert Digit(n % 10) == dn[|dn| - 1] && Digit(m % 10) == dm[|dm| - 1];
      DecimalInjective(n / 10, m / 10);
    }
  }

  lemma {:induction false} DecimalIsSafe(n: nat, bound: nat, digits: nat)
    requires digits >= 1 && n < bound && bound == Power10(digits)
    ensures 0 < |Decimal(n)| <= digits && forall i | 0 <= i < |Decimal(n)| :: SafeChar(Decimal(n)[i])
  {
    if n >= 10 {
      DecimalIsSafe(n / 10, Power10(digits - 1), digits - 1);
    }
  }

  function Power10(k: nat): nat {
    if k == 0 then 1 else 10 * Power10(k - 1)
  }

  /** Different inputs never share a key, whichever two builders they go through. */
  lemma BuildersAreInjective(a: KeyInput, b: KeyInput)
    requires BuildKey(a).Some? && BuildKey(a) == BuildKey(b)
    ensures a == b
  {
    var partsA, partsB := PartsOf(a), PartsOf(b);
    KeysAreInjective(ScopeOf(a), partsA, ScopeOf(b), partsB);
    if a.DeliveryAttempt? {
      assert partsA[1] == a.outboxRef && partsA[3] == a.claimRef && partsA[5] == Decimal(a.attemptNumber);
      assert partsB[1] == b.outboxRef && partsB[3] == b.claimRef && partsB[5] == Decimal(b.attemptNumber);
      DecimalInjective(a.attemptNumber, b.attemptNumber);
    } else {
      var n := |partsA|;
      assert partsA[0] == a.channelId && partsA[1] == a.chatId;
      assert partsB[0] == b.channelId && partsB[1] == b.chatId;
      assert n == if a.threadId.None? then 4 else 5;
      assert n == if b.threadId.None? then 4 else 5;
      assert a.threadId.Some? ==> partsA[3] == a.threadId.value && partsB[3] == b.threadId.value;
      assert partsA[n - 1] == if a.InboundMessage? then a.messageId else a.callbackId;
      assert partsB[n - 1] == if b.InboundMessage? then b.messageId else b.callbackId;
    }
  }

  function ScopeOf(input: KeyInput): string {
    match input
    case InboundMessage(_, _, _, _) => INBOUND
    case CallbackPress(_, _, _, _) => CALLBACK
    case DeliveryAttempt(_, _, _) => DELIVERY
  }

  function PartsOf(input: KeyInput): seq<string> {
    match input
    case InboundMessage(channel, chat, message, thread) => [channel, chat] + TopicParts(thread) + [message]
    case CallbackPress(channel, chat, callback, thread) => [channel, chat] + TopicParts(thread) + [callback]
    case DeliveryAttempt(outbox, claim, n) =>
      ["outbox", outbox, "claim", claim, "attempt", if n >= 0 then Decimal(n) else ""]
  }

  /** A delivery key exists exactly for safe refs and a positive safe integer: its digits always fit. */
  lemma DeliveryKeyExists(outbox: string, claim: string, n: int)
    ensures BuildKey(DeliveryAttempt(outbox, claim, n)).Some? <==>
            SafePart(outbox) && SafePart(claim) && 1 <= n <= MAX_SAFE_INTEGER
  {
    if 1 <= n <= MAX_SAFE_INTEGER {
      assert Power10(16) == 1_0000_0000_0000_0000 by {
        assert Power10(4) == 10000;
        assert Power10(8) == 10000_0000;
        assert Power10(12) == 10000_0000_0000;
      }
      DecimalIsSafe(n, Power10(16), 16);
      var parts := PartsOf(DeliveryAttempt(outbox, claim, n));
      assert SafeParts(parts) <==> SafePart(parts[1]) && SafePart(parts[3]);
    }
  }

  // ----- attempt refs -----

  function Dotted(k: string): string {
    seq(|k|, i requires 0 <= i < |k| => if k[i] == ':' then '.' else k[i])
  }

  /** None where the source throws: no key, or a key too long for a ref value. */
  function AttemptRef(k: string): Option<string> {
    if IsKey(k) && |k| <= MAX_ATTEMPT_REF_LENGTH then Some("delivery-attempt:" + Dotted(k)) else None
  }

  lemma {:induction false} DottedReads(k: string)
    ensures |Dotted(k)| == |k| && forall i | 0 <= i < |k| :: Dotted(k)[i] == if k[i] == ':' then '.' else k[i]
  {}

  /** The attempt ref of a key: the key behind a prefix, with a dot for every colon. */
  lemma AttemptRefReads(k: string)
    ensures AttemptRef(k).Some? <==> IsKey(k) && |k| <= 256
    ensures AttemptRef(k).Some? ==>
              var ref := AttemptRef(k).value;
              && |ref| == 17 + |k| && "delivery-attempt:" <= ref
              && forall i | 0 <= i < |k| :: ref[17 + i] == if k[i] == ':' then '.' else k[i]
  {
    DottedReads(k);
    hide Dotted, IsKey;
  }

  /** Exactly when two keys share an attempt ref: they differ only in ':' against '.'. */
  lemma AttemptRefsCollideExactly(j: string, k: string)
    requires AttemptRef(j).Some? && AttemptRef(k).Some?
    ensures AttemptRef(j) == AttemptRef(k) <==>
            |j| == |k| &&
            forall i | 0 <= i < |j| :: j[i] == k[i] || (j[i] in {':', '.'} && k[i] in {':', '.'})
  {
    var rj, rk := AttemptRef(j).value, AttemptRef(k).value;
    var n := |"delivery-attempt:"|;
    assert rj[n..] == Dotted(j) && rk[n..] == Dotted(k);
    if rj == rk {
      forall i | 0 <= i < |j|
        ensures j[i] == k[i] || (j[i] in {':', '.'} && k[i] in {':', '.'})
      {
        assert Dotted(j)[i] == Dotted(k)[i];
      }
    }
    if |j| == |k| && forall i | 0 <= i < |j| :: j[i] == k[i] || (j[i] in {':', '.'} && k[i] in {':', '.'}) {
      assert Dotted(j) == Dotted(k);
    }
  }

  /** Between keys without dots no two share a ref. */
  lemma DotFreeAttemptRefsInjective(j: string, k: string)
    requires AttemptRef(j).Some? && AttemptRef(j) == AttemptRef(k)
    requires '.' !in j && '.' !in k
    ensures j == k
  {
    AttemptRefsCollideExactly(j, k);
  }

  /** With dots allowed, injectivity fails: one part "a.b" and two parts "a", "b". */
  lemma DottedPartsCollide()
    ensures CreateKey(CALLBACK, ["a.b"]).Some? && CreateKey(CALLBACK, ["a", "b"]).Some?
    ensures CreateKey(CALLBACK, ["a.b"]) != CreateKey(CALLBACK, ["a", "b"])
    ensures AttemptRef(CreateKey(CALLBACK, ["a.b"]).value) == AttemptRef(CreateKey(CALLBACK, ["a", "b"]).value)
    ensures AttemptRef(CreateKey(CALLBACK, ["a.b"]).value).Some?
  {
    SplitOfKey(CALLBACK, ["a.b"]);
    SplitOfKey(CALLBACK, ["a", "b"]);
    var j, k := CreateKey(CALLBACK, ["a.b"]).value, CreateKey(CALLBACK, ["a", "b"]).value;
    assert j == "callback:a.b" && k == "callback:a:b";
    assert j[10] == '.' && k[10] == ':';
    assert Dotted(j) == Dotted(k);
  }
}
