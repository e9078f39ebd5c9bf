/**
 Event refs and idempotency keys of channel events: the 32-bit FNV-1a loop over UTF-16 code units and
 the '|'-joined input it is fed.  Texts here are sequences of code units.
 */
module EventHash {
  import opened Common
  import opened CodeUnits
  import Hex

  const OFFSET_BASIS: bv32 := 2166136261

  /** `hash ^= unit`. */
  function Mix(hash: bv32, u: Unit): bv32 {
    hash ^ (u as bv32)
  }

  /** `Math.imul(hash, 16777619) >>> 0`, the product with the 32-bit FNV prime. */
  function Spread(hash: bv32): bv32 {
    hash * 16777619
  }

  /** 899433627 is the inverse of the FNV prime modulo 2^32. */
  function Gather(hash: bv32): bv32 {
    hash * 899433627
  }

  function Step(hash: bv32, u: Unit): bv32 {
    Spread(Mix(hash, u))
  }

  function Fnv(hash: bv32, s: Units): bv32
    decreases |s|
  {
    if s == [] then hash else Fnv(Step(hash, s[0]), s[1..])
  }

  lemma FnvTakesStep(hash: bv32, s: Units, i: nat)
    requires i < |s|
    ensures Fnv(hash, s[i..]) == Fnv(Step(hash, s[i]), s[i + 1..])
  {
    assert s[i..][1..] == s[i + 1..];
  }

  method FnvLoop(value: Units) returns (hash: bv32)
    ensures hash == Fnv(OFFSET_BASIS, value)
  {
    hide Mix, Spread;
    hash := OFFSET_BASIS;
    var index := 0;
    while index < |value|
      invariant 0 <= index <= |value|
      invariant Fnv(hash, value[index..]) == Fnv(OFFSET_BASIS, value)
    {
      FnvTakesStep(hash, value, index);
      hash := Mix(hash, value[index]);
      hash := Spread(hash);
      index := index + 1;
    }
  }

  function Word(hash: bv32): nat {
    hash as nat
  }

  function HashDigits(s: Units): seq<nat> {
    Hex.Print(Word(Fnv(OFFSET_BASIS, s)), 8)
  }

  /** The printed hash: eight hexadecimal digits that determine the word, for every input. */
  method DeterministicHash(value: Units) returns (digits: seq<nat>)
    ensures digits == HashDigits(value)
    ensures |digits| == 8 && (forall i | 0 <= i < 8 :: digits[i] < 16)
    ensures Hex.Value(digits) == Word(Fnv(OFFSET_BASIS, value))
  {
    var hash := FnvLoop(value);
    digits := Hex.Print(Word(hash), 8);
    HashDigitsAreExact(value);
  }

  lemma HashDigitsAreExact(s: Units)
    ensures var digits := HashDigits(s);
            && |digits| == 8 && (forall i | 0 <= i < 8 :: digits[i] < 16)
            && Hex.Value(digits) == Word(Fnv(OFFSET_BASIS, s))
  {
    hide Word, Fnv;
    WordFitsEightDigits(Fnv(OFFSET_BASIS, s));
    Hex.PrintIsExact(Word(Fnv(OFFSET_BASIS, s)), 8);
  }

  lemma ProductsCancel(x: bv32)
    ensures Gather(x * 16777619) == x && Spread(x * 899433627) == x
  {}

  lemma SpreadCancels(x: bv32)
    ensures Gather(Spread(x)) == x
  {
    hide Gather;
    ProductsCancel(x);
  }

  lemma GatherCancels(x: bv32)
    ensures Spread(Gather(x)) == x
  {
    hide Spread;
    ProductsCancel(x);
  }

  lemma MixCancels(x: bv32, u: Unit)
    ensures Mix(Mix(x, u), u) == x
  {}

  /** For each code unit the step is a bijection on 32-bit words. */
  lemma StepIsBijective(hash: bv32, u: Unit)
    ensures Mix(Gather(Step(hash, u)), u) == hash
    ensures Step(Mix(Gather(hash), u), u) == hash
  {
    hide Mix, Spread, Gather;
    SpreadCancels(Mix(hash, u));
    MixCancels(hash, u);
    GatherCancels(hash);
    MixCancels(Gather(hash), u);
  }

  lemma MixSeparatesUnits(hash: bv32, u: Unit, v: Unit)
    requires u != v
    ensures Mix(hash, u) != Mix(hash, v)
  {}

  lemma StepSeparatesUnits(hash: bv32, u: Unit, v: Unit)
    requires u != v
    ensures Step(hash, u) != Step(hash, v)
  {
    hide Mix, Spread, Gather;
    MixSeparatesUnits(hash, u, v);
    SpreadCancels(Mix(hash, u));
    SpreadCancels(Mix(hash, v));
  }

  lemma {:induction false} SameSuffixKeepsDifference(g: bv32, h: bv32, s: Units)
    requires g != h
    ensures Fnv(g, s) != Fnv(h, s)
    decreases |s|
  {
    hide Mix, Spread, Gather, Step;
    if s != [] {
      StepIsBijective(g, s[0]);
      StepIsBijective(h, s[0]);
      SameSuffixKeepsDifference(Step(g, s[0]), Step(h, s[0]), s[1..]);
    }
  }

  lemma {:induction false} OneUnitChangesHash(hash: bv32, s: Units, t: Units)
    requires DifferInOne(s, t)
    ensures Fnv(hash, s) != Fnv(hash, t)
    decreases |s|
  {
    hide Step;
    var i :| 0 <= i < |s| && s[i] != t[i] && s[..i] == t[..i] && s[i + 1..] == t[i + 1..];
    if i == 0 {
      StepSeparatesUnits(hash, s[0], t[0]);
      SameSuffixKeepsDifference(Step(hash, s[0]), Step(hash, t[0]), s[1..]);
    } else {
      assert s[0] == s[..i][0] == t[0];
      assert s[1..][..i - 1] == s[..i][1..] && t[1..][..i - 1] == t[..i][1..];
      assert s[1..][i..] == s[i + 1..] && t[1..][i..] == t[i + 1..];
      assert s[1..][i - 1] != t[1..][i - 1];
      OneUnitChangesHash(Step(hash, s[0]), s[1..], t[1..]);
    }
  }

  lemma WordFitsEightDigits(h: bv32)
    ensures Word(h) < Hex.Power16(8)
  {
    assert Hex.Power16(4) == 65536;
    assert Hex.Power16(8) == 65536 * 65536;
  }

  lemma WordIsInjective(g: bv32, h: bv32)
    requires Word(g) == Word(h)
    ensures g == h
  {
    assert (g as nat) as bv32 == g && (h as nat) as bv32 == h;
  }

  lemma WordsPrintApart(g: bv32, h: bv32)
    requires g != h
    ensures |Hex.Print(Word(g), 8)| == |Hex.Print(Word(h), 8)| == 8
    ensures Hex.Print(Word(g), 8) != Hex.Print(Word(h), 8)
    ensures forall i | 0 <= i < 8 :: Hex.Print(Word(g), 8)[i] < 16 && Hex.Print(Word(h), 8)[i] < 16
  {
    hide Word;
    WordFitsEightDigits(g);
    WordFitsEightDigits(h);
    Hex.PrintIsExact(Word(g), 8);
    Hex.PrintIsExact(Word(h), 8);
    if Word(g) == Word(h) {
      WordIsInjective(g, h);
    }
  }

  /** The printed hash has exactly eight digits and differs whenever one unit differs. */
  lemma PrintedHashSeparates(s: Units, t: Units)
    requires DifferInOne(s, t)
    ensures |HashDigits(s)| == |HashDigits(t)| == 8
    ensures HashDigits(s) != HashDigits(t)
    ensures forall i | 0 <= i < 8 :: HashDigits(s)[i] < 16 && HashDigits(t)[i] < 16
  {
    OneUnitChangesHash(OFFSET_BASIS, s, t);
    WordsPrintApart(Fnv(OFFSET_BASIS, s), Fnv(OFFSET_BASIS, t));
  }

  /** The length of a text is the number of its code units. */
  lemma {:induction false} LengthIsUnits(s: string)
    ensures JsLength(s) == |Encode(s)|
  {
    hide UnitOf;
    if s != "" {
      LengthIsUnits(s[1..]);
    }
  }

  // ----- event refs and idempotency keys -----

  datatype Provider = Telegram | OpenClaw
  datatype Kind = Message | Callback | System
  datatype SystemKind =
    TopicCreated | TopicRenamed | TopicClosed | TopicReopened | MemberJoined | MemberLeft | UnknownSystem

  /** A provider event whose identifiers have already been normalised. */
  datatype Event = Event(
    provider: Provider, kind: Kind,
    channelId: string, chatId: string, threadId: string, messageId: string,
    callbackId: Option<string>, systemKind: SystemKind, eventId: Option<string>)

  predicate IsIdChar(c: char) {
    'a' <= c <= 'z' || '0' <= c <= '9' || c == ':' || c == '_' || c == '-'
  }

  /** What identifier normalisation lets through: lower-case letters, digits, ':', '_' and '-'. */
  predicate SafeId(id: string) {
    0 < |id| <= 256 && id[0] !in {':', '_', '-'} && forall i | 0 <= i < |id| :: IsIdChar(id[i])
  }

  /** A letter or digit, then up to 255 identifier characters. */
  lemma SafeIdExactly(id: string)
    ensures SafeId(id) <==>
            && 1 <= |id| <= 256 && ('a' <= id[0] <= 'z' || '0' <= id[0] <= '9')
            && forall i | 1 <= i < |id| ::
                 'a' <= id[i] <= 'z' || '0' <= id[i] <= '9' || id[i] == ':' || id[i] == '_' || id[i] == '-'
  {}

  predicate SafeEvent(e: Event) {
    && SafeId(e.channelId) && SafeId(e.chatId) && SafeId(e.threadId) && SafeId(e.messageId)
    && (e.callbackId.Some? ==> SafeId(e.callbackId.value))
    && (e.eventId.Some? ==> SafeId(e.eventId.value))
  }

  function ProviderText(p: Provider): string {
    match p
    case Telegram => "telegram"
    case OpenClaw => "openclaw"
  }

  function KindText(k: Kind): string {
    match k
    case Message => "message"
    case Callback => "callback"
    case System => "system"
  }

  function SystemKindText(k: SystemKind): string {
    match k
    case TopicCreated => "topic-created"
    case TopicRenamed => "topic-renamed"
    case TopicClosed => "topic-closed"
    case TopicReopened => "topic-reopened"
    case MemberJoined => "member-joined"
    case MemberLeft => "member-left"
    case UnknownSystem => "unknown"
  }

  function SafeRef(prefix: string, id: string): string {
    if prefix + ":" <= id then id else prefix + ":" + id
  }

  function ProviderRef(provider: Provider, suffix: string, id: string): string {
    SafeRef(ProviderText(provider) + suffix, id)
  }

  function CallbackRef(e: Event): Option<string> {
    if e.kind.Callback? then
      var prefix := ProviderText(e.provider) + "-callback";
      Some(if e.callbackId.Some? then SafeRef(prefix, e.callbackId.value) else prefix + ":unavailable")
    else None
  }

  function EventSystemKind(e: Event): Option<SystemKind> {
    if e.kind.System? then Some(e.systemKind) else None
  }

  function Components(e: Event): (parts: seq<string>)
    ensures |parts| == 8
  {
    [ ProviderText(e.provider),
      KindText(e.kind),
      ProviderRef(e.provider, "-channel", e.channelId),
      ProviderRef(e.provider, "-chat", e.chatId),
      ProviderRef(e.provider, "-thread", e.threadId),
      ProviderRef(e.provider, "-message", e.messageId),
      match CallbackRef(e) { case Some(ref) => ref case None => "" },
      match EventSystemKind(e) { case Some(k) => SystemKindText(k) case None => "" } ]
  }

  function StableInput(e: Event): string {
    Join('|', Components(e))
  }

  function HashText(s: string): string {
    Hex.Show(HashDigits(Encode(s)))
  }

  function EventRef(e: Event): string {
    match e.eventId
    case Some(id) => SafeRef(ProviderText(e.provider) + "-event", id)
    case None => "channel-event:" + HashText(StableInput(e))
  }

  /** What the idempotency key hashes. */
  function KeyInput(e: Event): string {
    EventRef(e) + "|" + StableInput(e)
  }

  function IdempotencyKey(e: Event): string {
    "channel-event-idem:" + HashText(KeyInput(e))
  }

  /** Made of identifier characters only: such texts are ASCII and hold no separator. */
  predicate Plain(s: string) {
    forall i | 0 <= i < |s| :: IsIdChar(s[i])
  }

  lemma VocabularyIsPlain(e: Event)
    ensures Plain(ProviderText(e.provider)) && Plain(KindText(e.kind)) && Plain(SystemKindText(e.systemKind))
  {
    hide Plain;
    WordIsPlain(ProviderText(e.provider));
    WordIsPlain(KindText(e.kind));
    WordIsPlain(SystemKindText(e.systemKind));
  }

  lemma WordIsPlain(s: string)
    requires forall i | 0 <= i < |s| :: 'a' <= s[i] <= 'z' || s[i] == '-'
    ensures Plain(s)
  {}

  lemma SafeRefIsPlain(prefix: string, id: string)
    requires Plain(prefix) && SafeId(id)
    ensures Plain(SafeRef(prefix, id)) && SafeRef(prefix, id) != ""
  {}

  lemma RefIsPlain(provider: Provider, suffix: string, id: string)
    requires SafeId(id) && forall i | 0 <= i < |suffix| :: 'a' <= suffix[i] <= 'z' || suffix[i] == '-'
    ensures Plain(ProviderRef(provider, suffix, id)) && ProviderRef(provider, suffix, id) != ""
  {
    hide SafeId, SafeRef;
    SafeRefIsPlain(ProviderText(provider) + suffix, id);
  }

  lemma CallbackRefIsPlain(e: Event)
    requires SafeEvent(e) && CallbackRef(e).Some?
    ensures Plain(CallbackRef(e).value) && CallbackRef(e).value != ""
  {
    hide SafeId, SafeRef;
    if e.callbackId.Some? {
      RefIsPlain(e.provider, "-callback", e.callbackId.value);
    }
  }

  lemma EightArePlain(a: string, b: string, c: string, d: string, e: string, f: string, g: string, h: string)
    requires Plain(a) && Plain(b) && Plain(c) && Plain(d) && Plain(e) && Plain(f) && Plain(g) && Plain(h)
    ensures forall i | 0 <= i < 8 :: Plain([a, b, c, d, e, f, g, h][i])
  {
    hide Plain;
  }

  lemma ComponentsArePlain(e: Event)
    requires SafeEvent(e)
    ensures forall i | 0 <= i < 8 :: Plain(Components(e)[i])
    ensures CallbackRef(e).Some? ==> CallbackRef(e).value != ""
  {
    assert Plain("");
    hide Plain, ProviderRef, SafeId, KindText, SystemKindText, ProviderText, CallbackRef;
    VocabularyIsPlain(e);
    RefIsPlain(e.provider, "-channel", e.channelId);
    RefIsPlain(e.provider, "-chat", e.chatId);
    RefIsPlain(e.provider, "-thread", e.threadId);
    RefIsPlain(e.provider, "-message", e.messageId);
    if CallbackRef(e).Some? {
      CallbackRefIsPlain(e);
    }
    EightArePlain(ProviderText(e.provider), KindText(e.kind), ProviderRef(e.provider, "-channel", e.channelId),
                  ProviderRef(e.provider, "-chat", e.chatId), ProviderRef(e.provider, "-thread", e.threadId),
                  ProviderRef(e.provider, "-message", e.messageId),
                  match CallbackRef(e) { case Some(ref) => ref case None => "" },
                  match EventSystemKind(e) { case Some(k) => SystemKindText(k) case None => "" });
  }

  lemma HashTextIsPlain(s: string)
    ensures Plain(HashText(s)) && |HashText(s)| == 8
  {
    HashDigitsAreExact(Encode(s));
    hide HashDigits, Hex.Show;
    var digits := HashDigits(Encode(s));
    Hex.ShowIsExact(digits, digits);
  }

  lemma EventRefIsPlain(e: Event)
    requires SafeEvent(e)
    ensures Plain(EventRef(e))
  {
    hide SafeRef, SafeId, HashText;
    if e.eventId.Some? {
      RefIsPlain(e.provider, "-event", e.eventId.value);
    } else {
      HashTextIsPlain(StableInput(e));
    }
  }

  /** The joined input determines all eight of its components. */
  lemma StableInputDetermines(a: Event, b: Event)
    requires SafeEvent(a) && SafeEvent(b) && StableInput(a) == StableInput(b)
    ensures Components(a) == Components(b)
    ensures a.provider == b.provider && a.kind == b.kind
    ensures CallbackRef(a) == CallbackRef(b) && EventSystemKind(a) == EventSystemKind(b)
  {
    ComponentsArePlain(a);
    ComponentsArePlain(b);
    assert forall e, i | e in {a, b} && 0 <= i < 8 :: Plain(Components(e)[i]) ==> '|' !in Components(e)[i];
    SplitJoin('|', Components(a));
    SplitJoin('|', Components(b));
    VocabularyTextsDiffer(a, b);
    hide ProviderText, KindText, SystemKindText, SafeRef, Plain;
    assert Components(a)[0] == Components(b)[0] && Components(a)[1] == Components(b)[1];
    assert Components(a)[6] == Components(b)[6] && Components(a)[7] == Components(b)[7];
  }

  lemma VocabularyTextsDiffer(a: Event, b: Event)
    ensures ProviderText(a.provider) == ProviderText(b.provider) ==> a.provider == b.provider
    ensures KindText(a.kind) == KindText(b.kind) ==> a.kind == b.kind
    ensures SystemKindText(a.systemKind) == SystemKindText(b.systemKind) ==> a.systemKind == b.systemKind
    ensures SystemKindText(a.systemKind) != ""
  {
    assert ProviderText(Telegram)[0] == 't' && ProviderText(OpenClaw)[0] == 'o';
    assert SystemKindText(TopicCreated)[6] == 'c' && SystemKindText(TopicRenamed)[6] == 'r';
    assert SystemKindText(MemberJoined)[6] == '-';
  }

  /** Exactly when two identifiers become the same ref: one is the other with the prefix written out. */
  lemma SafeRefMergesExactly(prefix: string, a: string, b: string)
    ensures SafeRef(prefix, a) == SafeRef(prefix, b) <==>
            || a == b
            || (a == prefix + ":" + b && !(prefix + ":" <= b))
            || (b == prefix + ":" + a && !(prefix + ":" <= a))
  {
    var full := prefix + ":";
    assert (full + a)[|full|..] == a && (full + b)[|full|..] == b;
  }

  // ----- one character of difference -----

  lemma DifferenceInContext(before: string, s: string, t: string, after: string)
    requires DifferInOne(s, t)
    ensures DifferInOne(before + s + after, before + t + after)
  {
    var i :| 0 <= i < |s| && s[i] != t[i] && s[..i] == t[..i] && s[i + 1..] == t[i + 1..];
    var x, y, k := before + s + after, before + t + after, |before| + i;
    assert x[..k] == before + s[..i] && y[..k] == before + t[..i];
    assert x[k + 1..] == s[i + 1..] + after && y[k + 1..] == t[i + 1..] + after;
    assert x[k] != y[k];
  }

  lemma {:induction false} DifferenceInJoin(sep: char, parts: seq<string>, i: nat, part: string)
    requires i < |parts| && DifferInOne(parts[i], part)
    ensures DifferInOne(Join(sep, parts), Join(sep, parts[i := part]))
  {
    var changed := parts[i := part];
    if |parts| == 1 {
    } else if i == 0 {
      assert changed[1..] == parts[1..];
      var after := [sep] + Join(sep, parts[1..]);
      DifferenceInContext([], parts[0], part, after);
      assert [] + parts[0] + after == Join(sep, parts) && [] + part + after == Join(sep, changed);
    } else {
      assert changed[1..] == parts[1..][i - 1 := part];
      DifferenceInJoin(sep, parts[1..], i - 1, part);
      var before := parts[0] + [sep];
      DifferenceInContext(before, Join(sep, parts[1..]), Join(sep, changed[1..]), []);
      assert before + Join(sep, parts[1..]) + [] == Join(sep, parts);
      assert before + Join(sep, changed[1..]) + [] == Join(sep, changed);
    }
  }

  lemma {:induction false} JoinIsAscii(sep: char, parts: seq<string>)
    requires sep as int < 128 && forall i | 0 <= i < |parts| :: IsAscii(parts[i])
    ensures IsAscii(Join(sep, parts))
  {
    if |parts| > 1 {
      JoinIsAscii(sep, parts[1..]);
    }
  }

  /** Hashes of ASCII texts print as eight hexadecimal digits, and one differing character shows. */
  lemma HashTextsApart(s: string, t: string)
    requires DifferInOne(s, t) && IsAscii(s) && IsAscii(t)
    ensures |HashText(s)| == |HashText(t)| == 8 && IsAscii(HashText(s)) && HashText(s) != HashText(t)
  {
    CodeUnitsKeepDifference(s, t);
    PrintedHashSeparates(Encode(s), Encode(t));
    hide HashDigits;
    var ds, dt := HashDigits(Encode(s)), HashDigits(Encode(t));
    Hex.ShowIsExact(ds, dt);
  }

  lemma PrefixKeepsDifference(prefix: string, s: string, t: string)
    requires s != t
    ensures prefix + s != prefix + t
  {
    assert (prefix + s)[|prefix|..] == s && (prefix + t)[|prefix|..] == t;
  }

  lemma StableInputIsAscii(e: Event)
    requires SafeEvent(e)
    ensures IsAscii(StableInput(e))
  {
    ComponentsArePlain(e);
    assert forall i | 0 <= i < 8 :: Plain(Components(e)[i]) ==> IsAscii(Components(e)[i]);
    JoinIsAscii('|', Components(e));
  }

  lemma StableInputsDiffer(a: Event, b: Event, i: nat)
    requires SafeEvent(a) && SafeEvent(b) && i < 8
    requires DifferInOne(Components(a)[i], Components(b)[i])
    requires Components(b) == Components(a)[i := Components(b)[i]]
    ensures DifferInOne(StableInput(a), StableInput(b))
    ensures IsAscii(StableInput(a)) && IsAscii(StableInput(b))
  {
    hide SafeEvent, IsAscii;
    StableInputIsAscii(a);
    StableInputIsAscii(b);
    hide Components;
    DifferenceInJoin('|', Components(a), i, Components(b)[i]);
  }

  lemma EventRefIsAscii(e: Event)
    requires SafeEvent(e)
    ensures IsAscii(EventRef(e))
  {
    EventRefIsPlain(e);
    hide EventRef;
  }

  lemma RefsOfDifferentOrigin(a: Event, b: Event)
    requires a.eventId.Some? && b.eventId.None?
    ensures EventRef(a) != EventRef(b)
  {
    hide StableInput, HashText;
    var prefix := ProviderText(a.provider) + "-event:";
    assert prefix <= EventRef(a) && |prefix| >= 2;
    assert prefix[1] == 'e' || prefix[1] == 'p';
    assert EventRef(a)[1] == prefix[1] && EventRef(b)[1] == 'h';
  }

  /**
   Two events that differ in one character of one component never share an event ref unless both bring
   an event id, and then never share both the event ref and the idempotency key.
   */
  lemma OneCharacterSeparatesEvents(a: Event, b: Event, i: nat)
    requires SafeEvent(a) && SafeEvent(b) && i < 8
    requires DifferInOne(Components(a)[i], Components(b)[i])
    requires Components(b) == Components(a)[i := Components(b)[i]]
    ensures a.eventId.None? || b.eventId.None? ==> EventRef(a) != EventRef(b)
    ensures EventRef(a) == EventRef(b) ==> IdempotencyKey(a) != IdempotencyKey(b)
  {
    StableInputsDiffer(a, b, i);
    var sa, sb := StableInput(a), StableInput(b);
    if a.eventId.None? && b.eventId.None? {
      HashTextsApart(sa, sb);
      PrefixKeepsDifference("channel-event:", HashText(sa), HashText(sb));
    } else if b.eventId.None? {
      RefsOfDifferentOrigin(a, b);
    } else if a.eventId.None? {
      RefsOfDifferentOrigin(b, a);
    } else if EventRef(a) == EventRef(b) {
      EventRefIsAscii(a);
      BarIsAscii(EventRef(a));
      KeysApart(EventRef(a) + "|", sa, sb, "");
      assert EventRef(a) + "|" + sa + "" == KeyInput(a) && EventRef(a) + "|" + sb + "" == KeyInput(b);
    }
  }

  lemma KeysApart(before: string, s: string, t: string, after: string)
    requires DifferInOne(s, t) && IsAscii(before) && IsAscii(s) && IsAscii(t) && IsAscii(after)
    ensures "channel-event-idem:" + HashText(before + s + after) != "channel-event-idem:" + HashText(before + t + after)
  {
    DifferenceInContext(before, s, t, after);
    var x, y := before + s + after, before + t + after;
    hide HashText, DifferInOne;
    HashTextsApart(x, y);
    PrefixKeepsDifference("channel-event-idem:", HashText(x), HashText(y));
  }

  /** Two events alike but for one character of their event refs have different idempotency keys. */
  lemma OneRefCharacterSeparatesKeys(a: Event, b: Event)
    requires SafeEvent(a) && SafeEvent(b)
    requires Components(a) == Components(b) && DifferInOne(EventRef(a), EventRef(b))
    ensures IdempotencyKey(a) != IdempotencyKey(b)
  {
    hide SafeEvent, EventRef, HashText, DifferInOne, IsAscii;
    StableInputIsAscii(a);
    EventRefIsAscii(a);
    EventRefIsAscii(b);
    hide Components;
    BarIsAscii(StableInput(a));
    KeysApart("", EventRef(a), EventRef(b), "|" + StableInput(a));
    assert "" + EventRef(a) + ("|" + StableInput(a)) == KeyInput(a);
    assert "" + EventRef(b) + ("|" + StableInput(a)) == KeyInput(b);
  }

  lemma BarIsAscii(s: string)
    requires IsAscii(s)
    ensures IsAscii("|" + s) && IsAscii(s + "|") && IsAscii("")
  {}

  /** So two events that differ in one character of their event ids alone are not taken for one another. */
  lemma EventIdsSeparateKeys(a: Event, b: Event)
    requires SafeEvent(a) && SafeEvent(b) && b == a.(eventId := b.eventId)
    requires a.eventId.Some? && b.eventId.Some? && DifferInOne(a.eventId.value, b.eventId.value)
    requires var prefix := ProviderText(a.provider) + "-event:"; prefix <= a.eventId.value <==> prefix <= b.eventId.value
    ensures EventRef(a) != EventRef(b) && IdempotencyKey(a) != IdempotencyKey(b)
  {
    hide SafeEvent, ProviderText, HashText;
    var prefix, x, y := ProviderText(a.provider) + "-event", a.eventId.value, b.eventId.value;
    assert prefix + ":" == ProviderText(a.provider) + "-event:";
    if !(prefix + ":" <= x) {
      DifferenceInContext(prefix + ":", x, y, "");
      assert prefix + ":" + x + "" == prefix + ":" + x && prefix + ":" + y + "" == prefix + ":" + y;
    }
    assert DifferInOne(EventRef(a), EventRef(b));
    hide DifferInOne, EventRef, IdempotencyKey;
    OneRefCharacterSeparatesKeys(a, b);
  }

  // ----- what the key hashes -----

  lemma KeyInputSplits(e: Event)
    requires SafeEvent(e)
    ensures Split('|', KeyInput(e)) == [EventRef(e)] + Components(e)
  {
    ComponentsArePlain(e);
    EventRefIsPlain(e);
    assert '|' !in EventRef(e) && forall i | 0 <= i < 8 :: Plain(Components(e)[i]) ==> '|' !in Components(e)[i];
    hide EventRef, Components;
    SplitJoin('|', Components(e));
    SplitAfterPart('|', EventRef(e), StableInput(e));
    assert KeyInput(e) == EventRef(e) + ['|'] + StableInput(e);
  }

  /** An event ref is the prefixed event id, or else names the hash of the eight components. */
  lemma EventRefReads(e: Event)
    requires SafeEvent(e)
    ensures match e.eventId
            case Some(id) =>
              var prefix := if e.provider.Telegram? then "telegram-event:" else "openclaw-event:";
              EventRef(e) == if prefix <= id then id else prefix + id
            case None =>
              exists text :: EventRef(e) == "channel-event:" + HashText(text) && Split('|', text) == Components(e)
  {
    if e.eventId.None? {
      ComponentsArePlain(e);
      hide HashText, Components;
      assert forall i | 0 <= i < 8 :: Plain(Components(e)[i]) ==> '|' !in Components(e)[i];
      SplitJoin('|', Components(e));
      assert EventRef(e) == "channel-event:" + HashText(StableInput(e));
    } else {
      assert ProviderText(e.provider) + "-event" + ":" ==
             if e.provider.Telegram? then "telegram-event:" else "openclaw-event:";
    }
  }

  /** The eight parts of the stable input, in order. */
  lemma ComponentsRead(e: Event)
    ensures var parts := Components(e);
            && parts[0] == (if e.provider.Telegram? then "telegram" else "openclaw")
            && parts[1] == (if e.kind.Message? then "message" else if e.kind.Callback? then "callback" else "system")
            && parts[2] == SafeRef(parts[0] + "-channel", e.channelId) && parts[3] == SafeRef(parts[0] + "-chat", e.chatId)
            && parts[4] == SafeRef(parts[0] + "-thread", e.threadId)
            && parts[5] == SafeRef(parts[0] + "-message", e.messageId)
            && parts[6] == (if CallbackRef(e).Some? then CallbackRef(e).value else "")
            && (e.kind.System? ==> SystemNamed(parts[7], e.systemKind)) && (!e.kind.System? ==> parts[7] == "")
  {
    SystemTextNames(e.systemKind);
    hide SafeRef, CallbackRef, SystemKindText, SystemNamed;
  }

  ghost predicate SystemNamed(text: string, k: SystemKind) {
    match k
    case TopicCreated => text == "topic-created"
    case TopicRenamed => text == "topic-renamed"
    case TopicClosed => text == "topic-closed"
    case TopicReopened => text == "topic-reopened"
    case MemberJoined => text == "member-joined"
    case MemberLeft => text == "member-left"
    case UnknownSystem => text == "unknown"
  }

  lemma SystemTextNames(k: SystemKind)
    ensures SystemNamed(SystemKindText(k), k)
  {}

  /** The key is the hash of a text whose nine '|'-parts name the event: its ref first, then all it is made of. */
  lemma KeyNamesTheEvent(e: Event)
    requires SafeEvent(e)
    ensures exists text ::
      && IdempotencyKey(e) == "channel-event-idem:" + HashText(text)
      && var parts := Split('|', text);
         && |parts| == 9 && parts[0] == EventRef(e)
         && parts[1] == (if e.provider.Telegram? then "telegram" else "openclaw")
         && parts[2] == (if e.kind.Message? then "message" else if e.kind.Callback? then "callback" else "system")
         && parts[3] == SafeRef(parts[1] + "-channel", e.channelId) && parts[4] == SafeRef(parts[1] + "-chat", e.chatId)
         && parts[5] == SafeRef(parts[1] + "-thread", e.threadId)
         && parts[6] == SafeRef(parts[1] + "-message", e.messageId)
         && parts[7] == (if CallbackRef(e).Some? then CallbackRef(e).value else "")
         && (e.kind.System? ==> SystemNamed(parts[8], e.systemKind)) && (!e.kind.System? ==> parts[8] == "")
  {
    hide SafeEvent, EventRef, HashText, SafeRef, CallbackRef, Split, Components, KeyInput, SystemNamed;
    KeyInputSplits(e);
    ComponentsRead(e);
    assert IdempotencyKey(e) == "channel-event-idem:" + HashText(KeyInput(e));
  }

  /** The published test values of 32-bit FNV-1a for the empty text and for "a". */
  lemma KnownHashes()
    ensures Fnv(OFFSET_BASIS, []) == 0x811c9dc5 && Fnv(OFFSET_BASIS, [0x61]) == 0xe40c292c
  {
    assert [0x61 as Unit][1..] == [];
    assert Mix(OFFSET_BASIS, 0x61) == 0x811c9da4;
    assert Fnv(OFFSET_BASIS, [0x61]) == Fnv(Step(OFFSET_BASIS, 0x61), []);
  }
}
