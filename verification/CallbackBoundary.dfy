/**
 The callback boundary: permission, then token verification, then token consumption, with an await at
 each port call.  `Start` and the three `After` functions are the pieces of the asynchronous function
 between its awaits; the protocol module interleaves them.
 */
module CallbackBoundary {
  import opened Common

  /** Lower-casing and the unsafe-text patterns. */
  datatype TextPolicy = TextPolicy(lower: string -> string, unsafe: string -> bool)

  const MAX_REF_LENGTH := 120
  const MAX_DATA_LENGTH := 160

  predicate SafeRefPattern(s: string) {
    s != "" && |s| <= MAX_REF_LENGTH && 'a' <= s[0] <= 'z' &&
    forall i | 0 <= i < |s| :: 'a' <= s[i] <= 'z' || '0' <= s[i] <= '9' || s[i] == ':' || s[i] == '-'
  }

  function SafeOptionalRef(policy: TextPolicy, value: string): Option<string> {
    var dashed := Dashed(policy.lower(TrimText(value)), false);
    var normalized := if |dashed| <= MAX_REF_LENGTH then dashed else dashed[..MAX_REF_LENGTH];
    if SafeRefPattern(normalized) && !policy.unsafe(normalized) then Some(normalized) else None
  }

  /** Callback data: absent, some other type, or text. */
  datatype CallbackData = Missing | OtherType | Data(text: string)

  datatype Payload = TokenRef(tokenRef: string) | ActionRef(actionRef: string) | InvalidPayload

  function ParseCallbackData(policy: TextPolicy, data: CallbackData): Payload {
    if !data.Data? then InvalidPayload
    else
      var trimmed := TrimText(data.text);
      if trimmed == "" || JsLength(trimmed) > MAX_DATA_LENGTH || policy.unsafe(trimmed) then InvalidPayload
      else if "hz:" <= trimmed && SafeOptionalRef(policy, trimmed[3..]).Some? then
        TokenRef(SafeOptionalRef(policy, trimmed[3..]).value)
      else if "action:" <= trimmed && SafeOptionalRef(policy, trimmed[7..]).Some? then
        ActionRef(SafeOptionalRef(policy, trimmed[7..]).value)
      else InvalidPayload
  }

  // ----- what data stands for -----

  /** `ref` is what the raw text spells: trimmed, lower-cased, white space dashed, cut at the limit, and safe. */
  predicate Spells(policy: TextPolicy, raw: string, ref: string) {
    var whole := Dashed(policy.lower(TrimText(raw)), false);
    && (ref == whole || (|whole| > 120 && ref == whole[..120]))
    && SafeRefPattern(ref) && !policy.unsafe(ref)
  }

  /** The data is text which, trimmed, is short and safe, and is the prefix followed by a spelling of the ref. */
  predicate Carries(policy: TextPolicy, data: CallbackData, prefix: string, ref: string) {
    && data.Data?
    && var trimmed := TrimText(data.text);
    && JsLength(trimmed) <= 160 && !policy.unsafe(trimmed)
    && prefix <= trimmed && Spells(policy, trimmed[|prefix|..], ref)
  }

  /** Runs of white space, and nothing else, become dashes. */
  lemma {:induction false} DashedWord(word: string, inRun: bool)
    requires forall c | c in word :: !IsSpaceChar(c)
    ensures Dashed(word, inRun) == word
  {
    if word != "" {
      DashedWord(word[1..], false);
    }
  }

  lemma {:induction false} DashedRun(run: string, rest: string)
    requires forall c | c in run :: IsSpaceChar(c)
    requires rest == "" || !IsSpaceChar(rest[0])
    ensures Dashed(run + rest, true) == Dashed(rest, false)
  {
    if run != "" {
      assert (run + rest)[1..] == run[1..] + rest;
      DashedRun(run[1..], rest);
    } else {
      assert run + rest == rest;
    }
  }

  lemma {:induction false} DashedByRuns(word: string, run: string, rest: string)
    requires forall c | c in word :: !IsSpaceChar(c)
    requires run != "" && forall c | c in run :: IsSpaceChar(c)
    requires rest == "" || !IsSpaceChar(rest[0])
    ensures Dashed(word + run + rest, false) == word + "-" + Dashed(rest, false)
  {
    var s := word + run + rest;
    if word == "" {
      assert s[1..] == run[1..] + rest && s[0] == run[0];
      DashedRun(run[1..], rest);
    } else {
      assert s[1..] == word[1..] + run + rest && s[0] == word[0];
      DashedByRuns(word[1..], run, rest);
      assert [word[0]] + (word[1..] + "-" + Dashed(rest, false)) == word + "-" + Dashed(rest, false);
    }
  }

  lemma SpellsExactly(policy: TextPolicy, raw: string, ref: string)
    ensures SafeOptionalRef(policy, raw) == Some(ref) <==> Spells(policy, raw, ref)
  {}

  /** Which data is a token, which an action and which is refused, in both directions. */
  lemma PayloadExactly(policy: TextPolicy, data: CallbackData)
    ensures forall t :: ParseCallbackData(policy, data) == TokenRef(t) <==> Carries(policy, data, "hz:", t)
    ensures forall t :: ParseCallbackData(policy, data) == ActionRef(t) <==> Carries(policy, data, "action:", t)
    ensures ParseCallbackData(policy, data) == InvalidPayload <==>
            forall t :: !Carries(policy, data, "hz:", t) && !Carries(policy, data, "action:", t)
  {
    hide Spells, SafeOptionalRef;
    if data.Data? {
      var trimmed := TrimText(data.text);
      hide TrimText;
      forall t
        ensures "hz:" <= trimmed ==>
                (SafeOptionalRef(policy, trimmed[3..]) == Some(t) <==> Spells(policy, trimmed[3..], t))
        ensures "action:" <= trimmed ==>
                (SafeOptionalRef(policy, trimmed[7..]) == Some(t) <==> Spells(policy, trimmed[7..], t))
      {
        if "hz:" <= trimmed {
          SpellsExactly(policy, trimmed[3..], t);
        }
        if "action:" <= trimmed {
          SpellsExactly(policy, trimmed[7..], t);
        }
      }
    }
  }

  lemma PatternIsPlain(ref: string)
    requires SafeRefPattern(ref)
    ensures |ref| <= 120 && TrimText(ref) == ref
    ensures forall i | 0 <= i < |ref| :: !IsSpaceChar(ref[i]) && ref[i] as int < 0x1_0000
  {
    assert !IsSpaceChar(ref[0]) && !IsSpaceChar(ref[|ref| - 1]);
  }

  /** A prefix followed by a safe lower-case ref carries that very ref. */
  lemma PlainDataCarries(policy: TextPolicy, text: string, prefix: string, ref: string)
    requires prefix in {"hz:", "action:"} && TrimText(text) == prefix + ref && !policy.unsafe(prefix + ref)
    requires SafeRefPattern(ref) && policy.lower(ref) == ref && !policy.unsafe(ref)
    ensures Carries(policy, Data(text), prefix, ref)
  {
    hide TrimText, Dashed, JsLength, SafeRefPattern;
    PatternIsPlain(ref);
    PrefixedLength(prefix, ref);
    DashedWord(ref, false);
  }

  lemma PrefixedLength(prefix: string, ref: string)
    requires prefix in {"hz:", "action:"} && |ref| <= 120
    requires forall i | 0 <= i < |ref| :: ref[i] as int < 0x1_0000
    ensures JsLength(prefix + ref) <= 127 && prefix <= prefix + ref && (prefix + ref)[|prefix|..] == ref
  {
    hide JsLength;
    assert |prefix| <= 7 && forall i | 0 <= i < |prefix| :: prefix[i] as int < 0x1_0000;
    PlainLength(prefix + ref);
  }

  // ----- port answers -----

  /** What an awaited port call gives back: a value, or a rejection. */
  datatype Reply<T> = Value(value: T) | Thrown

  datatype PermissionStatus = PermissionAllowed | PermissionDenied | BindingNotFound | BindingDisabled

  datatype VerifyStatus = Valid | VerifyNotFound | VerifyContextMismatch | VerifyExpired | VerifyConsumed | Invalid

  datatype ConsumeStatus =
    Consumed | AlreadyConsumed | ConsumeConflict | ConsumeNotFound | ConsumeContextMismatch | ConsumeExpired | FailedSafe

  datatype Answer<S> = Answer(status: S, reasonCode: Option<string>, retryable: Option<bool>)

  // ----- decisions -----

  datatype DecisionStatus =
    | DecisionPermissionDenied | DecisionInvalidPayload | DecisionBindingNotFound | DecisionBindingDisabled
    | TokenNotFound | TokenContextMismatch | TokenExpired | TokenConsumed | TokenConsumeConflict
    | AcknowledgedOnly | DecisionFailedSafe

  datatype ReplayStatus = NotReplay | DuplicateSafe | ConflictSafe

  datatype AckText = Processing | NotAllowed | ActionExpired | AlreadyProcessed | CouldNotProcess

  datatype Decision = Decision(
    status: DecisionStatus, tokenConsumed: bool, businessAccepted: bool, retryable: bool,
    replayStatus: ReplayStatus, reasonCode: string)

  datatype Outcome = Decided(decision: Decision, ack: AckText) | SafeError

  function StatusText(s: DecisionStatus): string {
    match s
    case DecisionPermissionDenied => "permission-denied"
    case DecisionInvalidPayload => "invalid-payload"
    case DecisionBindingNotFound => "binding-not-found"
    case DecisionBindingDisabled => "binding-disabled"
    case TokenNotFound => "token-not-found"
    case TokenContextMismatch => "token-context-mismatch"
    case TokenExpired => "token-expired"
    case TokenConsumed => "token-consumed"
    case TokenConsumeConflict => "token-consume-conflict"
    case AcknowledgedOnly => "acknowledged-only"
    case DecisionFailedSafe => "failed-safe"
  }

  function Decide(policy: TextPolicy, status: DecisionStatus, consumed: bool, accepted: bool, retryable: bool,
                  replay: ReplayStatus, reason: string): Decision {
    Decision(status, consumed, accepted, retryable, replay, Or(SafeOptionalRef(policy, reason), StatusText(status)))
  }

  /** When no ref can be read off the reason, the reason code names the status. */
  lemma ReasonFallsBack(policy: TextPolicy, s: DecisionStatus, consumed: bool, accepted: bool, retryable: bool,
                        replay: ReplayStatus, reason: string)
    requires forall ref :: !Spells(policy, reason, ref)
    ensures var code := Decide(policy, s, consumed, accepted, retryable, replay, reason).reasonCode;
            && (code == "permission-denied" <==> s == DecisionPermissionDenied)
            && (code == "invalid-payload" <==> s == DecisionInvalidPayload)
            && (code == "binding-not-found" <==> s == DecisionBindingNotFound)
            && (code == "binding-disabled" <==> s == DecisionBindingDisabled)
            && (code == "token-not-found" <==> s == TokenNotFound)
            && (code == "token-context-mismatch" <==> s == TokenContextMismatch)
            && (code == "token-expired" <==> s == TokenExpired)
            && (code == "token-consumed" <==> s == TokenConsumed)
            && (code == "token-consume-conflict" <==> s == TokenConsumeConflict)
            && (code == "acknowledged-only" <==> s == AcknowledgedOnly)
            && (code == "failed-safe" <==> s == DecisionFailedSafe)
  {
    assert SafeOptionalRef(policy, reason).None? by {
      if SafeOptionalRef(policy, reason).Some? {
        SpellsExactly(policy, reason, SafeOptionalRef(policy, reason).value);
      }
    }
    hide SafeOptionalRef, Spells;
  }

  function Refuse<S>(policy: TextPolicy, status: DecisionStatus, answer: Answer<S>, reason: string): Option<Decision> {
    Some(Decide(policy, status, false, false, Or(answer.retryable, false), NotReplay, Or(answer.reasonCode, reason)))
  }

  function Duplicate<S>(policy: TextPolicy, answer: Answer<S>): Decision {
    Decide(policy, TokenConsumed, false, false, false, DuplicateSafe,
           Or(answer.reasonCode, "duplicate-callback-replay-safe"))
  }

  function MapPermission(policy: TextPolicy, answer: Answer<PermissionStatus>): Option<Decision> {
    match answer.status
    case PermissionAllowed => None
    case BindingNotFound => Refuse(policy, DecisionBindingNotFound, answer, "binding-not-found")
    case BindingDisabled => Refuse(policy, DecisionBindingDisabled, answer, "binding-disabled")
    case PermissionDenied => Refuse(policy, DecisionPermissionDenied, answer, "actor-not-authorized")
  }

  function MapVerify(policy: TextPolicy, answer: Answer<VerifyStatus>): Option<Decision> {
    match answer.status
    case Valid => None
    case VerifyNotFound => Refuse(policy, TokenNotFound, answer, "token-not-found")
    case VerifyContextMismatch => Refuse(policy, TokenContextMismatch, answer, "token-context-mismatch")
    case VerifyExpired => Refuse(policy, TokenExpired, answer, "token-expired")
    case VerifyConsumed => Some(Duplicate(policy, answer))
    case Invalid => Refuse(policy, DecisionFailedSafe, answer, "token-invalid")
  }

  function MapConsume(policy: TextPolicy, answer: Answer<ConsumeStatus>): Decision {
    match answer.status
    case Consumed =>
      Decide(policy, TokenConsumed, true, true, false, NotReplay,
             Or(answer.reasonCode, "token-consumed-after-permission"))
    case AlreadyConsumed => Duplicate(policy, answer)
    case ConsumeConflict =>
      Decide(policy, TokenConsumeConflict, false, false, Or(answer.retryable, true), ConflictSafe,
             Or(answer.reasonCode, "token-consume-conflict-safe"))
    case ConsumeNotFound => Refuse(policy, TokenNotFound, answer, "token-not-found").value
    case ConsumeContextMismatch => Refuse(policy, TokenContextMismatch, answer, "token-context-mismatch").value
    case ConsumeExpired => Refuse(policy, TokenExpired, answer, "token-expired").value
    case FailedSafe => Refuse(policy, DecisionFailedSafe, answer, "token-consume-failed-safe").value
  }

  function AckFor(d: Decision): AckText {
    if d.replayStatus == DuplicateSafe then AlreadyProcessed
    else if d.status in {DecisionPermissionDenied, DecisionBindingDisabled, DecisionBindingNotFound} then NotAllowed
    else if d.status == TokenExpired then ActionExpired
    else if d.status in {DecisionInvalidPayload, DecisionFailedSafe, TokenConsumeConflict} then CouldNotProcess
    else Processing
  }

  // ----- the pieces between awaits -----

  datatype Phase =
    | AskPermission
    | AskVerify(tokenRef: string)
    | AskConsume(tokenRef: string)
    | Done(outcome: Outcome)

  function Finish(d: Decision): Phase {
    Done(Decided(d, AckFor(d)))
  }

  function Start(policy: TextPolicy, payload: Payload): Phase {
    if payload.InvalidPayload? then
      Finish(Decide(policy, DecisionInvalidPayload, false, false, false, NotReplay, "invalid-callback-data-redacted"))
    else AskPermission
  }

  function AfterPermission(policy: TextPolicy, payload: Payload, reply: Reply<Answer<PermissionStatus>>): Phase {
    match reply
    case Thrown => Done(SafeError)
    case Value(answer) =>
      var refused := MapPermission(policy, answer);
      if refused.Some? then Finish(refused.value)
      else if payload.TokenRef? then AskVerify(payload.tokenRef)
      else
        Finish(Decide(policy, AcknowledgedOnly, false, true, false, NotReplay, "safe-action-ref-acknowledged"))
  }

  function AfterVerify(policy: TextPolicy, tokenRef: string, reply: Reply<Answer<VerifyStatus>>): Phase {
    match reply
    case Thrown => Done(SafeError)
    case Value(answer) =>
      var refused := MapVerify(policy, answer);
      if refused.Some? then Finish(refused.value) else AskConsume(tokenRef)
  }

  function AfterConsume(policy: TextPolicy, reply: Reply<Answer<ConsumeStatus>>): Phase {
    match reply
    case Thrown => Done(SafeError)
    case Value(answer) => Finish(MapConsume(policy, answer))
  }
}
