/**
 The outcome of one callback as a function of its answers, the table of what each outcome means, and the
 proof that interleaving never changes it: a finished call in any run has exactly that outcome.
 */
module CallbackOutcome {
  import opened Common
  import opened CallbackBoundary
  import opened CallbackProtocol

  /** One call run to its end; an answer that is never asked for does not matter. */
  function Process(text: TextPolicy, payload: Payload, permission: Reply<Answer<PermissionStatus>>,
                   verify: Reply<Answer<VerifyStatus>>, consume: Reply<Answer<ConsumeStatus>>): Outcome {
    match Start(text, payload)
    case Done(outcome) => outcome
    case _ =>
      match AfterPermission(text, payload, permission)
      case Done(outcome) => outcome
      case AskVerify(t) => (
        match AfterVerify(text, t, verify)
        case Done(outcome) => outcome
        case _ => match AfterConsume(text, consume) case Done(outcome) => outcome case _ => SafeError)
      case _ => SafeError
  }

  predicate Answered<S(==)>(reply: Reply<Answer<S>>, status: S) {
    reply.Value? && reply.value.status == status
  }

  /** The boundary got as far as verifying. */
  predicate Verifies(payload: Payload, permission: Reply<Answer<PermissionStatus>>) {
    payload.TokenRef? && Answered(permission, PermissionAllowed)
  }

  /** The boundary got as far as consuming. */
  predicate Consumes(payload: Payload, permission: Reply<Answer<PermissionStatus>>, verify: Reply<Answer<VerifyStatus>>) {
    Verifies(payload, permission) && Answered(verify, Valid)
  }

  predicate Replayed(payload: Payload, permission: Reply<Answer<PermissionStatus>>, verify: Reply<Answer<VerifyStatus>>,
                     consume: Reply<Answer<ConsumeStatus>>) {
    || (Verifies(payload, permission) && Answered(verify, VerifyConsumed))
    || (Consumes(payload, permission, verify) && Answered(consume, AlreadyConsumed))
  }

  /** A port that was asked threw. */
  predicate Broke(payload: Payload, permission: Reply<Answer<PermissionStatus>>, verify: Reply<Answer<VerifyStatus>>,
                  consume: Reply<Answer<ConsumeStatus>>) {
    !payload.InvalidPayload? &&
    (permission.Thrown? || (Verifies(payload, permission) && verify.Thrown?) ||
     (Consumes(payload, permission, verify) && consume.Thrown?))
  }

  /** What the user is told, and what may be tried again. */
  ghost predicate Tells(d: Decision, ack: AckText, replayed: bool) {
    && (d.businessAccepted ==> ack == Processing)
    && (ack == AlreadyProcessed <==> replayed)
    && (ack == ActionExpired <==> d.status == TokenExpired)
    && (ack == NotAllowed <==> d.status in {DecisionPermissionDenied, DecisionBindingNotFound, DecisionBindingDisabled})
    && (ack == CouldNotProcess <==> d.status in {DecisionInvalidPayload, DecisionFailedSafe, TokenConsumeConflict})
    && (d.businessAccepted || replayed ==> !d.retryable)
  }

  /** Statuses that are decided before the token is looked at. */
  ghost predicate EarlyStatuses(s: DecisionStatus, payload: Payload, permission: Reply<Answer<PermissionStatus>>) {
    var asked := !payload.InvalidPayload?;
    && (s == DecisionInvalidPayload <==> payload.InvalidPayload?)
    && (s == DecisionPermissionDenied <==> asked && Answered(permission, PermissionDenied))
    && (s == DecisionBindingNotFound <==> asked && Answered(permission, BindingNotFound))
    && (s == DecisionBindingDisabled <==> asked && Answered(permission, BindingDisabled))
    && (s == AcknowledgedOnly <==> payload.ActionRef? && Answered(permission, PermissionAllowed))
  }

  /** Statuses that the two token answers decide. */
  ghost predicate TokenStatuses(s: DecisionStatus, verifies: bool, verify: Reply<Answer<VerifyStatus>>,
                                consumes: bool, consume: Reply<Answer<ConsumeStatus>>) {
    && (s == TokenNotFound <==>
          (verifies && Answered(verify, VerifyNotFound)) || (consumes && Answered(consume, ConsumeNotFound)))
    && (s == TokenContextMismatch <==>
          (verifies && Answered(verify, VerifyContextMismatch)) || (consumes && Answered(consume, ConsumeContextMismatch)))
    && (s == TokenExpired <==>
          (verifies && Answered(verify, VerifyExpired)) || (consumes && Answered(consume, ConsumeExpired)))
    && (s == TokenConsumeConflict <==> consumes && Answered(consume, ConsumeConflict))
    && (s == DecisionFailedSafe <==>
          (verifies && Answered(verify, Invalid)) || (consumes && Answered(consume, FailedSafe)))
    && (s == TokenConsumed <==>
          (verifies && Answered(verify, VerifyConsumed)) || (consumes && Answered(consume, AlreadyConsumed)) ||
          (consumes && Answered(consume, Consumed)))
  }

  /** What a decision claims, and what the user is told. */
  ghost predicate Claims(d: Decision, ack: AckText, replayed: bool, consumes: bool, consume: Reply<Answer<ConsumeStatus>>) {
    && (d.tokenConsumed <==> consumes && Answered(consume, Consumed))
    && (d.businessAccepted <==> d.tokenConsumed || d.status == AcknowledgedOnly)
    && (d.replayStatus == DuplicateSafe <==> replayed)
    && (d.replayStatus == ConflictSafe <==> d.status == TokenConsumeConflict)
    && Tells(d, ack, replayed)
    && (d.status == TokenConsumeConflict ==> consume.Value? && d.retryable == Or(consume.value.retryable, true))
  }

  /** The answers that a decision stands for, and what it claims. */
  ghost predicate StandsFor(d: Decision, ack: AckText, payload: Payload, permission: Reply<Answer<PermissionStatus>>,
                            verify: Reply<Answer<VerifyStatus>>, consume: Reply<Answer<ConsumeStatus>>) {
    var verifies, consumes := Verifies(payload, permission), Consumes(payload, permission, verify);
    && EarlyStatuses(d.status, payload, permission)
    && TokenStatuses(d.status, verifies, verify, consumes, consume)
    && Claims(d, ack, Replayed(payload, permission, verify, consume), consumes, consume)
  }

  lemma PermissionDecision(text: TextPolicy, answer: Answer<PermissionStatus>)
    requires answer.status != PermissionAllowed
    ensures MapPermission(text, answer).Some?
    ensures var d := MapPermission(text, answer).value;
            && d.status == (match answer.status
                            case PermissionDenied => DecisionPermissionDenied
                            case BindingNotFound => DecisionBindingNotFound
                            case BindingDisabled => DecisionBindingDisabled)
            && !d.tokenConsumed && !d.businessAccepted && d.replayStatus == NotReplay && Tells(d, AckFor(d), false)
  {
    hide SafeOptionalRef, StatusText;
  }

  /** The reason code is the ref that the port's reason spells, or the given one when the port gives none. */
  ghost predicate Reasons(text: TextPolicy, d: Decision, reason: Option<string>, given: string) {
    forall ref | Spells(text, Or(reason, given), ref) :: d.reasonCode == ref
  }

  lemma ReasonIsSpelt(text: TextPolicy, s: DecisionStatus, consumed: bool, accepted: bool, retryable: bool,
                      replay: ReplayStatus, reason: Option<string>, given: string)
    ensures Reasons(text, Decide(text, s, consumed, accepted, retryable, replay, Or(reason, given)), reason, given)
  {
    hide SafeOptionalRef, Spells, StatusText;
    forall ref | Spells(text, Or(reason, given), ref)
      ensures SafeOptionalRef(text, Or(reason, given)) == Some(ref)
    {
      SpellsExactly(text, Or(reason, given), ref);
    }
  }

  /** Reason and retry of a refused permission. */
  lemma PermissionReasons(text: TextPolicy, answer: Answer<PermissionStatus>)
    requires answer.status != PermissionAllowed
    ensures MapPermission(text, answer).Some?
    ensures var d := MapPermission(text, answer).value;
            && d.retryable == (answer.retryable == Some(true))
            && Reasons(text, d, answer.reasonCode,
                       match answer.status case PermissionDenied => "actor-not-authorized"
                                           case BindingNotFound => "binding-not-found"
                                           case BindingDisabled => "binding-disabled")
  {
    hide Decide, Reasons;
    RefusedIs(text, DecisionPermissionDenied, answer, "actor-not-authorized");
    RefusedIs(text, DecisionBindingNotFound, answer, "binding-not-found");
    RefusedIs(text, DecisionBindingDisabled, answer, "binding-disabled");
  }

  lemma RefusedIs<S>(text: TextPolicy, status: DecisionStatus, answer: Answer<S>, given: string)
    ensures Refuse(text, status, answer, given).Some?
    ensures var d := Refuse(text, status, answer, given).value;
            d.retryable == (answer.retryable == Some(true)) && Reasons(text, d, answer.reasonCode, given)
  {
    hide Reasons, SafeOptionalRef, StatusText;
    ReasonIsSpelt(text, status, false, false, Or(answer.retryable, false), NotReplay, answer.reasonCode, given);
  }

  lemma DuplicateIs<S>(text: TextPolicy, answer: Answer<S>)
    ensures var d := Duplicate(text, answer);
            !d.retryable && Reasons(text, d, answer.reasonCode, "duplicate-callback-replay-safe")
  {
    hide Reasons, SafeOptionalRef, StatusText;
    ReasonIsSpelt(text, TokenConsumed, false, false, false, DuplicateSafe, answer.reasonCode,
                  "duplicate-callback-replay-safe");
  }

  lemma VerifyReasons(text: TextPolicy, answer: Answer<VerifyStatus>)
    requires answer.status != Valid
    ensures MapVerify(text, answer).Some?
    ensures var d := MapVerify(text, answer).value;
            && d.retryable == (answer.status != VerifyConsumed && answer.retryable == Some(true))
            && Reasons(text, d, answer.reasonCode,
                       match answer.status case VerifyNotFound => "token-not-found"
                                           case VerifyContextMismatch => "token-context-mismatch"
                                           case VerifyExpired => "token-expired"
                                           case VerifyConsumed => "duplicate-callback-replay-safe"
                                           case Invalid => "token-invalid")
  {
    hide Decide, Reasons, Refuse, Duplicate;
    RefusedIs(text, TokenNotFound, answer, "token-not-found");
    RefusedIs(text, TokenContextMismatch, answer, "token-context-mismatch");
    RefusedIs(text, TokenExpired, answer, "token-expired");
    DuplicateIs(text, answer);
    RefusedIs(text, DecisionFailedSafe, answer, "token-invalid");
  }

  /** Only a consume conflict may be tried again by default. */
  lemma ConsumeReasons(text: TextPolicy, answer: Answer<ConsumeStatus>)
    ensures var d := MapConsume(text, answer);
            && d.retryable == (match answer.status
                               case Consumed | AlreadyConsumed => false
                               case ConsumeConflict => answer.retryable != Some(false)
                               case _ => answer.retryable == Some(true))
            && Reasons(text, d, answer.reasonCode,
                       match answer.status case Consumed => "token-consumed-after-permission"
                                           case AlreadyConsumed => "duplicate-callback-replay-safe"
                                           case ConsumeConflict => "token-consume-conflict-safe"
                                           case ConsumeNotFound => "token-not-found"
                                           case ConsumeContextMismatch => "token-context-mismatch"
                                           case ConsumeExpired => "token-expired"
                                           case FailedSafe => "token-consume-failed-safe")
  {
    hide Reasons, Refuse, Duplicate, SafeOptionalRef, StatusText;
    ReasonIsSpelt(text, TokenConsumed, true, true, false, NotReplay, answer.reasonCode, "token-consumed-after-permission");
    ReasonIsSpelt(text, TokenConsumeConflict, false, false, Or(answer.retryable, true), ConflictSafe, answer.reasonCode,
                  "token-consume-conflict-safe");
    DuplicateIs(text, answer);
    RefusedIs(text, TokenNotFound, answer, "token-not-found");
    RefusedIs(text, TokenContextMismatch, answer, "token-context-mismatch");
    RefusedIs(text, TokenExpired, answer, "token-expired");
    RefusedIs(text, DecisionFailedSafe, answer, "token-consume-failed-safe");
  }

  /** Reasons of the two decisions that no port gives. */
  lemma FixedReasons(text: TextPolicy, payload: Payload, permission: Reply<Answer<PermissionStatus>>,
                     verify: Reply<Answer<VerifyStatus>>, consume: Reply<Answer<ConsumeStatus>>)
    ensures var o := Process(text, payload, permission, verify, consume);
            && (payload.InvalidPayload? ==>
                  o.Decided? && Reasons(text, o.decision, None, "invalid-callback-data-redacted"))
            && (payload.ActionRef? && Answered(permission, PermissionAllowed) ==>
                  o.Decided? && Reasons(text, o.decision, None, "safe-action-ref-acknowledged"))
  {
    hide Reasons, SafeOptionalRef, StatusText;
    ReasonIsSpelt(text, DecisionInvalidPayload, false, false, false, NotReplay, None, "invalid-callback-data-redacted");
    ReasonIsSpelt(text, AcknowledgedOnly, false, true, false, NotReplay, None, "safe-action-ref-acknowledged");
  }

  lemma FixedDecisions(text: TextPolicy, reason: string)
    ensures var d := Decide(text, DecisionInvalidPayload, false, false, false, NotReplay, reason); Tells(d, AckFor(d), false)
    ensures var d := Decide(text, AcknowledgedOnly, false, true, false, NotReplay, reason); Tells(d, AckFor(d), false)
  {
    hide SafeOptionalRef, StatusText;
  }

  lemma EndsInvalid(text: TextPolicy, payload: Payload, permission: Reply<Answer<PermissionStatus>>,
                    verify: Reply<Answer<VerifyStatus>>, consume: Reply<Answer<ConsumeStatus>>)
    requires payload.InvalidPayload?
    ensures var o := Process(text, payload, permission, verify, consume);
            o.Decided? && StandsFor(o.decision, o.ack, payload, permission, verify, consume)
  {
    hide SafeOptionalRef, StatusText, MapPermission, MapVerify, MapConsume, AckFor, Tells;
    FixedDecisions(text, "invalid-callback-data-redacted");
  }

  lemma EndsAcknowledged(text: TextPolicy, payload: Payload, permission: Reply<Answer<PermissionStatus>>,
                         verify: Reply<Answer<VerifyStatus>>, consume: Reply<Answer<ConsumeStatus>>)
    requires payload.ActionRef? && Answered(permission, PermissionAllowed)
    ensures var o := Process(text, payload, permission, verify, consume);
            o.Decided? && StandsFor(o.decision, o.ack, payload, permission, verify, consume)
  {
    assert MapPermission(text, permission.value).None?;
    hide SafeOptionalRef, StatusText, MapPermission, MapVerify, MapConsume, AckFor, Tells;
    FixedDecisions(text, "safe-action-ref-acknowledged");
  }

  lemma EndsRefused(text: TextPolicy, payload: Payload, permission: Reply<Answer<PermissionStatus>>,
                    verify: Reply<Answer<VerifyStatus>>, consume: Reply<Answer<ConsumeStatus>>)
    requires !payload.InvalidPayload? && permission.Value? && permission.value.status != PermissionAllowed
    ensures var o := Process(text, payload, permission, verify, consume);
            o.Decided? && StandsFor(o.decision, o.ack, payload, permission, verify, consume)
  {
    hide SafeOptionalRef, StatusText, MapPermission, MapVerify, MapConsume, AckFor, Tells;
    PermissionDecision(text, permission.value);
  }

  /** At each place where a callback can end, its decision fits its answers. */
  lemma EndsBeforeVerify(text: TextPolicy, payload: Payload, permission: Reply<Answer<PermissionStatus>>,
                         verify: Reply<Answer<VerifyStatus>>, consume: Reply<Answer<ConsumeStatus>>)
    requires !Verifies(payload, permission)
    ensures var o := Process(text, payload, permission, verify, consume);
            && (o.SafeError? <==> !payload.InvalidPayload? && permission.Thrown?)
            && (o.Decided? ==> StandsFor(o.decision, o.ack, payload, permission, verify, consume))
  {
    hide StandsFor, MapPermission, MapVerify, MapConsume, AckFor, Decide;
    if payload.InvalidPayload? {
      EndsInvalid(text, payload, permission, verify, consume);
    } else if permission.Value? && permission.value.status != PermissionAllowed {
      EndsRefused(text, payload, permission, verify, consume);
    } else if permission.Value? {
      EndsAcknowledged(text, payload, permission, verify, consume);
    }
  }

  lemma VerifyGoesOn(text: TextPolicy, payload: Payload, permission: Reply<Answer<PermissionStatus>>,
                     verify: Reply<Answer<VerifyStatus>>, consume: Reply<Answer<ConsumeStatus>>)
    requires Verifies(payload, permission)
    ensures var next := AfterVerify(text, payload.tokenRef, verify);
            Process(text, payload, permission, verify, consume) ==
            if next.Done? then next.outcome
            else if AfterConsume(text, consume).Done? then AfterConsume(text, consume).outcome
            else SafeError
  {
    hide SafeOptionalRef, StatusText, MapVerify, MapConsume;
  }

  lemma VerifyDecision(text: TextPolicy, answer: Answer<VerifyStatus>)
    requires answer.status != Valid
    ensures MapVerify(text, answer).Some?
    ensures var d := MapVerify(text, answer).value;
            && d.status == (match answer.status
                            case VerifyNotFound => TokenNotFound
                            case VerifyContextMismatch => TokenContextMismatch
                            case VerifyExpired => TokenExpired
                            case VerifyConsumed => TokenConsumed
                            case Invalid => DecisionFailedSafe)
            && !d.tokenConsumed && !d.businessAccepted
            && d.replayStatus == (if answer.status == VerifyConsumed then DuplicateSafe else NotReplay)
            && Tells(d, AckFor(d), answer.status == VerifyConsumed)
  {
    hide SafeOptionalRef, StatusText;
  }

  lemma ConsumeDecision(text: TextPolicy, answer: Answer<ConsumeStatus>)
    ensures var d := MapConsume(text, answer);
            && d.status == ConsumeStatusOf(answer)
            && (d.tokenConsumed <==> answer.status == Consumed) && (d.businessAccepted <==> answer.status == Consumed)
            && d.replayStatus == (match answer.status case AlreadyConsumed => DuplicateSafe
                                                      case ConsumeConflict => ConflictSafe
                                                      case _ => NotReplay)
            && Tells(d, AckFor(d), answer.status == AlreadyConsumed)
            && (d.status == TokenConsumeConflict ==> d.retryable == Or(answer.retryable, true))
  {
    hide SafeOptionalRef, StatusText;
  }

  lemma EndsAtVerify(text: TextPolicy, payload: Payload, permission: Reply<Answer<PermissionStatus>>,
                     verify: Reply<Answer<VerifyStatus>>, consume: Reply<Answer<ConsumeStatus>>)
    requires Verifies(payload, permission) && !Answered(verify, Valid)
    ensures var next := AfterVerify(text, payload.tokenRef, verify);
            && next.Done? && (next.outcome.SafeError? <==> verify.Thrown?)
            && (next.outcome.Decided? ==>
                  StandsFor(next.outcome.decision, next.outcome.ack, payload, permission, verify, consume))
  {
    hide MapVerify, Tells, AckFor;
    if verify.Value? {
      VerifyDecision(text, verify.value);
    }
  }

  lemma EndsAtConsume(text: TextPolicy, payload: Payload, permission: Reply<Answer<PermissionStatus>>,
                      verify: Reply<Answer<VerifyStatus>>, consume: Reply<Answer<ConsumeStatus>>)
    requires Consumes(payload, permission, verify)
    ensures var next := AfterConsume(text, consume);
            && AfterVerify(text, payload.tokenRef, verify).AskConsume?
            && next.Done? && (next.outcome.SafeError? <==> consume.Thrown?)
            && (next.outcome.Decided? ==>
                  StandsFor(next.outcome.decision, next.outcome.ack, payload, permission, verify, consume))
  {
    assert MapVerify(text, verify.value).None?;
    hide MapConsume, MapVerify, AckFor, StandsFor;
    if consume.Value? {
      ConsumeStandsFor(text, payload, permission, verify, consume);
    }
  }

  lemma ConsumeStandsFor(text: TextPolicy, payload: Payload, permission: Reply<Answer<PermissionStatus>>,
                         verify: Reply<Answer<VerifyStatus>>, consume: Reply<Answer<ConsumeStatus>>)
    requires Consumes(payload, permission, verify) && consume.Value?
    ensures var d := MapConsume(text, consume.value); StandsFor(d, AckFor(d), payload, permission, verify, consume)
  {
    hide MapConsume, Tells, AckFor, EarlyStatuses, TokenStatuses, Claims;
    ConsumeDecision(text, consume.value);
    var d := MapConsume(text, consume.value);
    assert EarlyStatuses(d.status, payload, permission) by { ConsumeIsLate(d.status, payload, permission, consume.value); }
    ConsumeStatuses(d.status, verify, consume);
    ConsumeClaims(text, consume);
  }

  /** The statuses that a consume answer can lead to. */
  function ConsumeStatusOf(answer: Answer<ConsumeStatus>): DecisionStatus {
    match answer.status
    case Consumed | AlreadyConsumed => TokenConsumed
    case ConsumeConflict => TokenConsumeConflict
    case ConsumeNotFound => TokenNotFound
    case ConsumeContextMismatch => TokenContextMismatch
    case ConsumeExpired => TokenExpired
    case FailedSafe => DecisionFailedSafe
  }

  lemma ConsumeIsLate(s: DecisionStatus, payload: Payload, permission: Reply<Answer<PermissionStatus>>,
                      answer: Answer<ConsumeStatus>)
    requires Verifies(payload, permission) && s == ConsumeStatusOf(answer)
    ensures EarlyStatuses(s, payload, permission)
  {}

  lemma ConsumeStatuses(s: DecisionStatus, verify: Reply<Answer<VerifyStatus>>, consume: Reply<Answer<ConsumeStatus>>)
    requires Answered(verify, Valid) && consume.Value? && s == ConsumeStatusOf(consume.value)
    ensures TokenStatuses(s, true, verify, true, consume)
  {}

  lemma ConsumeClaims(text: TextPolicy, consume: Reply<Answer<ConsumeStatus>>)
    requires consume.Value?
    ensures var d := MapConsume(text, consume.value);
            Claims(d, AckFor(d), consume.value.status == AlreadyConsumed, true, consume)
  {
    hide MapConsume, Tells, AckFor;
    ConsumeDecision(text, consume.value);
  }

  /** Every outcome, with the answers it stands for: in both directions. */
  lemma OutcomeTable(text: TextPolicy, payload: Payload, permission: Reply<Answer<PermissionStatus>>,
                     verify: Reply<Answer<VerifyStatus>>, consume: Reply<Answer<ConsumeStatus>>)
    ensures var o := Process(text, payload, permission, verify, consume);
            && (o.SafeError? <==> Broke(payload, permission, verify, consume))
            && (o.Decided? ==> StandsFor(o.decision, o.ack, payload, permission, verify, consume))
  {
    hide Process, StandsFor, AfterVerify, AfterConsume;
    if !Verifies(payload, permission) {
      EndsBeforeVerify(text, payload, permission, verify, consume);
    } else {
      VerifyGoesOn(text, payload, permission, verify, consume);
      if Consumes(payload, permission, verify) {
        EndsAtConsume(text, payload, permission, verify, consume);
      } else {
        EndsAtVerify(text, payload, permission, verify, consume);
      }
    }
  }

  // ----- interleaving -----

  function OrThrown<S>(reply: Option<Reply<Answer<S>>>): Reply<Answer<S>> {
    Or(reply, Thrown)
  }

  function OutcomeOf(text: TextPolicy, c: Call): Outcome {
    Process(text, ParseCallbackData(text, c.data), OrThrown(c.permission), OrThrown(c.verify), OrThrown(c.consume))
  }

  /** The phase of a call is where its own answers have led it. */
  ghost predicate Explained(text: TextPolicy, c: Call) {
    match c.phase
    case AskPermission => Start(text, c.payload) == AskPermission
    case AskVerify(t) => LedToVerify(text, c, t)
    case AskConsume(t) => LedToVerify(text, c, t) && c.verify.Some? && AfterVerify(text, t, c.verify.value) == AskConsume(t)
    case Done(outcome) =>
      outcome == Process(text, c.payload, OrThrown(c.permission), OrThrown(c.verify), OrThrown(c.consume))
  }

  ghost predicate LedToVerify(text: TextPolicy, c: Call, t: string) {
    && Start(text, c.payload) == AskPermission && c.permission.Some?
    && AfterPermission(text, c.payload, c.permission.value) == AskVerify(t)
  }

  ghost predicate AllExplained(text: TextPolicy, w: World) {
    forall i | 0 <= i < |w.calls| :: Explained(text, w.calls[i])
  }

  lemma ServedIsExplained(text: TextPolicy, c: Call, d: Call)
    requires Explained(text, c) && d.phase == c.phase && d.payload == c.payload
    requires c.phase.AskPermission?
          || (c.phase.AskVerify? && d.permission == c.permission)
          || (c.phase.AskConsume? && d.permission == c.permission && d.verify == c.verify)
    ensures Explained(text, d)
  {
    hide Start, AfterPermission, AfterVerify, AfterConsume;
  }

  lemma AfterPermissionIs(text: TextPolicy, payload: Payload, reply: Reply<Answer<PermissionStatus>>)
    ensures AfterPermission(text, payload, reply).Done? || AfterPermission(text, payload, reply).AskVerify?
  {
    hide SafeOptionalRef, StatusText;
  }

  lemma AfterVerifyIs(text: TextPolicy, t: string, reply: Reply<Answer<VerifyStatus>>)
    ensures AfterVerify(text, t, reply).Done? || AfterVerify(text, t, reply) == AskConsume(t)
  {
    hide SafeOptionalRef, StatusText;
  }

  lemma AfterConsumeIs(text: TextPolicy, reply: Reply<Answer<ConsumeStatus>>)
    ensures AfterConsume(text, reply).Done?
  {
    hide SafeOptionalRef, StatusText;
  }

  lemma StartIs(text: TextPolicy, payload: Payload)
    ensures Start(text, payload).Done? || Start(text, payload).AskPermission?
  {
    hide SafeOptionalRef, StatusText;
  }

  lemma ResumedIsExplained(p: Policies, w: World, w': World, i: nat)
    requires Delivers(p, w, w', i) && Explained(p.text, w.calls[i])
    ensures Explained(p.text, w'.calls[i])
  {
    hide Start, AfterPermission, AfterVerify, AfterConsume;
    var c := w.calls[i];
    if c.phase.AskPermission? {
      AfterPermissionIs(p.text, c.payload, c.permission.value);
    } else if c.phase.AskVerify? {
      AfterVerifyIs(p.text, c.phase.tokenRef, c.verify.value);
    } else {
      AfterConsumeIs(p.text, c.consume.value);
    }
  }

  lemma NewIsExplained(text: TextPolicy, data: CallbackData, payload: Payload)
    ensures Explained(text, Call(data, payload, Start(text, payload), None, None, None))
  {
    hide Start, AfterPermission, AfterVerify, AfterConsume;
    StartIs(text, payload);
  }

  /** Only the addressed call changes in a step, or a new one is added. */
  lemma StepExplains(p: Policies, w: World, e: Event, w': World)
    requires AllExplained(p.text, w) && Step(p, w, e, w')
    ensures AllExplained(p.text, w')
  {
    hide RecordStep, Explained, ParseCallbackData, Start, AfterPermission, AfterVerify, AfterConsume;
    match e
    case Arrival =>
      var data :| var payload := ParseCallbackData(p.text, data);
                  w' == World(w.tokens, w.calls + [Call(data, payload, Start(p.text, payload), None, None, None)]);
      NewIsExplained(p.text, data, ParseCallbackData(p.text, data));
    case PermissionServed(i) => ServedIsExplained(p.text, w.calls[i], w'.calls[i]);
    case VerifyServed(i) => ServedIsExplained(p.text, w.calls[i], w'.calls[i]);
    case ConsumeServed(i) => ServedIsExplained(p.text, w.calls[i], w'.calls[i]);
    case Delivery(i) => ResumedIsExplained(p, w, w', i);
    case Elsewhere(t) =>
  }

  /** However calls interleave, a finished call's outcome is that of the data it came with and its own answers. */
  lemma {:induction false} FinishedAsProcessed(p: Policies, worlds: seq<World>, events: seq<Event>, k: nat)
    requires IsRun(p, worlds, events) && k < |worlds|
    ensures AllExplained(p.text, worlds[k])
    ensures forall i | 0 <= i < |worlds[k].calls| && worlds[k].calls[i].phase.Done? ::
              worlds[k].calls[i].phase.outcome == OutcomeOf(p.text, worlds[k].calls[i])
  {
    hide Step, Process, ParseCallbackData;
    RunReads(p, worlds, events, k);
    if k > 0 {
      FinishedAsProcessed(p, worlds, events, k - 1);
      StepExplains(p, worlds[k - 1], events[k - 1], worlds[k]);
    }
    forall i | 0 <= i < |worlds[k].calls| && worlds[k].calls[i].phase.Done?
      ensures worlds[k].calls[i].phase.outcome == OutcomeOf(p.text, worlds[k].calls[i])
    {
      assert Explained(p.text, worlds[k].calls[i]);
    }
  }
}
