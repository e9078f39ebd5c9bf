/**
 Delivery attempt records: creating them, updating them with acknowledgements and business results, and
 the normaliser that reads them back.  `None` stands for a thrown error.
 */
module DeliveryAttempts {
  import opened Common
  import K = IdempotencyKeys

  const MAX_REF_VALUE := 256
  const DEFAULT_TIMESTAMP := "1970-01-01T00:00:00.000Z"

  /** Any JavaScript value; `Foreign` is whatever is not spelled out. */
  datatype Raw = Undefined | Null | Text(text: string) | Number(amount: int) | Flag(flag: bool) | Foreign(id: nat)

  /** Date.parse, the forbidden-term pattern, and what a JSON round trip with its checks makes of a foreign value. */
  datatype Policy = Policy(isDate: string -> bool, forbidden: string -> bool, clone: nat -> Option<Raw>)

  datatype Execution = Reserved | ProviderAcknowledged | ProviderFailed | BusinessSucceeded | BusinessFailed

  datatype Business = NotEvaluated | MarkedDelivered | MarkedFailed

  datatype Retry = RetryNotEvaluated | Eligible | NotEligible

  datatype AckStatus = Accepted | Rejected | AckFailed

  /** `contentFormat` and `ackStatus` are kept as they are found: the normaliser does not check them. */
  datatype Attempt = Attempt(
    attemptRef: string, deliveryRef: string, idempotencyKey: string, attemptNumber: int,
    targetRef: string, contentFormat: Raw, hasActionButtons: bool,
    execution: Execution, ackRef: Option<string>, ackStatus: Raw, business: Business, retry: Retry,
    correlationRef: Option<string>, createdAt: string, updatedAt: string)

  datatype Ack = Ack(
    ackRef: string, attemptRef: string, deliveryRef: string, idempotencyKey: string,
    status: AckStatus, retry: Retry, recordedAt: string)

  datatype BusinessResult = BusinessResult(
    attemptRef: string, deliveryRef: string, idempotencyKey: string, delivered: bool,
    ackRef: Option<string>, retry: Retry, shouldRetry: bool, recordedAt: string)

  // ----- field normalisation -----

  predicate SafeValue(v: string) {
    0 < |v| <= MAX_REF_VALUE &&
    forall i | 0 <= i < |v| :: K.SafeChar(v[i])
  }

  function PrefixedRef(value: Raw, prefix: string): Option<string> {
    if !value.Text? || !(prefix <= value.text) then None
    else
      var body := TrimText(value.text[|prefix|..]);
      if SafeValue(body) then Some(prefix + body) else None
  }

  /** A parsed adapter ref of this kind: unlike the refs above it is not trimmed. */
  function ParsedRef(value: Raw, prefix: string): Option<string> {
    if value.Text? && prefix <= value.text && SafeValue(value.text[|prefix|..]) then Some(value.text) else None
  }

  function Timestamp(policy: Policy, value: Raw): Option<string> {
    var given := if value.Undefined? || value.Null? then Text(DEFAULT_TIMESTAMP) else value;
    if !given.Text? || TrimText(given.text) != given.text || !policy.isDate(given.text) then None else Some(given.text)
  }

  function AttemptNumber(value: Raw): Option<int> {
    var given := if value.Undefined? || value.Null? then Number(1) else value;
    if given.Number? && 1 <= given.amount <= K.MAX_SAFE_INTEGER then Some(given.amount) else None
  }

  function Key(value: Raw): Option<string> {
    if value.Text? && K.IsKey(value.text) then Some(value.text) else None
  }

  function Maybe(value: Raw, read: Raw -> Option<string>): Option<Option<string>> {
    if value.Undefined? then Some(None)
    else if read(value).Some? then Some(read(value))
    else None
  }

  function RetryText(r: Retry): string {
    match r
    case RetryNotEvaluated => "not-evaluated"
    case Eligible => "eligible"
    case NotEligible => "not-eligible"
  }

  function ReadRetry(value: Raw): Option<Retry> {
    if value.Undefined? then Some(RetryNotEvaluated)
    else if value == Text("not-evaluated") then Some(RetryNotEvaluated)
    else if value == Text("eligible") then Some(Eligible)
    else if value == Text("not-eligible") then Some(NotEligible)
    else None
  }

  function ExecutionText(e: Execution): string {
    match e
    case Reserved => "reserved"
    case ProviderAcknowledged => "provider-acknowledged"
    case ProviderFailed => "provider-failed"
    case BusinessSucceeded => "business-succeeded"
    case BusinessFailed => "business-failed"
  }

  function ReadExecution(value: Raw): Option<Execution> {
    if value == Text("reserved") then Some(Reserved)
    else if value == Text("provider-acknowledged") then Some(ProviderAcknowledged)
    else if value == Text("provider-failed") then Some(ProviderFailed)
    else if value == Text("business-succeeded") then Some(BusinessSucceeded)
    else if value == Text("business-failed") then Some(BusinessFailed)
    else None
  }

  function BusinessText(b: Business): string {
    match b
    case NotEvaluated => "not-evaluated"
    case MarkedDelivered => "marked-delivered"
    case MarkedFailed => "marked-failed"
  }

  function ReadBusiness(value: Raw): Option<Business> {
    if value == Text("not-evaluated") then Some(NotEvaluated)
    else if value == Text("marked-delivered") then Some(MarkedDelivered)
    else if value == Text("marked-failed") then Some(MarkedFailed)
    else None
  }

  function AckText(s: AckStatus): string {
    match s
    case Accepted => "accepted"
    case Rejected => "rejected"
    case AckFailed => "failed"
  }

  function ReadAckStatus(value: Raw): Option<AckStatus> {
    if value == Text("accepted") then Some(Accepted)
    else if value == Text("rejected") then Some(Rejected)
    else if value == Text("failed") then Some(AckFailed)
    else None
  }

  // ----- the safe-record check: a JSON round trip that refuses forbidden text -----

  predicate Allowed(policy: Policy, text: string) {
    !policy.forbidden(text)
  }

  predicate AllowedIf(policy: Policy, text: Option<string>) {
    text.Some? ==> Allowed(policy, text.value)
  }

  /** What the round trip keeps of an unchecked value. */
  function Cloned(policy: Policy, value: Raw): Option<Raw> {
    match value
    case Text(t) => if Allowed(policy, t) then Some(value) else None
    case Foreign(id) => policy.clone(id)
    case _ => Some(value)
  }

  predicate AllowedTexts(policy: Policy, a: Attempt) {
    && Allowed(policy, a.attemptRef) && Allowed(policy, a.deliveryRef) && Allowed(policy, a.idempotencyKey)
    && Allowed(policy, a.targetRef) && AllowedIf(policy, a.ackRef) && AllowedIf(policy, a.correlationRef)
    && Allowed(policy, a.createdAt) && Allowed(policy, a.updatedAt)
  }

  function SafeRecord(policy: Policy, a: Attempt): Option<Attempt> {
    match (Cloned(policy, a.contentFormat), Cloned(policy, a.ackStatus))
    case (Some(format), Some(status)) =>
      if AllowedTexts(policy, a) then Some(a.(contentFormat := format, ackStatus := status)) else None
    case _ => None
  }

  // ----- creating -----

  /** `targetOk` says that the request's target passes the external-message check. */
  datatype CreateInput = CreateInput(
    idempotencyKey: Raw, deliveryRef: Raw, attemptRef: Raw, attemptNumber: Raw, correlationRef: Raw, createdAt: Raw,
    targetOk: bool, contentFormat: Raw, hasActionButtons: bool)

  function OperationRef(value: Raw): Option<string> {
    ParsedRef(value, "operation:")
  }

  function CorrelationRef(value: Raw): Option<string> {
    ParsedRef(value, "correlation:")
  }

  function AckRef(value: Raw): Option<string> {
    PrefixedRef(value, "provider-acknowledgement:")
  }

  function AttemptRefOr(given: Raw, key: string): Option<string> {
    if !given.Undefined? && !given.Null? then PrefixedRef(given, "delivery-attempt:")
    else if K.AttemptRef(key).Some? then PrefixedRef(Text(K.AttemptRef(key).value), "delivery-attempt:")
    else None
  }

  function TargetRef(deliveryRef: string): Option<string>
    requires |deliveryRef| >= 10
  {
    PrefixedRef(Text("delivery-target:" + deliveryRef[10..] + ".target"), "delivery-target:")
  }

  function Create(policy: Policy, input: CreateInput): Option<Attempt> {
    match (Key(input.idempotencyKey), OperationRef(input.deliveryRef), Maybe(input.correlationRef, CorrelationRef),
           Timestamp(policy, input.createdAt), AttemptNumber(input.attemptNumber))
    case (Some(key), Some(delivery), Some(correlation), Some(created), Some(number)) =>
      var attemptRef := AttemptRefOr(input.attemptRef, key);
      var target := TargetRef(delivery);
      if attemptRef.None? || !input.targetOk || target.None? then None
      else if input.contentFormat !in {Text("plain"), Text("markdown"), Text("html")} then None
      else
        SafeRecord(policy, Attempt(
          attemptRef.value, delivery, key, number, target.value, input.contentFormat, input.hasActionButtons,
          Reserved, None, Undefined, NotEvaluated, RetryNotEvaluated, correlation, created, created))
    case _ => None
  }

  /** What a ref of the given prefix is read as, and when. */
  lemma PrefixedExactly(value: Raw, prefix: string, ref: string)
    ensures PrefixedRef(value, prefix) == Some(ref) <==>
            && value.Text? && prefix <= value.text
            && ref == prefix + TrimText(value.text[|prefix|..])
            && 0 < |ref| - |prefix| <= 256 && forall i | |prefix| <= i < |ref| :: K.SafeChar(ref[i])
  {
    hide TrimText, K.SafeChar;
    if value.Text? && prefix <= value.text {
      var body := TrimText(value.text[|prefix|..]);
      assert (prefix + body)[|prefix|..] == body;
      assert SafeValue(body) <==> 0 < |body| <= 256 && forall i | |prefix| <= i < |prefix + body| ::
                                    K.SafeChar((prefix + body)[i]) by {
        assert forall i | 0 <= i < |body| :: body[i] == (prefix + body)[|prefix| + i];
      }
    }
  }

  lemma TimestampExactly(policy: Policy, value: Raw, time: string)
    ensures Timestamp(policy, value) == Some(time) <==>
            && policy.isDate(time) && TrimText(time) == time
            && (value == Text(time) || (value in {Undefined, Null} && time == "1970-01-01T00:00:00.000Z"))
  {}

  lemma NumberExactly(value: Raw, n: int)
    ensures AttemptNumber(value) == Some(n) <==>
            1 <= n <= 0x1F_FFFF_FFFF_FFFF && (value == Number(n) || (value in {Undefined, Null} && n == 1))
  {}

  /** The two parsed refs: unlike the prefixed ones they are taken as they are. */
  lemma ParsedExactly(value: Raw, ref: string)
    ensures OperationRef(value) == Some(ref) <==>
            value == Text(ref) && "operation:" <= ref && SafeValue(ref[10..])
    ensures CorrelationRef(value) == Some(ref) <==>
            value == Text(ref) && "correlation:" <= ref && SafeValue(ref[12..])
  {
    hide SafeValue;
  }

  /** A created attempt, field by field: what was asked for, with the source's defaults. */
  lemma CreatedReads(policy: Policy, input: CreateInput)
    requires Create(policy, input).Some?
    ensures var a := Create(policy, input).value;
            && input.idempotencyKey == Text(a.idempotencyKey) && K.IsKey(a.idempotencyKey)
            && input.deliveryRef == Text(a.deliveryRef) && "operation:" < a.deliveryRef
            && a.targetRef == "delivery-target:" + TrimText(a.deliveryRef[10..] + ".target")
            && (a.correlationRef.Some? ==> input.correlationRef == Text(a.correlationRef.value) &&
                                           "correlation:" < a.correlationRef.value)
            && (a.correlationRef.None? ==> input.correlationRef == Undefined)
            && (input.attemptNumber == Number(a.attemptNumber) ||
                (input.attemptNumber in {Undefined, Null} && a.attemptNumber == 1))
            && input.contentFormat == a.contentFormat && a.contentFormat in {Text("plain"), Text("markdown"), Text("html")}
            && a.hasActionButtons == input.hasActionButtons && input.targetOk
            && (if input.attemptRef in {Undefined, Null}
                then PrefixedRef(Text(Or(K.AttemptRef(a.idempotencyKey), "")), "delivery-attempt:") == Some(a.attemptRef)
                else PrefixedRef(input.attemptRef, "delivery-attempt:") == Some(a.attemptRef))
            && Timestamp(policy, input.createdAt) == Some(a.createdAt) && a.updatedAt == a.createdAt
  {
    hide K.IsKey, K.AttemptRef, Timestamp, K.SafeChar, TrimText, AllowedTexts, AttemptRefOr, PrefixedRef;
    var a := Create(policy, input).value;
    assert OperationRef(input.deliveryRef) == Some(a.deliveryRef);
    AttemptRefReads(input.attemptRef, a.idempotencyKey);
    TargetReads(a.deliveryRef);
  }

  /** The attempt ref to be read: the given one, or the one derived from the key. */
  ghost function GivenAttemptRef(input: CreateInput): Raw
    requires input.idempotencyKey.Text?
  {
    if input.attemptRef in {Undefined, Null} then Text(Or(K.AttemptRef(input.idempotencyKey.text), ""))
    else input.attemptRef
  }

  /** Exactly when an attempt is created: every input is as required, and no text of the record is forbidden. */
  lemma CreatedWhen(policy: Policy, input: CreateInput)
    ensures Create(policy, input).Some? <==>
            && Key(input.idempotencyKey).Some? && OperationRef(input.deliveryRef).Some?
            && (input.correlationRef == Undefined ||
                (CorrelationRef(input.correlationRef).Some? && !policy.forbidden(input.correlationRef.text)))
            && Timestamp(policy, input.createdAt).Some? && AttemptNumber(input.attemptNumber).Some? && input.targetOk
            && input.contentFormat in {Text("plain"), Text("markdown"), Text("html")}
            && PrefixedRef(GivenAttemptRef(input), "delivery-attempt:").Some?
            && SafeValue(TrimText(input.deliveryRef.text[10..] + ".target"))
            && forall text | text in [
                 input.idempotencyKey.text, input.deliveryRef.text, input.contentFormat.text,
                 Timestamp(policy, input.createdAt).value, PrefixedRef(GivenAttemptRef(input), "delivery-attempt:").value,
                 "delivery-target:" + TrimText(input.deliveryRef.text[10..] + ".target")] :: !policy.forbidden(text)
  {
    hide K.IsKey, K.AttemptRef, Timestamp, SafeValue, TrimText, AttemptRefOr, PrefixedRef, TargetRef, AttemptNumber;
    if Key(input.idempotencyKey).Some? && OperationRef(input.deliveryRef).Some? {
      AttemptRefExists(input.attemptRef, input.idempotencyKey.text);
      TargetExists(input.deliveryRef.text);
      if TargetRef(input.deliveryRef.text).Some? {
        TargetReads(input.deliveryRef.text);
      }
      if AttemptRefOr(input.attemptRef, input.idempotencyKey.text).Some? {
        AttemptRefReads(input.attemptRef, input.idempotencyKey.text);
      }
    }
  }

  lemma AttemptRefExists(given: Raw, key: string)
    ensures AttemptRefOr(given, key).Some? <==>
            PrefixedRef(if given in {Undefined, Null} then Text(Or(K.AttemptRef(key), "")) else given,
                        "delivery-attempt:").Some?
  {
    hide K.AttemptRef, SafeValue, TrimText;
  }

  lemma TargetExists(deliveryRef: string)
    requires |deliveryRef| >= 10
    ensures TargetRef(deliveryRef).Some? <==> SafeValue(TrimText(deliveryRef[10..] + ".target"))
  {
    hide TrimText, SafeValue;
    assert ("delivery-target:" + deliveryRef[10..] + ".target")[16..] == deliveryRef[10..] + ".target";
  }

  lemma AttemptRefReads(given: Raw, key: string)
    requires AttemptRefOr(given, key).Some?
    ensures AttemptRefOr(given, key) ==
            PrefixedRef(if given in {Undefined, Null} then Text(Or(K.AttemptRef(key), "")) else given, "delivery-attempt:")
  {
    hide K.AttemptRef, PrefixedRef;
  }

  lemma TargetReads(deliveryRef: string)
    requires |deliveryRef| >= 10 && TargetRef(deliveryRef).Some?
    ensures TargetRef(deliveryRef).value == "delivery-target:" + TrimText(deliveryRef[10..] + ".target")
  {
    hide TrimText, SafeValue;
    assert ("delivery-target:" + deliveryRef[10..] + ".target")[16..] == deliveryRef[10..] + ".target";
  }

  // ----- updating -----

  function Acknowledge(policy: Policy, a: Attempt, ack: Ack): Option<Attempt> {
    if a.attemptRef != ack.attemptRef || a.deliveryRef != ack.deliveryRef then None
    else
      SafeRecord(policy, a.(
        execution := if ack.status == Accepted then ProviderAcknowledged else ProviderFailed,
        ackRef := Some(ack.ackRef), ackStatus := Text(AckText(ack.status)), retry := ack.retry,
        business := NotEvaluated, updatedAt := ack.recordedAt))
  }

  function Conclude(policy: Policy, a: Attempt, b: BusinessResult): Option<Attempt> {
    if a.attemptRef != b.attemptRef || a.deliveryRef != b.deliveryRef then None
    else
      SafeRecord(policy, a.(
        execution := if b.delivered then BusinessSucceeded else BusinessFailed,
        ackRef := if b.ackRef.Some? then b.ackRef else a.ackRef,
        business := if b.delivered then MarkedDelivered else MarkedFailed,
        retry := b.retry, updatedAt := b.recordedAt))
  }

  // ----- reading back -----

  /** A stored object: `isAttempt` says that version and kind are right, `request` is None when it is no object. */
  datatype Stored = Stored(
    isAttempt: bool, attemptRef: Raw, deliveryRef: Raw, idempotencyKey: Raw, attemptNumber: Raw,
    request: Option<StoredRequest>, execution: Raw, ackRef: Raw, ackStatus: Raw, business: Raw, retry: Raw,
    correlationRef: Raw, createdAt: Raw, updatedAt: Raw)

  datatype StoredRequest = StoredRequest(targetRef: Raw, contentFormat: Raw, hasActionButtons: Raw)

  function Normalize(policy: Policy, s: Stored): Option<Attempt> {
    if !s.isAttempt || s.request.None? then None
    else
      match (ReadExecution(s.execution), ReadBusiness(s.business), ReadRetry(s.retry), AttemptNumber(s.attemptNumber))
      case (Some(execution), Some(business), Some(retry), Some(number)) => (
        match (PrefixedRef(s.attemptRef, "delivery-attempt:"), OperationRef(s.deliveryRef), Key(s.idempotencyKey),
               PrefixedRef(s.request.value.targetRef, "delivery-target:"), Maybe(s.ackRef, AckRef),
               Maybe(s.correlationRef, CorrelationRef), Timestamp(policy, s.createdAt), Timestamp(policy, s.updatedAt))
        case (Some(attemptRef), Some(delivery), Some(key), Some(target), Some(ack), Some(correlation), Some(created),
              Some(updated)) =>
          SafeRecord(policy, Attempt(
            attemptRef, delivery, key, number, target, s.request.value.contentFormat,
            s.request.value.hasActionButtons == Flag(true), execution, ack, s.ackStatus, business, retry, correlation,
            created, updated))
        case _ => None)
      case _ => None
  }

  function OrUndefined(text: Option<string>): Raw {
    if text.Some? then Text(text.value) else Undefined
  }

  /** A record as the plain object it is. */
  function Store(a: Attempt): Stored {
    Stored(true, Text(a.attemptRef), Text(a.deliveryRef), Text(a.idempotencyKey), Number(a.attemptNumber),
           Some(StoredRequest(Text(a.targetRef), a.contentFormat, Flag(a.hasActionButtons))),
           Text(ExecutionText(a.execution)), OrUndefined(a.ackRef), a.ackStatus, Text(BusinessText(a.business)),
           Text(RetryText(a.retry)), OrUndefined(a.correlationRef), Text(a.createdAt), Text(a.updatedAt))
  }

  // ----- acknowledgements and business results -----

  /** `okay` of a delivery result; a failure carries whether the provider rejected it and two retry hints. */
  datatype DeliveryResult =
    | Success(deliveryRef: Raw, messageOk: bool)
    | Failure(deliveryRef: Raw, rejected: bool, retryable: Option<bool>, errorRetryable: Option<bool>)

  function AckRefOr(given: Raw, attemptRef: string): Option<string>
    requires |attemptRef| >= 17
  {
    if !given.Undefined? && !given.Null? then AckRef(given)
    else AckRef(Text("provider-acknowledgement:" + attemptRef[17..]))
  }

  function RetryHint(result: DeliveryResult): Retry
    requires result.Failure?
  {
    var retryable := if result.retryable.Some? then result.retryable else result.errorRetryable;
    if retryable == Some(true) then Eligible else NotEligible
  }

  function CreateAck(policy: Policy, attemptRef: Raw, key: Raw, given: Raw, recordedAt: Raw, result: DeliveryResult)
    : Option<Ack>
  {
    match (PrefixedRef(attemptRef, "delivery-attempt:"), Key(key), Timestamp(policy, recordedAt),
           OperationRef(result.deliveryRef))
    case (Some(attempt), Some(key), Some(at), Some(delivery)) =>
      var ref := AckRefOr(given, attempt);
      if ref.None? || (result.Success? && !result.messageOk) then None
      else
        SafeAck(policy,
          if result.Success? then Ack(ref.value, attempt, delivery, key, Accepted, NotEligible, at)
          else
            Ack(ref.value, attempt, delivery, key, if result.rejected then Rejected else AckFailed,
                RetryHint(result), at))
    case _ => None
  }

  function SafeAck(policy: Policy, a: Ack): Option<Ack> {
    if Allowed(policy, a.ackRef) && Allowed(policy, a.attemptRef) && Allowed(policy, a.deliveryRef) &&
       Allowed(policy, a.idempotencyKey) && Allowed(policy, a.recordedAt) then Some(a)
    else None
  }

  function CreateBusinessResult(policy: Policy, attemptRef: Raw, deliveryRef: Raw, key: Raw, status: Raw, ackRef: Raw,
                                retry: Raw, recordedAt: Raw): Option<BusinessResult> {
    match (PrefixedRef(attemptRef, "delivery-attempt:"), OperationRef(deliveryRef), Key(key), ReadBusiness(status),
           Maybe(ackRef, AckRef), ReadRetry(retry), Timestamp(policy, recordedAt))
    case (Some(attempt), Some(delivery), Some(key), Some(business), Some(ack), Some(retry), Some(at)) =>
      if business == NotEvaluated then None
      else
        var b := BusinessResult(attempt, delivery, key, business == MarkedDelivered, ack, retry,
                                business == MarkedFailed && retry == Eligible, at);
        if Allowed(policy, attempt) && Allowed(policy, delivery) && Allowed(policy, key) && AllowedIf(policy, ack) &&
           Allowed(policy, at) then Some(b)
        else None
    case _ => None
  }

  /** No text of a written record is forbidden. */
  lemma NothingForbidden(policy: Policy, a: Attempt)
    requires SafeRecord(policy, a).Some?
    ensures var b := SafeRecord(policy, a).value;
            && b == a.(contentFormat := b.contentFormat, ackStatus := b.ackStatus)
            && forall text | text in [b.attemptRef, b.deliveryRef, b.idempotencyKey, b.targetRef, b.createdAt, b.updatedAt,
                                      Or(b.ackRef, b.attemptRef), Or(b.correlationRef, b.attemptRef)] ::
                 !policy.forbidden(text)
  {}

  /** A created acknowledgement, field by field. */
  lemma AckReads(policy: Policy, attemptRef: Raw, key: Raw, given: Raw, recordedAt: Raw, result: DeliveryResult)
    requires CreateAck(policy, attemptRef, key, given, recordedAt, result).Some?
    ensures var ack := CreateAck(policy, attemptRef, key, given, recordedAt, result).value;
            && PrefixedRef(attemptRef, "delivery-attempt:") == Some(ack.attemptRef)
            && result.deliveryRef == Text(ack.deliveryRef) && "operation:" < ack.deliveryRef
            && key == Text(ack.idempotencyKey) && Timestamp(policy, recordedAt) == Some(ack.recordedAt)
            && (ack.status == Accepted <==> result.Success?)
            && (ack.status == Rejected <==> result.Failure? && result.rejected)
            && (ack.retry == Eligible <==>
                  result.Failure? && (result.retryable == Some(true) ||
                                      (result.retryable.None? && result.errorRetryable == Some(true))))
            && (ack.retry != Eligible ==> ack.retry == NotEligible)
            && (if given in {Undefined, Null}
                then ack.ackRef == "provider-acknowledgement:" + TrimText(ack.attemptRef[17..])
                else PrefixedRef(given, "provider-acknowledgement:") == Some(ack.ackRef))
  {
    hide K.IsKey, Timestamp, K.SafeChar, TrimText, AckRefOr;
    var ack := CreateAck(policy, attemptRef, key, given, recordedAt, result).value;
    AckRefReads(given, ack.attemptRef);
  }

  /** A created business result, field by field. */
  lemma BusinessReads(policy: Policy, attemptRef: Raw, deliveryRef: Raw, key: Raw, status: Raw, ackRef: Raw,
                      retry: Raw, recordedAt: Raw)
    requires CreateBusinessResult(policy, attemptRef, deliveryRef, key, status, ackRef, retry, recordedAt).Some?
    ensures var r := CreateBusinessResult(policy, attemptRef, deliveryRef, key, status, ackRef, retry, recordedAt).value;
            && PrefixedRef(attemptRef, "delivery-attempt:") == Some(r.attemptRef)
            && OperationRef(deliveryRef) == Some(r.deliveryRef) && key == Text(r.idempotencyKey)
            && Timestamp(policy, recordedAt) == Some(r.recordedAt)
            && status == Text(if r.delivered then "marked-delivered" else "marked-failed")
            && (if ackRef == Undefined then r.ackRef.None?
                else r.ackRef.Some? && PrefixedRef(ackRef, "provider-acknowledgement:") == r.ackRef)
            && (r.retry == Eligible <==> retry == Text("eligible"))
            && (r.retry == NotEligible <==> retry == Text("not-eligible"))
            && (r.shouldRetry <==> status == Text("marked-failed") && retry == Text("eligible"))
  {
    hide K.IsKey, Timestamp, PrefixedRef, OperationRef;
  }

  lemma AckRefReads(given: Raw, attemptRef: string)
    requires |attemptRef| >= 17 && AckRefOr(given, attemptRef).Some?
    ensures if given in {Undefined, Null}
            then AckRefOr(given, attemptRef).value == "provider-acknowledgement:" + TrimText(attemptRef[17..])
            else AckRefOr(given, attemptRef) == PrefixedRef(given, "provider-acknowledgement:")
  {
    hide TrimText, SafeValue;
    assert ("provider-acknowledgement:" + attemptRef[17..])[25..] == attemptRef[17..];
  }
}
