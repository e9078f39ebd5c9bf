/** What a delivery attempt keeps under any sequence of acknowledgements and business results. */
module DeliveryAttemptRuns {
  import opened Common
  import opened DeliveryAttempts
  import K = IdempotencyKeys

  // ----- records that are their own normal form -----

  ghost predicate FixedRef(text: string, prefix: string) {
    PrefixedRef(Text(text), prefix) == Some(text)
  }

  ghost predicate FixedTime(policy: Policy, text: string) {
    Timestamp(policy, Text(text)) == Some(text)
  }

  ghost predicate FixedAckRef(ref: Option<string>) {
    ref.Some? ==> FixedRef(ref.value, "provider-acknowledgement:")
  }

  ghost predicate IdentityOk(a: Attempt) {
    && FixedRef(a.attemptRef, "delivery-attempt:") && OperationRef(Text(a.deliveryRef)) == Some(a.deliveryRef)
    && K.IsKey(a.idempotencyKey) && 1 <= a.attemptNumber <= K.MAX_SAFE_INTEGER
    && FixedRef(a.targetRef, "delivery-target:")
    && (a.correlationRef.Some? ==> CorrelationRef(Text(a.correlationRef.value)) == a.correlationRef)
  }

  ghost predicate WellFormed(policy: Policy, a: Attempt) {
    && IdentityOk(a) && FixedAckRef(a.ackRef)
    && FixedTime(policy, a.createdAt) && FixedTime(policy, a.updatedAt)
    && SafeRecord(policy, a) == Some(a)
  }

  lemma ExecutionReadsBack(e: Execution)
    ensures ReadExecution(Text(ExecutionText(e))) == Some(e)
  {
    assert ExecutionText(BusinessFailed)[0] == 'b' && ExecutionText(ProviderFailed)[0] == 'p';
  }

  lemma BusinessReadsBack(b: Business)
    ensures ReadBusiness(Text(BusinessText(b))) == Some(b)
  {}

  lemma RetryReadsBack(r: Retry)
    ensures ReadRetry(Text(RetryText(r))) == Some(r)
  {}

  ghost predicate Readable(policy: Policy, a: Attempt) {
    && PrefixedRef(Text(a.attemptRef), "delivery-attempt:").Some? && OperationRef(Text(a.deliveryRef)).Some?
    && K.IsKey(a.idempotencyKey) && 1 <= a.attemptNumber <= K.MAX_SAFE_INTEGER
    && PrefixedRef(Text(a.targetRef), "delivery-target:").Some?
    && Maybe(OrUndefined(a.ackRef), AckRef).Some? && Maybe(OrUndefined(a.correlationRef), CorrelationRef).Some?
    && Timestamp(policy, Text(a.createdAt)).Some? && Timestamp(policy, Text(a.updatedAt)).Some?
  }

  ghost function Reread(policy: Policy, a: Attempt): Attempt
    requires Readable(policy, a)
  {
    a.(attemptRef := PrefixedRef(Text(a.attemptRef), "delivery-attempt:").value,
       deliveryRef := OperationRef(Text(a.deliveryRef)).value,
       targetRef := PrefixedRef(Text(a.targetRef), "delivery-target:").value,
       ackRef := Maybe(OrUndefined(a.ackRef), AckRef).value,
       correlationRef := Maybe(OrUndefined(a.correlationRef), CorrelationRef).value,
       createdAt := Timestamp(policy, Text(a.createdAt)).value,
       updatedAt := Timestamp(policy, Text(a.updatedAt)).value)
  }

  /** Reading a stored record back: every field read again, then the safe-record check. */
  lemma NormalizeOfStore(policy: Policy, a: Attempt)
    ensures Normalize(policy, Store(a)) == if Readable(policy, a) then SafeRecord(policy, Reread(policy, a)) else None
  {
    hide PrefixedRef, OperationRef, Timestamp, Maybe, SafeRecord, ReadExecution, ReadBusiness, ReadRetry, ExecutionText,
         BusinessText, RetryText, OrUndefined, K.IsKey;
    ExecutionReadsBack(a.execution);
    BusinessReadsBack(a.business);
    RetryReadsBack(a.retry);
  }

  lemma SafeRecordKeepsFields(policy: Policy, a: Attempt)
    requires SafeRecord(policy, a).Some?
    ensures var s := SafeRecord(policy, a).value;
            s == a.(contentFormat := s.contentFormat, ackStatus := s.ackStatus) &&
            Cloned(policy, a.contentFormat) == Some(s.contentFormat) && Cloned(policy, a.ackStatus) == Some(s.ackStatus) &&
            AllowedTexts(policy, a)
  {
    hide Cloned, AllowedTexts;
  }

  lemma MaybeFixed(ref: Option<string>, read: Raw -> Option<string>)
    ensures Maybe(OrUndefined(ref), read) == Some(ref) <==> (ref.Some? ==> read(Text(ref.value)) == ref)
  {}

  lemma RereadFixesExactly(policy: Policy, a: Attempt)
    ensures Readable(policy, a) && Reread(policy, a) == a <==>
            IdentityOk(a) && FixedAckRef(a.ackRef) && FixedTime(policy, a.createdAt) && FixedTime(policy, a.updatedAt)
  {
    MaybeFixed(a.ackRef, AckRef);
    MaybeFixed(a.correlationRef, CorrelationRef);
    hide PrefixedRef, OperationRef, CorrelationRef, Timestamp, Maybe, K.IsKey, OrUndefined;
  }

  lemma SafeRecordOfReread(policy: Policy, a: Attempt)
    requires Readable(policy, a) && SafeRecord(policy, Reread(policy, a)) == Some(a)
    ensures Reread(policy, a) == a
  {
    SafeRecordKeepsFields(policy, Reread(policy, a));
    hide PrefixedRef, OperationRef, CorrelationRef, Timestamp, Maybe, K.IsKey, OrUndefined, SafeRecord, Readable;
  }

  /** The normaliser leaves a record alone exactly when every part of it is its own normal form. */
  lemma FixedExactlyWhenWellFormed(policy: Policy, a: Attempt)
    ensures Normalize(policy, Store(a)) == Some(a) <==> WellFormed(policy, a)
  {
    hide Normalize, Store, Readable, Reread, SafeRecord, IdentityOk, FixedAckRef, FixedTime;
    NormalizeOfStore(policy, a);
    RereadFixesExactly(policy, a);
    if Readable(policy, a) && SafeRecord(policy, Reread(policy, a)) == Some(a) {
      SafeRecordOfReread(policy, a);
    }
  }

  // ----- coherence -----

  /** The statuses agree: with each other, with the acknowledgement, and with the retry decision. */
  ghost predicate Coherent(a: Attempt) {
    && (a.execution == BusinessSucceeded <==> a.business == MarkedDelivered)
    && (a.execution == BusinessFailed <==> a.business == MarkedFailed)
    && (a.execution == ProviderAcknowledged ==> a.ackStatus == Text("accepted"))
    && (a.execution == ProviderFailed ==> a.ackStatus in {Text("rejected"), Text("failed")})
    && (a.ackStatus == Undefined || ReadAckStatus(a.ackStatus).Some?)
    && (a.ackStatus != Undefined ==> a.ackRef.Some?)
    && (a.execution == Reserved ==> a.ackRef.None? && a.retry == RetryNotEvaluated && a.updatedAt == a.createdAt)
    && a.contentFormat in {Text("plain"), Text("markdown"), Text("html")}
  }

  ghost predicate SameIdentity(a: Attempt, b: Attempt) {
    b == a.(execution := b.execution, ackRef := b.ackRef, ackStatus := b.ackStatus, business := b.business,
            retry := b.retry, updatedAt := b.updatedAt)
  }

  // ----- what creation gives -----

  lemma PrefixedIsFixed(value: Raw, prefix: string)
    requires PrefixedRef(value, prefix).Some?
    ensures FixedRef(PrefixedRef(value, prefix).value, prefix)
  {
    var body := TrimText(value.text[|prefix|..]);
    TrimIsIdempotent(IsSpaceChar, value.text[|prefix|..]);
    assert TrimText(body) == body;
    hide SafeValue, TrimText;
    assert (prefix + body)[|prefix|..] == body;
  }

  lemma TimestampIsFixed(policy: Policy, value: Raw)
    requires Timestamp(policy, value).Some?
    ensures FixedTime(policy, Timestamp(policy, value).value)
  {
    hide TrimText;
  }

  lemma ParsedIsFixed(value: Raw)
    ensures OperationRef(value).Some? ==> OperationRef(Text(OperationRef(value).value)) == OperationRef(value)
    ensures CorrelationRef(value).Some? ==> CorrelationRef(Text(CorrelationRef(value).value)) == CorrelationRef(value)
    ensures AckRef(value).Some? ==> FixedRef(AckRef(value).value, "provider-acknowledgement:")
  {
    hide SafeValue;
    if AckRef(value).Some? {
      PrefixedIsFixed(value, "provider-acknowledgement:");
    }
  }

  lemma PlainTextIsKept(policy: Policy, a: Attempt)
    requires !a.contentFormat.Foreign? && !a.ackStatus.Foreign? && SafeRecord(policy, a).Some?
    ensures SafeRecord(policy, a) == Some(a)
  {
    hide AllowedTexts;
  }

  /** A created record is reserved, coherent and its own normal form. */
  lemma CreatedIsWellFormed(policy: Policy, input: CreateInput)
    requires Create(policy, input).Some?
    ensures var a := Create(policy, input).value; WellFormed(policy, a) && Coherent(a) && a.execution == Reserved
  {
    hide PrefixedRef, K.IsKey, K.AttemptRef, Timestamp, SafeRecord, SafeValue;
    var key := Key(input.idempotencyKey).value;
    var delivery := OperationRef(input.deliveryRef).value;
    ParsedIsFixed(input.deliveryRef);
    ParsedIsFixed(input.correlationRef);
    TimestampIsFixed(policy, input.createdAt);
    var attemptRef := AttemptRefOr(input.attemptRef, key);
    if !input.attemptRef.Undefined? && !input.attemptRef.Null? {
      PrefixedIsFixed(input.attemptRef, "delivery-attempt:");
    } else {
      PrefixedIsFixed(Text(K.AttemptRef(key).value), "delivery-attempt:");
    }
    PrefixedIsFixed(Text("delivery-target:" + delivery[10..] + ".target"), "delivery-target:");
    var a := Attempt(
      attemptRef.value, delivery, key, AttemptNumber(input.attemptNumber).value, TargetRef(delivery).value,
      input.contentFormat, input.hasActionButtons, Reserved, None, Undefined, NotEvaluated, RetryNotEvaluated,
      Maybe(input.correlationRef, CorrelationRef).value, Timestamp(policy, input.createdAt).value,
      Timestamp(policy, input.createdAt).value);
    hide AttemptRefOr, TargetRef, OperationRef, FixedRef, FixedTime;
    assert SafeRecord(policy, a).Some?;
    PlainTextIsKept(policy, a);
  }

  // ----- what an update needs and keeps -----

  lemma AckTextIsKept(status: AckStatus)
    ensures ReadAckStatus(Text(AckText(status))) == Some(status)
  {
    assert |AckText(status)| == 6 <==> status == AckFailed;
    assert AckText(Accepted)[0] == 'a' && AckText(Rejected)[0] == 'r';
  }

  lemma AcknowledgedIs(policy: Policy, a: Attempt, ack: Ack)
    requires WellFormed(policy, a) && Acknowledge(policy, a, ack).Some?
    ensures Acknowledge(policy, a, ack).value == a.(
              execution := if ack.status == Accepted then ProviderAcknowledged else ProviderFailed,
              ackRef := Some(ack.ackRef), ackStatus := Text(AckText(ack.status)), retry := ack.retry,
              business := NotEvaluated, updatedAt := ack.recordedAt)
    ensures SafeRecord(policy, Acknowledge(policy, a, ack).value) == Acknowledge(policy, a, ack)
  {
    hide AckText, AllowedTexts, IdentityOk, FixedAckRef, FixedTime;
  }

  /** An acknowledged record is its own normal form exactly when the acknowledgement's ref and time are. */
  lemma AcknowledgedFixedExactly(policy: Policy, a: Attempt, ack: Ack)
    requires WellFormed(policy, a) && Acknowledge(policy, a, ack).Some?
    ensures var b := Acknowledge(policy, a, ack).value;
            Normalize(policy, Store(b)) == Some(b) <==>
            FixedRef(ack.ackRef, "provider-acknowledgement:") && FixedTime(policy, ack.recordedAt)
  {
    AcknowledgedIs(policy, a, ack);
    var b := Acknowledge(policy, a, ack).value;
    FixedExactlyWhenWellFormed(policy, b);
    hide Normalize, Store, SafeRecord, FixedRef, FixedTime, OperationRef, CorrelationRef, K.IsKey, Acknowledge;
  }

  lemma ConcludedIs(policy: Policy, a: Attempt, r: BusinessResult)
    requires WellFormed(policy, a) && Conclude(policy, a, r).Some?
    ensures Conclude(policy, a, r).value == a.(
              execution := if r.delivered then BusinessSucceeded else BusinessFailed,
              ackRef := if r.ackRef.Some? then r.ackRef else a.ackRef,
              business := if r.delivered then MarkedDelivered else MarkedFailed, retry := r.retry, updatedAt := r.recordedAt)
    ensures SafeRecord(policy, Conclude(policy, a, r).value) == Conclude(policy, a, r)
  {
    hide AllowedTexts, IdentityOk, FixedAckRef, FixedTime;
  }

  lemma ConcludedFixedExactly(policy: Policy, a: Attempt, r: BusinessResult)
    requires WellFormed(policy, a) && Conclude(policy, a, r).Some?
    ensures var b := Conclude(policy, a, r).value;
            Normalize(policy, Store(b)) == Some(b) <==> FixedAckRef(r.ackRef) && FixedTime(policy, r.recordedAt)
  {
    ConcludedIs(policy, a, r);
    var b := Conclude(policy, a, r).value;
    FixedExactlyWhenWellFormed(policy, b);
    hide Normalize, Store, SafeRecord, FixedRef, FixedTime, OperationRef, CorrelationRef, K.IsKey, Conclude;
  }

  // ----- acknowledgements and results that came through their own constructors -----

  lemma AckIsFixed(policy: Policy, attemptRef: Raw, key: Raw, given: Raw, recordedAt: Raw, result: DeliveryResult)
    requires CreateAck(policy, attemptRef, key, given, recordedAt, result).Some?
    ensures var ack := CreateAck(policy, attemptRef, key, given, recordedAt, result).value;
            FixedRef(ack.ackRef, "provider-acknowledgement:") && FixedTime(policy, ack.recordedAt)
  {
    hide PrefixedRef, OperationRef, FixedRef, FixedTime, K.IsKey;
    var attempt := PrefixedRef(attemptRef, "delivery-attempt:").value;
    TimestampIsFixed(policy, recordedAt);
    hide Timestamp;
    if !given.Undefined? && !given.Null? {
      ParsedIsFixed(given);
    } else {
      PrefixLength(attemptRef);
      ParsedIsFixed(Text("provider-acknowledgement:" + attempt[17..]));
    }
    hide AckRef;
  }

  lemma PrefixLength(attemptRef: Raw)
    requires PrefixedRef(attemptRef, "delivery-attempt:").Some?
    ensures |PrefixedRef(attemptRef, "delivery-attempt:").value| >= 17
  {}

  lemma BusinessResultIsFixed(policy: Policy, attemptRef: Raw, deliveryRef: Raw, key: Raw, status: Raw, ackRef: Raw,
                              retry: Raw, recordedAt: Raw)
    requires CreateBusinessResult(policy, attemptRef, deliveryRef, key, status, ackRef, retry, recordedAt).Some?
    ensures var r := CreateBusinessResult(policy, attemptRef, deliveryRef, key, status, ackRef, retry, recordedAt).value;
            && FixedAckRef(r.ackRef) && FixedTime(policy, r.recordedAt)
            && (r.shouldRetry <==> !r.delivered && r.retry == Eligible)
  {
    hide PrefixedRef, OperationRef, FixedRef, FixedTime, K.IsKey, ReadRetry;
    TimestampIsFixed(policy, recordedAt);
    ParsedIsFixed(ackRef);
    hide Timestamp, AckRef;
  }

  // ----- when an update is made, and what it says -----

  ghost predicate AckStated(a: Attempt, ack: Ack) {
    && (a.execution == ProviderAcknowledged <==> ack.status == Accepted)
    && (a.execution == ProviderFailed <==> ack.status in {Rejected, AckFailed})
    && a.ackStatus == Text(match ack.status case Accepted => "accepted"
                                         case Rejected => "rejected"
                                         case AckFailed => "failed")
    && a.ackRef == Some(ack.ackRef) && a.business == NotEvaluated && a.retry == ack.retry && a.updatedAt == ack.recordedAt
  }

  ghost predicate ResultStated(a: Attempt, r: BusinessResult) {
    && (r.delivered ==> a.execution == BusinessSucceeded && a.business == MarkedDelivered)
    && (!r.delivered ==> a.execution == BusinessFailed && a.business == MarkedFailed)
    && (r.ackRef.Some? ==> a.ackRef == r.ackRef) && a.retry == r.retry && a.updatedAt == r.recordedAt
  }

  /** An update is made exactly when it is for this attempt and delivery and its texts are allowed. */
  lemma UpdatesExactly(policy: Policy, a: Attempt, ack: Ack, r: BusinessResult)
    requires Coherent(a) && SafeRecord(policy, a).Some?
    ensures Acknowledge(policy, a, ack).Some? <==>
            && ack.attemptRef == a.attemptRef && ack.deliveryRef == a.deliveryRef
            && Allowed(policy, ack.ackRef) && Allowed(policy, ack.recordedAt) && Allowed(policy, AckText(ack.status))
    ensures Conclude(policy, a, r).Some? <==>
            && r.attemptRef == a.attemptRef && r.deliveryRef == a.deliveryRef
            && AllowedIf(policy, r.ackRef) && Allowed(policy, r.recordedAt)
    ensures Acknowledge(policy, a, ack).Some? ==> AckStated(Acknowledge(policy, a, ack).value, ack)
    ensures Conclude(policy, a, r).Some? ==>
              && ResultStated(Conclude(policy, a, r).value, r)
              && (r.ackRef.None? ==> Conclude(policy, a, r).value.ackRef == a.ackRef)
  {
    hide Allowed;
    assert !a.contentFormat.Foreign? && !a.ackStatus.Foreign?;
  }

  // ----- runs -----

  datatype Event = Acknowledged(ack: Ack) | Concluded(result: BusinessResult)

  ghost predicate EventOk(policy: Policy, e: Event) {
    match e
    case Acknowledged(ack) => FixedRef(ack.ackRef, "provider-acknowledgement:") && FixedTime(policy, ack.recordedAt)
    case Concluded(r) => FixedAckRef(r.ackRef) && FixedTime(policy, r.recordedAt)
  }

  /** An update that throws leaves the record as it was. */
  function Apply(policy: Policy, a: Attempt, e: Event): Attempt {
    var next := match e case Acknowledged(ack) => Acknowledge(policy, a, ack) case Concluded(r) => Conclude(policy, a, r);
    if next.Some? then next.value else a
  }

  function Run(policy: Policy, a: Attempt, events: seq<Event>): Attempt
    decreases |events|
  {
    if events == [] then a else Run(policy, Apply(policy, a, events[0]), events[1..])
  }

  /** The safe-record check changes no coherent record. */
  lemma SafeRecordKeepsCoherent(policy: Policy, b: Attempt)
    requires SafeRecord(policy, b).Some? && Coherent(b)
    ensures SafeRecord(policy, b).value == b
  {
    assert !b.contentFormat.Foreign? && !b.ackStatus.Foreign?;
    hide SafeRecord, ReadAckStatus;
    PlainTextIsKept(policy, b);
  }

  lemma AcknowledgeKeeps(policy: Policy, a: Attempt, ack: Ack)
    requires Coherent(a) && Acknowledge(policy, a, ack).Some?
    ensures var b := Acknowledge(policy, a, ack).value; Coherent(b) && SameIdentity(a, b)
  {
    AckTextIsKept(ack.status);
    hide SafeRecord, ReadAckStatus;
    SafeRecordKeepsCoherent(policy, a.(
      execution := if ack.status == Accepted then ProviderAcknowledged else ProviderFailed,
      ackRef := Some(ack.ackRef), ackStatus := Text(AckText(ack.status)), retry := ack.retry,
      business := NotEvaluated, updatedAt := ack.recordedAt));
  }

  lemma ConcludeKeeps(policy: Policy, a: Attempt, r: BusinessResult)
    requires Coherent(a) && Conclude(policy, a, r).Some?
    ensures var b := Conclude(policy, a, r).value; Coherent(b) && SameIdentity(a, b)
  {
    hide SafeRecord, ReadAckStatus;
    SafeRecordKeepsCoherent(policy, a.(
      execution := if r.delivered then BusinessSucceeded else BusinessFailed,
      ackRef := if r.ackRef.Some? then r.ackRef else a.ackRef,
      business := if r.delivered then MarkedDelivered else MarkedFailed, retry := r.retry, updatedAt := r.recordedAt));
  }

  /** One update keeps identity and coherence, whatever it carries. */
  lemma ApplyKeeps(policy: Policy, a: Attempt, e: Event)
    requires Coherent(a)
    ensures var b := Apply(policy, a, e); Coherent(b) && SameIdentity(a, b)
  {
    hide Coherent, Acknowledge, Conclude;
    match e
    case Acknowledged(ack) =>
      if Acknowledge(policy, a, ack).Some? {
        AcknowledgeKeeps(policy, a, ack);
      }
    case Concluded(r) =>
      if Conclude(policy, a, r).Some? {
        ConcludeKeeps(policy, a, r);
      }
  }

  lemma ApplyKeepsNormal(policy: Policy, a: Attempt, e: Event)
    requires WellFormed(policy, a) && EventOk(policy, e)
    ensures WellFormed(policy, Apply(policy, a, e))
  {
    hide WellFormed, Acknowledge, Conclude, Normalize, Store, FixedRef, FixedTime, FixedAckRef;
    match e
    case Acknowledged(ack) =>
      if Acknowledge(policy, a, ack).Some? {
        AcknowledgedFixedExactly(policy, a, ack);
        FixedExactlyWhenWellFormed(policy, Acknowledge(policy, a, ack).value);
      }
    case Concluded(r) =>
      if Conclude(policy, a, r).Some? {
        ConcludedFixedExactly(policy, a, r);
        FixedExactlyWhenWellFormed(policy, Conclude(policy, a, r).value);
      }
  }

  /** Identity and coherence survive every sequence of updates. */
  lemma {:induction false} RunKeeps(policy: Policy, a: Attempt, events: seq<Event>)
    requires Coherent(a)
    ensures var b := Run(policy, a, events); Coherent(b) && SameIdentity(a, b)
    decreases |events|
  {
    hide Coherent, Apply;
    if events != [] {
      ApplyKeeps(policy, a, events[0]);
      RunKeeps(policy, Apply(policy, a, events[0]), events[1..]);
    }
  }

  /** The last update of a run that was made. */
  function LastMade(policy: Policy, a: Attempt, events: seq<Event>): Option<Event>
    decreases |events|
  {
    if events == [] then None
    else
      var next := match events[0]
                  case Acknowledged(ack) => Acknowledge(policy, a, ack)
                  case Concluded(r) => Conclude(policy, a, r);
      var later := LastMade(policy, Apply(policy, a, events[0]), events[1..]);
      if later.Some? then later else if next.Some? then Some(events[0]) else None
  }

  /** After any run a record says what the last update said, or is what it was. */
  lemma {:induction false} RunStatesTheLast(policy: Policy, a: Attempt, events: seq<Event>)
    requires Coherent(a) && SafeRecord(policy, a).Some?
    ensures var b := Run(policy, a, events);
            match LastMade(policy, a, events)
            case None => b == a
            case Some(Acknowledged(ack)) => AckStated(b, ack) && Acknowledged(ack) in events
            case Some(Concluded(r)) => ResultStated(b, r) && Concluded(r) in events
    decreases |events|
  {
    hide Coherent, SafeRecord, AckStated, ResultStated, Acknowledge, Conclude;
    if events != [] {
      var next := Apply(policy, a, events[0]);
      ApplyKeeps(policy, a, events[0]);
      ApplyStates(policy, a, events[0]);
      RunStatesTheLast(policy, next, events[1..]);
    }
  }

  lemma ApplyStates(policy: Policy, a: Attempt, e: Event)
    requires Coherent(a) && SafeRecord(policy, a).Some?
    ensures SafeRecord(policy, Apply(policy, a, e)).Some?
    ensures match e
            case Acknowledged(ack) => Acknowledge(policy, a, ack).Some? ==> AckStated(Apply(policy, a, e), ack)
            case Concluded(r) => Conclude(policy, a, r).Some? ==> ResultStated(Apply(policy, a, e), r)
  {
    hide AckStated, ResultStated, Coherent, SafeRecord;
    match e
    case Acknowledged(ack) =>
      if Acknowledge(policy, a, ack).Some? {
        AnyResult(policy, a, ack);
        MadeIsSafe(policy, a, e);
      }
    case Concluded(r) =>
      if Conclude(policy, a, r).Some? {
        AnyAck(policy, a, r);
        MadeIsSafe(policy, a, e);
      }
  }

  lemma AnyResult(policy: Policy, a: Attempt, ack: Ack)
    requires Coherent(a) && SafeRecord(policy, a).Some? && Acknowledge(policy, a, ack).Some?
    ensures AckStated(Acknowledge(policy, a, ack).value, ack)
  {
    UpdatesExactly(policy, a, ack, BusinessResult("", "", "", true, None, Eligible, false, ""));
  }

  lemma AnyAck(policy: Policy, a: Attempt, r: BusinessResult)
    requires Coherent(a) && SafeRecord(policy, a).Some? && Conclude(policy, a, r).Some?
    ensures ResultStated(Conclude(policy, a, r).value, r)
  {
    UpdatesExactly(policy, a, Ack("", "", "", "", Accepted, Eligible, ""), r);
  }

  lemma MadeIsSafe(policy: Policy, a: Attempt, e: Event)
    requires Coherent(a) && SafeRecord(policy, a).Some?
    ensures SafeRecord(policy, Apply(policy, a, e)).Some?
  {
    hide Allowed;
    ApplyKeeps(policy, a, e);
  }

  /** The normal form survives updates whose refs and times are normal. */
  lemma {:induction false} RunKeepsNormal(policy: Policy, a: Attempt, events: seq<Event>)
    requires WellFormed(policy, a) && forall i | 0 <= i < |events| :: EventOk(policy, events[i])
    ensures WellFormed(policy, Run(policy, a, events))
    decreases |events|
  {
    hide WellFormed, EventOk, Apply;
    if events != [] {
      ApplyKeepsNormal(policy, a, events[0]);
      RunKeepsNormal(policy, Apply(policy, a, events[0]), events[1..]);
    }
  }

  /** The life of a created attempt, whatever acknowledgements and results arrive, in whatever order. */
  lemma CreatedRunKeeps(policy: Policy, input: CreateInput, events: seq<Event>)
    requires Create(policy, input).Some?
    ensures var a := Create(policy, input).value;
            var b := Run(policy, a, events);
            && SameIdentity(a, b) && Coherent(b)
            && ((forall i | 0 <= i < |events| :: EventOk(policy, events[i])) ==> Normalize(policy, Store(b)) == Some(b))
  {
    CreatedIsWellFormed(policy, input);
    hide Create, WellFormed, Coherent, EventOk, Run, Normalize, Store;
    var a := Create(policy, input).value;
    RunKeeps(policy, a, events);
    if forall i | 0 <= i < |events| :: EventOk(policy, events[i]) {
      RunKeepsNormal(policy, a, events);
      FixedExactlyWhenWellFormed(policy, Run(policy, a, events));
    }
  }
}
