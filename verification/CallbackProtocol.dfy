/**
 Any number of callbacks processed at once, over shared token records.

 A step is one atomic event: a callback arrives, a port serves a pending request (the token port may
 change the record then), a served answer is delivered to the waiting call, or somebody else changes or
 issues a record.  Nothing is assumed about the answers except that the token port says `Consumed` only
 when it has just taken that token's record from verified to consumed.
 */
module CallbackProtocol {
  import opened Common
  import opened CallbackBoundary
  import T = TokenRecords

  /** One call: the data it came with, where it is, and the answers its own port requests were served, oldest first. */
  datatype Call = Call(
    data: CallbackData, payload: Payload, phase: Phase,
    permission: Option<Reply<Answer<PermissionStatus>>>,
    verify: Option<Reply<Answer<VerifyStatus>>>,
    consume: Option<Reply<Answer<ConsumeStatus>>>)

  datatype World = World(tokens: map<string, T.Record>, calls: seq<Call>)

  datatype Policies = Policies(text: TextPolicy, refs: T.RefPolicy)

  ghost predicate Initial(w: World) {
    w.calls == [] && forall t | t in w.tokens :: T.Coherent(w.tokens[t])
  }

  // ----- steps -----

  /** Record changes a token port (or anybody) may make: one transition, or none. */
  ghost predicate RecordStep(p: Policies, before: map<string, T.Record>, after: map<string, T.Record>, t: string) {
    || after == before
    || (t in before && exists mark :: T.Apply(p.refs, before[t], mark).Some? &&
                                      after == before[t := T.Apply(p.refs, before[t], mark).value])
  }

  ghost predicate Consumes(p: Policies, before: map<string, T.Record>, after: map<string, T.Record>, t: string) {
    t in before && before[t].status == T.Verified && t in after && after[t].status == T.Consumed
  }

  ghost predicate Arrives(p: Policies, w: World, w': World) {
    exists data ::
      var payload := ParseCallbackData(p.text, data);
      w' == World(w.tokens, w.calls + [Call(data, payload, Start(p.text, payload), None, None, None)])
  }

  ghost predicate ServesPermission(w: World, w': World, i: nat) {
    && i < |w.calls| && w.calls[i].phase.AskPermission? && w.calls[i].permission.None?
    && exists reply :: w' == World(w.tokens, w.calls[i := w.calls[i].(permission := Some(reply))])
  }

  ghost predicate ServesVerify(p: Policies, w: World, w': World, i: nat) {
    && i < |w.calls| && w.calls[i].phase.AskVerify? && w.calls[i].verify.None?
    && RecordStep(p, w.tokens, w'.tokens, w.calls[i].phase.tokenRef)
    && exists reply :: w'.calls == w.calls[i := w.calls[i].(verify := Some(reply))]
  }

  ghost predicate ServesConsume(p: Policies, w: World, w': World, i: nat) {
    && i < |w.calls| && w.calls[i].phase.AskConsume? && w.calls[i].consume.None?
    && var t := w.calls[i].phase.tokenRef;
    && RecordStep(p, w.tokens, w'.tokens, t)
    && exists reply ::
         && w'.calls == w.calls[i := w.calls[i].(consume := Some(reply))]
         && (SaysConsumed(reply) ==> Consumes(p, w.tokens, w'.tokens, t))
  }

  ghost predicate SaysConsumed(reply: Reply<Answer<ConsumeStatus>>) {
    reply.Value? && reply.value.status == Consumed
  }

  /** The waiting call resumes with the answer it was served. */
  ghost predicate Delivers(p: Policies, w: World, w': World, i: nat) {
    && i < |w.calls|
    && w'.tokens == w.tokens
    && var c := w.calls[i];
    || (c.phase.AskPermission? && c.permission.Some? &&
        w'.calls == w.calls[i := c.(phase := AfterPermission(p.text, c.payload, c.permission.value))])
    || (c.phase.AskVerify? && c.verify.Some? &&
        w'.calls == w.calls[i := c.(phase := AfterVerify(p.text, c.phase.tokenRef, c.verify.value))])
    || (c.phase.AskConsume? && c.consume.Some? &&
        w'.calls == w.calls[i := c.(phase := AfterConsume(p.text, c.consume.value))])
  }

  /** Somebody outside these calls moves a record, or issues a new one. */
  ghost predicate Outside(p: Policies, w: World, w': World, t: string) {
    && w'.calls == w.calls
    && (RecordStep(p, w.tokens, w'.tokens, t) ||
        (t !in w.tokens && exists input :: T.CreateIssued(p.refs, input).Some? &&
                                           w'.tokens == w.tokens[t := T.CreateIssued(p.refs, input).value]))
  }

  datatype Event = Arrival | PermissionServed(i: nat) | VerifyServed(i: nat) | ConsumeServed(i: nat)
                 | Delivery(i: nat) | Elsewhere(t: string)

  ghost predicate Step(p: Policies, w: World, e: Event, w': World) {
    match e
    case Arrival => Arrives(p, w, w')
    case PermissionServed(i) => ServesPermission(w, w', i)
    case VerifyServed(i) => ServesVerify(p, w, w', i)
    case ConsumeServed(i) => ServesConsume(p, w, w', i)
    case Delivery(i) => Delivers(p, w, w', i)
    case Elsewhere(t) => Outside(p, w, w', t)
  }

  ghost predicate IsRun(p: Policies, worlds: seq<World>, events: seq<Event>) {
    && |worlds| == |events| + 1 && Initial(worlds[0])
    && forall k | 0 <= k < |events| :: Step(p, worlds[k], events[k], worlds[k + 1])
  }

  // ----- the invariant -----

  ghost predicate WonToken(c: Call, t: string) {
    c.payload == TokenRef(t) && c.consume.Some? && SaysConsumed(c.consume.value)
  }

  ghost predicate PermissionWasAllowed(c: Call) {
    c.permission.Some? && c.permission.value.Value? && c.permission.value.value.status == PermissionAllowed
  }

  ghost predicate VerifyWasValid(c: Call) {
    c.verify.Some? && c.verify.value.Value? && c.verify.value.value.status == Valid
  }

  /** A call's phase is explained by its payload and by the answers it was served. */
  ghost predicate CallOk(c: Call) {
    && (c.permission.Some? ==> !c.payload.InvalidPayload?)
    && (c.verify.Some? ==> PermissionWasAllowed(c) && c.payload.TokenRef?)
    && (c.consume.Some? ==> VerifyWasValid(c))
    && match c.phase
       case AskPermission => !c.payload.InvalidPayload? && c.verify.None? && c.consume.None?
       case AskVerify(t) => c.payload == TokenRef(t) && PermissionWasAllowed(c) && c.consume.None?
       case AskConsume(t) => c.payload == TokenRef(t) && PermissionWasAllowed(c) && VerifyWasValid(c)
       case Done(SafeError) => true
       case Done(Decided(d, ack)) =>
         && (d.tokenConsumed <==> c.consume.Some? && SaysConsumed(c.consume.value))
         && (d.businessAccepted <==>
               if c.payload.TokenRef? then d.tokenConsumed else c.payload.ActionRef? && PermissionWasAllowed(c))
  }

  ghost predicate Inv(w: World) {
    && (forall t | t in w.tokens :: T.Coherent(w.tokens[t]))
    && (forall i | 0 <= i < |w.calls| :: CallOk(w.calls[i]))
    && (forall i, t | 0 <= i < |w.calls| && WonToken(w.calls[i], t) ::
          t in w.tokens && w.tokens[t].status == T.Consumed)
    && (forall i, j, t | 0 <= i < j < |w.calls| :: !(WonToken(w.calls[i], t) && WonToken(w.calls[j], t)))
  }

  lemma RecordStepKeeps(p: Policies, before: map<string, T.Record>, after: map<string, T.Record>, t: string)
    requires RecordStep(p, before, after, t)
    requires forall u | u in before :: T.Coherent(before[u])
    ensures forall u | u in after :: T.Coherent(after[u])
    ensures forall u | u in before && before[u].status == T.Consumed :: u in after && after[u].status == T.Consumed
  {
    hide T.Coherent, T.Apply;
    if after != before {
      var mark :| T.Apply(p.refs, before[t], mark).Some? &&
                  after == before[t := T.Apply(p.refs, before[t], mark).value];
      T.ApplyKeeps(p.refs, before[t], mark);
    }
  }

  lemma IssuedIsCoherent(p: Policies, input: T.IssueInput)
    requires T.CreateIssued(p.refs, input).Some?
    ensures T.Coherent(T.CreateIssued(p.refs, input).value)
  {}

  lemma OutsideKeeps(p: Policies, w: World, w': World, t: string)
    requires Inv(w) && Outside(p, w, w', t)
    ensures Inv(w')
  {
    hide T.Coherent, T.Apply, CallOk, T.CreateIssued, WonToken;
    if RecordStep(p, w.tokens, w'.tokens, t) {
      RecordStepKeeps(p, w.tokens, w'.tokens, t);
    } else {
      var input :| T.CreateIssued(p.refs, input).Some? &&
                   w'.tokens == w.tokens[t := T.CreateIssued(p.refs, input).value];
      IssuedIsCoherent(p, input);
    }
  }

  lemma ArrivalKeeps(p: Policies, w: World, w': World)
    requires Inv(w) && Arrives(p, w, w')
    ensures Inv(w')
  {
    hide T.Coherent, CallOk, ParseCallbackData, Start;
    var data :| var payload := ParseCallbackData(p.text, data);
                w' == World(w.tokens, w.calls + [Call(data, payload, Start(p.text, payload), None, None, None)]);
    var payload := ParseCallbackData(p.text, data);
    NewCallOk(p, data, payload);
    var c := Call(data, payload, Start(p.text, payload), None, None, None);
    assert forall t :: !WonToken(c, t);
    hide WonToken;
    assert forall i | 0 <= i < |w'.calls| :: w'.calls[i] == if i == |w.calls| then c else w.calls[i];
  }

  lemma NewCallOk(p: Policies, data: CallbackData, payload: Payload)
    ensures CallOk(Call(data, payload, Start(p.text, payload), None, None, None))
  {}

  /** Replacing one call by an acceptable one with the same winnings keeps the invariant. */
  lemma ReplaceCall(w: World, w': World, i: nat, c: Call)
    requires Inv(w) && i < |w.calls| && w'.tokens == w.tokens && w'.calls == w.calls[i := c]
    requires CallOk(c) && forall t :: WonToken(c, t) <==> WonToken(w.calls[i], t)
    ensures Inv(w')
  {
    hide T.Coherent, CallOk, WonToken;
  }

  lemma PermissionServedKeeps(w: World, w': World, i: nat)
    requires Inv(w) && ServesPermission(w, w', i)
    ensures Inv(w')
  {
    var reply :| w' == World(w.tokens, w.calls[i := w.calls[i].(permission := Some(reply))]);
    var c := w.calls[i];
    assert CallOk(c);
    hide T.Coherent, Inv;
    ReplaceCall(w, w', i, c.(permission := Some(reply)));
  }

  lemma VerifyServedKeeps(p: Policies, w: World, w': World, i: nat)
    requires Inv(w) && ServesVerify(p, w, w', i)
    ensures Inv(w')
  {
    var reply :| w'.calls == w.calls[i := w.calls[i].(verify := Some(reply))];
    var c := w.calls[i];
    var t := c.phase.tokenRef;
    assert CallOk(c);
    var mid := World(w'.tokens, w.calls);
    assert Outside(p, w, mid, t);
    hide T.Coherent, Inv, Outside, RecordStep;
    OutsideKeeps(p, w, mid, t);
    ReplaceCall(mid, w', i, c.(verify := Some(reply)));
  }

  /** The heart of exactly-once: a new winner finds the record verified, so nobody won before. */
  lemma ConsumeServedKeeps(p: Policies, w: World, w': World, i: nat)
    requires Inv(w) && ServesConsume(p, w, w', i)
    ensures Inv(w')
  {
    var c := w.calls[i];
    var t := c.phase.tokenRef;
    var reply :| w'.calls == w.calls[i := c.(consume := Some(reply))] &&
                 (SaysConsumed(reply) ==> Consumes(p, w.tokens, w'.tokens, t));
    var next := c.(consume := Some(reply));
    assert CallOk(c) && CallOk(next);
    var mid := World(w'.tokens, w.calls);
    assert Outside(p, w, mid, t);
    hide Outside, RecordStep, CallOk;
    assert SaysConsumed(reply) ==>
        w.tokens[t].status == T.Verified && t in w'.tokens && w'.tokens[t].status == T.Consumed;
    OutsideKeeps(p, w, mid, t);
    if SaysConsumed(reply) {
      assert forall j | 0 <= j < |w.calls| :: !WonToken(w.calls[j], t);
      FirstWinner(mid, w', i, next, t);
    } else {
      ReplaceCall(mid, w', i, next);
    }
  }

  /** A call that wins an unwon, now consumed, token keeps the invariant. */
  lemma FirstWinner(w: World, w': World, i: nat, c: Call, t: string)
    requires Inv(w) && i < |w.calls| && w'.tokens == w.tokens && w'.calls == w.calls[i := c]
    requires CallOk(c) && c.payload == TokenRef(t)
    requires t in w.tokens && w.tokens[t].status == T.Consumed
    requires forall j | 0 <= j < |w.calls| :: !WonToken(w.calls[j], t)
    ensures Inv(w')
  {
    hide T.Coherent, CallOk;
    assert forall u | WonToken(c, u) :: u == t;
    hide WonToken;
    assert forall j | 0 <= j < |w.calls| :: w'.calls[j] == if j == i then c else w.calls[j];
  }

  lemma DeliveryKeeps(p: Policies, w: World, w': World, i: nat)
    requires Inv(w) && Delivers(p, w, w', i)
    ensures Inv(w')
  {
    var c := w.calls[i];
    assert CallOk(c);
    hide T.Coherent, Inv, SafeOptionalRef;
    if c.phase.AskPermission? {
      ResumedAfterPermission(p, c);
      ReplaceCall(w, w', i, c.(phase := AfterPermission(p.text, c.payload, c.permission.value)));
    } else if c.phase.AskVerify? {
      ResumedAfterVerify(p, c);
      ReplaceCall(w, w', i, c.(phase := AfterVerify(p.text, c.phase.tokenRef, c.verify.value)));
    } else {
      ResumedAfterConsume(p, c);
      ReplaceCall(w, w', i, c.(phase := AfterConsume(p.text, c.consume.value)));
    }
  }

  lemma ResumedAfterPermission(p: Policies, c: Call)
    requires CallOk(c) && c.phase.AskPermission? && c.permission.Some?
    ensures CallOk(c.(phase := AfterPermission(p.text, c.payload, c.permission.value)))
  {
    hide SafeOptionalRef, StatusText, AckFor;
  }

  lemma ResumedAfterVerify(p: Policies, c: Call)
    requires CallOk(c) && c.phase.AskVerify? && c.verify.Some?
    ensures CallOk(c.(phase := AfterVerify(p.text, c.phase.tokenRef, c.verify.value)))
  {
    hide SafeOptionalRef, StatusText, AckFor;
  }

  lemma ResumedAfterConsume(p: Policies, c: Call)
    requires CallOk(c) && c.phase.AskConsume? && c.consume.Some?
    ensures CallOk(c.(phase := AfterConsume(p.text, c.consume.value)))
  {
    hide SafeOptionalRef, StatusText, AckFor;
  }

  lemma StepKeeps(p: Policies, w: World, e: Event, w': World)
    requires Inv(w) && Step(p, w, e, w')
    ensures Inv(w')
  {
    hide Inv, Arrives, ServesPermission, ServesVerify, ServesConsume, Delivers, Outside;
    match e
    case Arrival => ArrivalKeeps(p, w, w');
    case PermissionServed(i) => PermissionServedKeeps(w, w', i);
    case VerifyServed(i) => VerifyServedKeeps(p, w, w', i);
    case ConsumeServed(i) => ConsumeServedKeeps(p, w, w', i);
    case Delivery(i) => DeliveryKeeps(p, w, w', i);
    case Elsewhere(t) => OutsideKeeps(p, w, w', t);
  }

  lemma {:induction false} RunKeepsInv(p: Policies, worlds: seq<World>, events: seq<Event>, k: nat)
    requires IsRun(p, worlds, events) && k < |worlds|
    ensures Inv(worlds[k])
  {
    hide Step, Inv, Initial;
    if k == 0 {
      InitialInv(worlds[0]);
    } else {
      RunKeepsInv(p, worlds, events, k - 1);
      StepKeeps(p, worlds[k - 1], events[k - 1], worlds[k]);
    }
  }

  lemma InitialInv(w: World)
    requires Initial(w)
    ensures Inv(w)
  {
    hide T.Coherent;
  }

  // ----- the data a call came with -----

  /** Every call's payload is read off the data it came with. */
  ghost predicate AllRead(p: Policies, w: World) {
    forall i | 0 <= i < |w.calls| :: w.calls[i].payload == ParseCallbackData(p.text, w.calls[i].data)
  }

  lemma StepReads(p: Policies, w: World, e: Event, w': World)
    requires AllRead(p, w) && Step(p, w, e, w')
    ensures AllRead(p, w')
  {
    hide RecordStep, ParseCallbackData, Start, AfterPermission, AfterVerify, AfterConsume;
  }

  lemma {:induction false} RunReads(p: Policies, worlds: seq<World>, events: seq<Event>, k: nat)
    requires IsRun(p, worlds, events) && k < |worlds|
    ensures AllRead(p, worlds[k])
  {
    hide Step, ParseCallbackData;
    if k > 0 {
      RunReads(p, worlds, events, k - 1);
      StepReads(p, worlds[k - 1], events[k - 1], worlds[k]);
    }
  }

  // ----- what every run guarantees -----

  ghost predicate DecidedConsumed(c: Call) {
    c.phase.Done? && c.phase.outcome.Decided? && c.phase.outcome.decision.tokenConsumed
  }

  ghost predicate DecidedAccepted(c: Call) {
    c.phase.Done? && c.phase.outcome.Decided? && c.phase.outcome.decision.businessAccepted
  }

  /** In every state of every run, at most one call per token decides that it consumed the token. */
  lemma ConsumedAtMostOnce(p: Policies, worlds: seq<World>, events: seq<Event>, k: nat, i: nat, j: nat)
    requires IsRun(p, worlds, events) && k < |worlds|
    requires i < |worlds[k].calls| && j < |worlds[k].calls|
    requires DecidedConsumed(worlds[k].calls[i]) && DecidedConsumed(worlds[k].calls[j])
    requires worlds[k].calls[i].payload == worlds[k].calls[j].payload
    ensures i == j
  {
    RunKeepsInv(p, worlds, events, k);
    var w := worlds[k];
    assert CallOk(w.calls[i]) && CallOk(w.calls[j]);
    hide CallOk;
    var t := w.calls[i].payload.tokenRef;
    assert WonToken(w.calls[i], t) && WonToken(w.calls[j], t);
  }

  lemma EarnedByPayload(p: Policies, worlds: seq<World>, events: seq<Event>, k: nat, i: nat)
    requires IsRun(p, worlds, events) && k < |worlds| && i < |worlds[k].calls|
    ensures var w, c := worlds[k], worlds[k].calls[i];
            && (DecidedConsumed(c) ==> c.payload.TokenRef? && EarnedToken(w, c, c.payload.tokenRef))
            && (c.payload.TokenRef? ==> (DecidedAccepted(c) <==> DecidedConsumed(c)))
            && (c.payload.ActionRef? ==> !DecidedConsumed(c) && c.verify.None? && c.consume.None?)
            && (DecidedAccepted(c) ==> PermissionWasAllowed(c) && !c.payload.InvalidPayload?)
            && (c.payload.InvalidPayload? ==> c.permission.None? && c.verify.None? && c.consume.None?)
  {
    RunKeepsInv(p, worlds, events, k);
    var w, c := worlds[k], worlds[k].calls[i];
    assert CallOk(c);
    if DecidedConsumed(c) {
      var t := c.payload.tokenRef;
      assert WonToken(c, t);
      assert T.Coherent(w.tokens[t]);
    }
  }

  /** Permission was allowed, the token verified, and its record is consumed and was allowed. */
  ghost predicate EarnedToken(w: World, c: Call, t: string) {
    && PermissionWasAllowed(c) && VerifyWasValid(c)
    && t in w.tokens && w.tokens[t].status == T.Consumed && w.tokens[t].tokenConsumed
    && w.tokens[t].permission.Some? && w.tokens[t].permission.value.Allowed?
  }

  /**
   What a call's decision means, by the data it came with: token data is accepted only by consuming that
   token; action data never touches a token; anything else asks no port and is never accepted.
   */
  lemma DecisionIsEarned(p: Policies, worlds: seq<World>, events: seq<Event>, k: nat, i: nat)
    requires IsRun(p, worlds, events) && k < |worlds| && i < |worlds[k].calls|
    ensures var w, c := worlds[k], worlds[k].calls[i];
            && (forall t | Carries(p.text, c.data, "hz:", t) ::
                  && (DecidedAccepted(c) <==> DecidedConsumed(c))
                  && (DecidedAccepted(c) ==> EarnedToken(w, c, t)))
            && (forall t | Carries(p.text, c.data, "action:", t) ::
                  && !DecidedConsumed(c) && c.verify.None? && c.consume.None?
                  && (DecidedAccepted(c) ==> PermissionWasAllowed(c)))
            && (DecidedAccepted(c) || c.permission.Some? ==>
                  exists t :: Carries(p.text, c.data, "hz:", t) || Carries(p.text, c.data, "action:", t))
  {
    var c := worlds[k].calls[i];
    EarnedByPayload(p, worlds, events, k, i);
    RunReads(p, worlds, events, k);
    PayloadExactly(p.text, c.data);
    hide IsRun, EarnedToken, DecidedAccepted, DecidedConsumed, PermissionWasAllowed, ParseCallbackData, Carries;
  }

  /** In every state of every run, calls that came with the same token are accepted at most once. */
  lemma TokenAcceptedAtMostOnce(p: Policies, worlds: seq<World>, events: seq<Event>, k: nat, i: nat, j: nat, t: string)
    requires IsRun(p, worlds, events) && k < |worlds|
    requires i < |worlds[k].calls| && j < |worlds[k].calls|
    requires Carries(p.text, worlds[k].calls[i].data, "hz:", t) && DecidedAccepted(worlds[k].calls[i])
    requires Carries(p.text, worlds[k].calls[j].data, "hz:", t) && DecidedAccepted(worlds[k].calls[j])
    ensures i == j
  {
    DecisionIsEarned(p, worlds, events, k, i);
    DecisionIsEarned(p, worlds, events, k, j);
    RunReads(p, worlds, events, k);
    PayloadExactly(p.text, worlds[k].calls[i].data);
    PayloadExactly(p.text, worlds[k].calls[j].data);
    hide IsRun, EarnedToken, DecidedAccepted, DecidedConsumed, ParseCallbackData, Carries;
    ConsumedAtMostOnce(p, worlds, events, k, i, j);
  }

  /** The token port is asked to verify only after permission, and to consume only after a valid verify. */
  lemma PortsAreAskedInOrder(p: Policies, worlds: seq<World>, events: seq<Event>, k: nat, i: nat)
    requires IsRun(p, worlds, events) && k < |worlds| && i < |worlds[k].calls|
    ensures var c := worlds[k].calls[i];
            && (c.phase.AskVerify? || c.verify.Some? ==> PermissionWasAllowed(c) && c.payload.TokenRef?)
            && (c.phase.AskConsume? || c.consume.Some? ==> PermissionWasAllowed(c) && VerifyWasValid(c))
            && (c.payload.InvalidPayload? ==> c.permission.None? && c.verify.None? && c.consume.None?)
  {
    RunKeepsInv(p, worlds, events, k);
    assert CallOk(worlds[k].calls[i]);
  }

  // ----- a run that gets through -----

  lemma ArrivalStep(p: Policies, tokens: map<string, T.Record>, data: CallbackData)
    ensures var payload := ParseCallbackData(p.text, data);
            Step(p, World(tokens, []), Arrival,
                 World(tokens, [Call(data, payload, Start(p.text, payload), None, None, None)]))
  {
    var payload := ParseCallbackData(p.text, data);
    hide ParseCallbackData;
    var c := Call(data, payload, Start(p.text, payload), None, None, None);
    assert [] + [c] == [c];
    assert World(tokens, [c]) == World(tokens, [] + [c]);
  }

  lemma PermissionStep(p: Policies, tokens: map<string, T.Record>, c: Call, reply: Reply<Answer<PermissionStatus>>)
    requires c.phase.AskPermission? && c.permission.None?
    ensures Step(p, World(tokens, [c]), PermissionServed(0), World(tokens, [c.(permission := Some(reply))]))
  {
    assert [c][0 := c.(permission := Some(reply))] == [c.(permission := Some(reply))];
  }

  lemma VerifyStep(p: Policies, tokens: map<string, T.Record>, c: Call, reply: Reply<Answer<VerifyStatus>>)
    requires c.phase.AskVerify? && c.verify.None?
    ensures Step(p, World(tokens, [c]), VerifyServed(0), World(tokens, [c.(verify := Some(reply))]))
  {
    assert [c][0 := c.(verify := Some(reply))] == [c.(verify := Some(reply))];
  }

  lemma ConsumeStep(p: Policies, tokens: map<string, T.Record>, after: map<string, T.Record>, c: Call,
                    reply: Reply<Answer<ConsumeStatus>>)
    requires c.phase.AskConsume? && c.consume.None?
    requires RecordStep(p, tokens, after, c.phase.tokenRef) && Consumes(p, tokens, after, c.phase.tokenRef)
    ensures Step(p, World(tokens, [c]), ConsumeServed(0), World(after, [c.(consume := Some(reply))]))
  {
    hide RecordStep;
    assert [c][0 := c.(consume := Some(reply))] == [c.(consume := Some(reply))];
  }

  lemma DeliveryStep(p: Policies, tokens: map<string, T.Record>, c: Call, phase: Phase)
    requires || (c.phase.AskPermission? && c.permission.Some? &&
                 phase == AfterPermission(p.text, c.payload, c.permission.value))
             || (c.phase.AskVerify? && c.verify.Some? &&
                 phase == AfterVerify(p.text, c.phase.tokenRef, c.verify.value))
             || (c.phase.AskConsume? && c.consume.Some? && phase == AfterConsume(p.text, c.consume.value))
    ensures Step(p, World(tokens, [c]), Delivery(0), World(tokens, [c.(phase := phase)]))
  {
    hide AfterPermission, AfterVerify, AfterConsume;
    assert [c][0 := c.(phase := phase)] == [c.(phase := phase)];
  }

  lemma HonestAnswersLead(p: Policies, payload: Payload)
    requires payload.TokenRef?
    ensures Start(p.text, payload) == AskPermission
    ensures AfterPermission(p.text, payload, Value(Answer(PermissionAllowed, None, None))) ==
            AskVerify(payload.tokenRef)
    ensures AfterVerify(p.text, payload.tokenRef, Value(Answer(Valid, None, None))) == AskConsume(payload.tokenRef)
    ensures var phase := AfterConsume(p.text, Value(Answer(Consumed, None, None)));
            phase.Done? && phase.outcome.Decided? &&
            phase.outcome.decision.tokenConsumed && phase.outcome.decision.businessAccepted
  {}

  /** Seven linked steps make a run. */
  lemma SevenSteps(p: Policies, worlds: seq<World>, events: seq<Event>)
    requires |worlds| == 8 && |events| == 7 && Initial(worlds[0])
    requires Step(p, worlds[0], events[0], worlds[1]) && Step(p, worlds[1], events[1], worlds[2])
    requires Step(p, worlds[2], events[2], worlds[3]) && Step(p, worlds[3], events[3], worlds[4])
    requires Step(p, worlds[4], events[4], worlds[5]) && Step(p, worlds[5], events[5], worlds[6])
    requires Step(p, worlds[6], events[6], worlds[7])
    ensures IsRun(p, worlds, events)
  {
    hide Step, Initial;
    forall k | 0 <= k < |events|
      ensures Step(p, worlds[k], events[k], worlds[k + 1])
    {
      assert k in {0, 1, 2, 3, 4, 5, 6};
    }
  }

  lemma HonestConsumption(p: Policies, t: string, r: T.Record, mark: T.Mark)
    requires T.Coherent(r) && r.status == T.Verified && mark.Consume? && T.Apply(p.refs, r, mark).Some?
    ensures var before, after := map[t := r], map[t := T.Apply(p.refs, r, mark).value];
            && after[t].status == T.Consumed && Initial(World(before, []))
            && RecordStep(p, before, after, t) && Consumes(p, before, after, t)
  {
    T.ApplyKeeps(p.refs, r, mark);
    var before := map[t := r];
    hide T.Coherent;
    assert T.Apply(p.refs, r, mark).value.status == T.Consumed;
    hide T.Apply;
    assert before[t := T.Apply(p.refs, r, mark).value] == map[t := T.Apply(p.refs, r, mark).value];
  }

  /** The protocol does get through: one undisturbed call with token data, allowed and served honestly. */
  lemma UndisturbedCallConsumes(p: Policies, data: CallbackData, t: string, r: T.Record, mark: T.Mark)
    returns (worlds: seq<World>, events: seq<Event>)
    requires Carries(p.text, data, "hz:", t)
    requires T.Coherent(r) && r.status == T.Verified && mark.Consume? && T.Apply(p.refs, r, mark).Some?
    ensures IsRun(p, worlds, events) && worlds[0] == World(map[t := r], [])
    ensures var last := worlds[|events|];
            && last.tokens == map[t := T.Apply(p.refs, r, mark).value] && last.tokens[t].status == T.Consumed
            && |last.calls| == 1 && last.calls[0].data == data
            && DecidedConsumed(last.calls[0]) && DecidedAccepted(last.calls[0])
  {
    hide Step, RecordStep, Consumes, Initial, IsRun, T.Apply, T.Coherent, ParseCallbackData, Carries,
         Start, AfterPermission, AfterVerify, AfterConsume;
    PayloadExactly(p.text, data);
    var payload := ParseCallbackData(p.text, data);
    HonestAnswersLead(p, payload);
    HonestConsumption(p, t, r, mark);
    var yes, valid := Value(Answer(PermissionAllowed, None, None)), Value(Answer(Valid, None, None));
    var consumed := Value(Answer(Consumed, None, None));
    var before, after := map[t := r], map[t := T.Apply(p.refs, r, mark).value];
    var c0 := Call(data, payload, AskPermission, None, None, None);
    var c1 := c0.(permission := Some(yes));
    var c2 := c1.(phase := AskVerify(t));
    var c3 := c2.(verify := Some(valid));
    var c4 := c3.(phase := AskConsume(t));
    var c5 := c4.(consume := Some(consumed));
    var c6 := c5.(phase := AfterConsume(p.text, consumed));
    worlds := [World(before, []), World(before, [c0]), World(before, [c1]), World(before, [c2]), World(before, [c3]),
               World(before, [c4]), World(after, [c5]), World(after, [c6])];
    events := [Arrival, PermissionServed(0), Delivery(0), VerifyServed(0), Delivery(0), ConsumeServed(0), Delivery(0)];
    ArrivalStep(p, before, data);
    PermissionStep(p, before, c0, yes);
    DeliveryStep(p, before, c1, AskVerify(t));
    VerifyStep(p, before, c2, valid);
    DeliveryStep(p, before, c3, AskConsume(t));
    ConsumeStep(p, before, after, c4, consumed);
    DeliveryStep(p, after, c5, c6.phase);
    SevenSteps(p, worlds, events);
  }
}
