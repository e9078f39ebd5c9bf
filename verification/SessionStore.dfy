/** The in-memory session store, method by method. */
module SessionStore {
  import opened Common
  import opened SessionModel
  import opened SessionNormalForm
  import opened SessionContents

  class Store {
    const policy: TextPolicy
    const maxListLimit: nat
    var sessionsByRef: map<string, Session>
    var order: seq<string>
    var sessionsByIdempotencyRef: map<string, IdempotencyRecord>

    function State(): Contents
      reads this
    {
      Contents(sessionsByRef, order, sessionsByIdempotencyRef)
    }

    ghost predicate Valid()
      reads this
    {
      Inv(policy, State())
    }

    constructor (policy: TextPolicy, maxListLimit: Raw)
      ensures Valid() && State() == EMPTY
      ensures this.policy == policy && 1 <= this.maxListLimit <= DEFAULT_MAX_LIST_LIMIT
      ensures maxListLimit.Integer? && 1 <= maxListLimit.amount <= DEFAULT_MAX_LIST_LIMIT ==>
                this.maxListLimit == maxListLimit.amount
    {
      this.policy, this.maxListLimit := policy, ReadMaxListLimit(maxListLimit);
      sessionsByRef, order, sessionsByIdempotencyRef := map[], [], map[];
    }

    method Set(session: Session)
      modifies this`sessionsByRef, this`order
      ensures State() == Put(old(State()), session)
    {
      if session.sessionRef !in sessionsByRef {
        order := order + [session.sessionRef];
      }
      sessionsByRef := sessionsByRef[session.sessionRef := session];
    }

    method Create(input: Option<CreateInput>) returns (outcome: Outcome)
      requires Valid()
      modifies this
      ensures Valid() && (State(), outcome) == CreateOn(policy, old(State()), input)
      ensures outcome != Rejected(NotFound, [])
      ensures !outcome.Created? ==> State() == old(State())
      ensures outcome.Created? ==> State().order == old(State().order) + [outcome.session.sessionRef]
    {
      hide Normalize, SafeIdempotencyRef, Inv, Prefix;
      CreateKeeps(policy, State(), input);
      if input.None? { return Rejected(InvalidRequest, []); }
      var key := input.value.idempotencyRef;
      if !key.Text? || !SafeIdempotencyRef(key.text) { return Rejected(InvalidIdempotencyRef, []); }
      var normalized := Normalize(policy, input.value.session);
      if normalized.Err? { return Rejected(InvalidSession, normalized.error); }
      var session := normalized.value;
      if Lookup(session.optional, IdempotencyRef) != Some(key.text) { return Rejected(InvalidIdempotencyRef, []); }
      if key.text in sessionsByIdempotencyRef {
        var record := sessionsByIdempotencyRef[key.text];
        if record.fingerprint != session { return Rejected(IdempotencyConflict, []); }
        if record.sessionRef !in sessionsByRef { return Rejected(NotFound, []); }
        return Replayed(sessionsByRef[record.sessionRef]);
      }
      if session.sessionRef in sessionsByRef { return Rejected(SessionConflict, []); }
      Set(session);
      sessionsByIdempotencyRef :=
        sessionsByIdempotencyRef[key.text := IdempotencyRecord(session.sessionRef, session)];
      return Created(session);
    }

    method ReadExisting(ref: Raw) returns (session: Option<Session>)
      ensures session == FindOn(policy, State(), ref)
    {
      hide ValidateRef;
      var result := ValidateRef(policy, SessionKind, ref);
      if result.Err? || result.value !in sessionsByRef { return None; }
      return Some(sessionsByRef[result.value]);
    }

    method Get(ref: Raw) returns (outcome: Outcome)
      requires Valid()
      ensures match FindOn(policy, State(), ref)
              case None => outcome == Rejected(NotFound, [])
              case Some(session) => outcome == Found(session) && ref == Text(session.sessionRef)
    {
      hide Inv, FindOn;
      FoundUnderItsRef(policy, State(), ref);
      var session := ReadExisting(ref);
      if session.None? { return Rejected(NotFound, []); }
      return Found(session.value);
    }

    method Resume(ref: Raw) returns (outcome: Outcome)
      requires Valid()
      ensures match FindOn(policy, State(), ref)
              case None => outcome == Rejected(NotFound, [])
              case Some(session) => outcome == Resumed(session) && ref == Text(session.sessionRef)
    {
      hide Inv, FindOn;
      FoundUnderItsRef(policy, State(), ref);
      var session := ReadExisting(ref);
      if session.None? { return Rejected(NotFound, []); }
      return Resumed(session.value);
    }

    method ListSessions(input: Option<ListInput>) returns (outcome: Outcome)
      requires Valid()
      ensures AllStored(State()) && outcome == ListOn(State(), maxListLimit, input)
      ensures outcome.Listed? ==>
                && |outcome.sessions| == (if outcome.limit < |order| then outcome.limit else |order|)
                && (input.value.limit == Integer(outcome.limit) ||
                    (input.value.limit.Undefined? && outcome.limit <= DEFAULT_LIST_LIMIT))
                && outcome.limit <= maxListLimit
      ensures outcome == Rejected(InvalidRequest, []) <==>
              || input.None?
              || (!input.value.limit.Undefined? &&
                  !(input.value.limit.Integer? && 1 <= input.value.limit.amount <= maxListLimit))
      ensures input.Some? && input.value.limit.Undefined? ==>
                outcome.Listed? && outcome.limit == if maxListLimit < 25 then maxListLimit else 25
    {
      hide Inv;
      InvStoresOrder(policy, State());
      if input.None? { return Rejected(InvalidRequest, []); }
      var limit := ReadLimit(input.value.limit, maxListLimit);
      if limit.None? { return Rejected(InvalidRequest, []); }
      var count := if limit.value < |order| then limit.value else |order|;
      return Listed(InOrder(State(), order[..count]), limit.value);
    }

    method Transition(input: Option<TransitionInput>) returns (outcome: Outcome)
      requires Valid()
      modifies this`sessionsByRef, this`order
      ensures Valid() && (State(), outcome) == TransitionOn(policy, old(State()), input)
      ensures outcome.Rejected? ==> outcome.code != UnsafeOutput
      ensures !outcome.Updated? ==> State() == old(State())
      ensures outcome.Updated? <==> input.Some? && exists s, to :: Accepts(policy, old(State()), input.value, s, to)
      ensures input.Some? ==> forall s, to | Accepts(policy, old(State()), input.value, s, to) ::
                outcome == Updated(Moved(s, to, input.value.updatedAt))
      ensures order == old(order)
    {
      hide Inv, Normalize, ValidateTransition, Candidate, SafeJson, ReadFlags, FindOn, Put, Accepts, Moved;
      TransitionKeeps(policy, State(), input);
      forall s, to | input.Some? && Accepts(policy, State(), input.value, s, to)
        ensures TransitionOn(policy, State(), input).1 == Updated(Moved(s, to, input.value.updatedAt))
      {
        AcceptedIsTaken(policy, State(), input.value, s, to);
      }
      if input.None? { return Rejected(InvalidRequest, []); }
      var existing := ReadExisting(input.value.sessionRef);
      if existing.None? { return Rejected(NotFound, []); }
      var to := ValidateTransition(existing.value.lifecycleState, input.value.lifecycleState);
      if to.Err? { return Rejected(TransitionRefused, [to.error]); }
      var candidate := Candidate(existing.value, to.value, ReadFlags(input.value.statusFlags), input.value.updatedAt);
      var normalized := Normalize(policy, Record(candidate));
      if normalized.Err? { return Rejected(InvalidSession, normalized.error); }
      if !SafeJson(policy, normalized.value) { return Rejected(UnsafeOutput, []); }
      Set(normalized.value);
      return Updated(normalized.value);
    }
  }
}
