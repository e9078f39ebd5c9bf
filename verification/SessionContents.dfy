/**
 What the session store's operations do to its contents, as functions, and the invariant they keep.
 The two JavaScript Maps are Dafny maps, with the insertion order of the first beside them; a fingerprint
 is the normalised session itself.
 */
module SessionContents {
  import opened Common
  import opened SessionModel
  import opened SessionNormalForm

  const DEFAULT_LIST_LIMIT := 25
  const DEFAULT_MAX_LIST_LIMIT := 100

  datatype ErrorCode =
    | InvalidRequest | InvalidSession | InvalidIdempotencyRef | IdempotencyConflict | SessionConflict
    | NotFound | TransitionRefused | UnsafeOutput

  datatype Outcome =
    | Created(session: Session) | Replayed(session: Session)
    | Found(session: Session) | Resumed(session: Session)
    | Listed(sessions: seq<Session>, limit: nat)
    | Updated(session: Session)
    | Rejected(code: ErrorCode, issues: seq<Issue>)

  datatype IdempotencyRecord = IdempotencyRecord(sessionRef: string, fingerprint: Session)

  /** The arguments of the operations; `None` stands for anything that is not an object. */
  datatype CreateInput = CreateInput(idempotencyRef: Raw, session: Raw)
  datatype ListInput = ListInput(limit: Raw)
  datatype TransitionInput = TransitionInput(sessionRef: Raw, lifecycleState: Raw, statusFlags: FlagInput, updatedAt: Raw)
  datatype FlagInput = FlagInput(degraded: Raw, stale: Raw, blocked: Raw) | NotARecord

  datatype Contents = Contents(
    sessions: map<string, Session>, order: seq<string>, records: map<string, IdempotencyRecord>)

  const EMPTY := Contents(map[], [], map[])

  // ----- reading arguments -----

  predicate SafeIdempotencyRef(s: string) {
    Prefix(IdempotencyKind) <= s && SafeBody(s[|Prefix(IdempotencyKind)|..])
  }

  function ReadMaxListLimit(value: Raw): nat {
    if !value.Integer? || value.amount < 1 then DEFAULT_MAX_LIST_LIMIT
    else if value.amount < DEFAULT_MAX_LIST_LIMIT then value.amount
    else DEFAULT_MAX_LIST_LIMIT
  }

  function ReadLimit(value: Raw, max: nat): Option<nat> {
    if value.Undefined? then Some(if DEFAULT_LIST_LIMIT < max then DEFAULT_LIST_LIMIT else max)
    else if !value.Integer? || value.amount < 1 || value.amount > max then None
    else Some(value.amount)
  }

  function ReadFlags(input: FlagInput): Flags {
    if input.NotARecord? then NO_FLAGS
    else Flags(input.degraded == Bool(true), input.stale == Bool(true), input.blocked == Bool(true))
  }

  function ValidateTransition(from: State, to: Raw): Result<State, Issue> {
    var state := if to.Text? then Parse(to.text, STATES, StateText) else None;
    if state.None? then Err(Issue(InvalidState, To, None))
    else if !CanTransition(from, state.value) then Err(Issue(InvalidTransition, LifecycleState, None))
    else Ok(state.value)
  }

  /** The candidate object: the stored session with a new state, the status its flags give, and updatedAt. */
  function Candidate(s: Session, to: State, flags: Flags, updatedAt: Raw): map<Key, Raw> {
    var m := if updatedAt.Undefined? then Embed(s) else Embed(s)[Optional(UpdatedAt) := updatedAt];
    m[LifecycleState := Text(StateText(to))][DerivedStatus := Text(StatusText(Derive(to, flags)))]
  }

  // ----- what each operation does to the contents -----

  function Put(c: Contents, s: Session): Contents {
    Contents(c.sessions[s.sessionRef := s], if s.sessionRef in c.sessions then c.order else c.order + [s.sessionRef],
             c.records)
  }

  function CreateOn(policy: TextPolicy, c: Contents, input: Option<CreateInput>): (Contents, Outcome) {
    if input.None? then (c, Rejected(InvalidRequest, []))
    else
      var key := input.value.idempotencyRef;
      if !key.Text? || !SafeIdempotencyRef(key.text) then (c, Rejected(InvalidIdempotencyRef, []))
      else
        match Normalize(policy, input.value.session)
        case Err(issues) => (c, Rejected(InvalidSession, issues))
        case Ok(session) =>
          if Lookup(session.optional, IdempotencyRef) != Some(key.text) then (c, Rejected(InvalidIdempotencyRef, []))
          else if key.text in c.records then
            var record := c.records[key.text];
            if record.fingerprint != session then (c, Rejected(IdempotencyConflict, []))
            else if record.sessionRef !in c.sessions then (c, Rejected(NotFound, []))
            else (c, Replayed(c.sessions[record.sessionRef]))
          else if session.sessionRef in c.sessions then (c, Rejected(SessionConflict, []))
          else
            var stored := Put(c, session);
            (stored.(records := c.records[key.text := IdempotencyRecord(session.sessionRef, session)]), Created(session))
  }

  function FindOn(policy: TextPolicy, c: Contents, ref: Raw): Option<Session> {
    match ValidateRef(policy, SessionKind, ref)
    case Err(_) => None
    case Ok(text) => Lookup(c.sessions, text)
  }

  function InOrder(c: Contents, refs: seq<string>): seq<Session>
    requires forall i | 0 <= i < |refs| :: refs[i] in c.sessions
  {
    seq(|refs|, i requires 0 <= i < |refs| => c.sessions[refs[i]])
  }

  ghost predicate AllStored(c: Contents) {
    forall i | 0 <= i < |c.order| :: c.order[i] in c.sessions
  }

  function ListOn(c: Contents, max: nat, input: Option<ListInput>): Outcome
    requires AllStored(c)
  {
    if input.None? then Rejected(InvalidRequest, [])
    else
      var limit := ReadLimit(input.value.limit, max);
      if limit.None? then Rejected(InvalidRequest, [])
      else if limit.value < |c.order| then Listed(InOrder(c, c.order[..limit.value]), limit.value)
      else Listed(InOrder(c, c.order), limit.value)
  }

  function TransitionOn(policy: TextPolicy, c: Contents, input: Option<TransitionInput>): (Contents, Outcome) {
    if input.None? then (c, Rejected(InvalidRequest, []))
    else
      var existing := FindOn(policy, c, input.value.sessionRef);
      if existing.None? then (c, Rejected(NotFound, []))
      else
        match ValidateTransition(existing.value.lifecycleState, input.value.lifecycleState)
        case Err(issue) => (c, Rejected(TransitionRefused, [issue]))
        case Ok(to) =>
          var candidate := Candidate(existing.value, to, ReadFlags(input.value.statusFlags), input.value.updatedAt);
          match Normalize(policy, Record(candidate))
          case Err(issues) => (c, Rejected(InvalidSession, issues))
          case Ok(session) =>
            if !SafeJson(policy, session) then (c, Rejected(UnsafeOutput, []))
            else (Put(c, session), Updated(session))
  }

  // ----- the invariant -----

  /** Equal but for what a transition may change. */
  ghost predicate SameCreation(a: Session, b: Session) {
    b == a.(lifecycleState := b.lifecycleState, derivedStatus := b.derivedStatus, optional := b.optional) &&
    a.optional - {UpdatedAt} == b.optional - {UpdatedAt}
  }

  ghost predicate OrderOk(c: Contents) {
    && (forall r :: r in c.order <==> r in c.sessions)
    && (forall i, j | 0 <= i < j < |c.order| :: c.order[i] != c.order[j])
  }

  /** A stored session: well formed, under its own ref, and pointed to by the record of its idempotency ref. */
  ghost predicate SessionOk(policy: TextPolicy, c: Contents, r: string)
    requires r in c.sessions
  {
    var s := c.sessions[r];
    && s.sessionRef == r && WellFormed(policy, s)
    && IdempotencyRef in s.optional && s.optional[IdempotencyRef] in c.records
    && c.records[s.optional[IdempotencyRef]].sessionRef == r
  }

  /** A record: points to a stored session that carries its key and stems from its fingerprint. */
  ghost predicate RecordOk(c: Contents, k: string)
    requires k in c.records
  {
    var record := c.records[k];
    && record.sessionRef in c.sessions
    && Lookup(c.sessions[record.sessionRef].optional, IdempotencyRef) == Some(k)
    && SameCreation(record.fingerprint, c.sessions[record.sessionRef])
  }

  ghost predicate Inv(policy: TextPolicy, c: Contents) {
    && OrderOk(c)
    && (forall r | r in c.sessions :: SessionOk(policy, c, r))
    && (forall k | k in c.records :: RecordOk(c, k))
  }

  // ----- what the invariant gives -----

  lemma InvStoresOrder(policy: TextPolicy, c: Contents)
    requires Inv(policy, c)
    ensures AllStored(c)
  {
    hide SessionOk, RecordOk;
  }

  lemma StoredIsOk(policy: TextPolicy, c: Contents, r: string)
    requires Inv(policy, c) && r in c.sessions
    ensures c.sessions[r].sessionRef == r && WellFormed(policy, c.sessions[r])
  {
    hide WellFormed, OrderOk, RecordOk;
    assert SessionOk(policy, c, r);
  }

  lemma FoundUnderItsRef(policy: TextPolicy, c: Contents, ref: Raw)
    requires Inv(policy, c)
    ensures match FindOn(policy, c, ref)
            case None => true
            case Some(s) => ref == Text(s.sessionRef) && s.sessionRef in c.sessions && c.sessions[s.sessionRef] == s
  {
    var found := ValidateRef(policy, SessionKind, ref);
    if found.Ok? {
      ValidationFixes(policy, SessionKind, ref);
      hide ValidateRef, Inv;
      if found.value in c.sessions {
        StoredIsOk(policy, c, found.value);
      }
    }
  }

  // ----- create -----

  lemma SameCreationItself(s: Session)
    ensures SameCreation(s, s)
  {}

  lemma CreateOnNewKeeps(policy: TextPolicy, c: Contents, s: Session, key: string)
    requires Inv(policy, c) && WellFormed(policy, s) && Lookup(s.optional, IdempotencyRef) == Some(key)
    requires s.sessionRef !in c.sessions && key !in c.records
    ensures Inv(policy, Put(c, s).(records := c.records[key := IdempotencyRecord(s.sessionRef, s)]))
  {
    hide WellFormed, SameCreation, SessionOk, RecordOk;
    var after := Put(c, s).(records := c.records[key := IdempotencyRecord(s.sessionRef, s)]);
    forall r | r in after.sessions
      ensures SessionOk(policy, after, r)
    {
      NewSessionOk(policy, c, s, key, r);
    }
    forall k | k in after.records
      ensures RecordOk(after, k)
    {
      NewRecordOk(c, s, key, k);
    }
  }

  lemma NewSessionOk(policy: TextPolicy, c: Contents, s: Session, key: string, r: string)
    requires r in c.sessions ==> SessionOk(policy, c, r)
    requires WellFormed(policy, s) && Lookup(s.optional, IdempotencyRef) == Some(key)
    requires s.sessionRef !in c.sessions && key !in c.records && (r in c.sessions || r == s.sessionRef)
    ensures SessionOk(policy, Put(c, s).(records := c.records[key := IdempotencyRecord(s.sessionRef, s)]), r)
  {
    hide WellFormed;
  }

  lemma NewRecordOk(c: Contents, s: Session, key: string, k: string)
    requires k in c.records ==> RecordOk(c, k)
    requires Lookup(s.optional, IdempotencyRef) == Some(key)
    requires s.sessionRef !in c.sessions && key !in c.records && (k in c.records || k == key)
    ensures RecordOk(Put(c, s).(records := c.records[key := IdempotencyRecord(s.sessionRef, s)]), k)
  {
    SameCreationItself(s);
    hide SameCreation;
  }

  lemma CreateKeeps(policy: TextPolicy, c: Contents, input: Option<CreateInput>)
    requires Inv(policy, c)
    ensures var (after, outcome) := CreateOn(policy, c, input);
            && Inv(policy, after)
            && outcome != Rejected(NotFound, [])
            && (!outcome.Created? ==> after == c)
            && (outcome.Created? ==> after.order == c.order + [outcome.session.sessionRef])
  {
    hide SafeIdempotencyRef, Prefix, Normalize, SessionOk, RecordOk, OrderOk;
    var (after, outcome) := CreateOn(policy, c, input);
    if outcome.Created? {
      NormalizeGivesWellFormed(policy, input.value.session);
      CreateOnNewKeeps(policy, c, outcome.session, input.value.idempotencyRef.text);
    } else if input.Some? && input.value.idempotencyRef.Text? && input.value.idempotencyRef.text in c.records {
      RecordPointsToStored(policy, c, input.value.idempotencyRef.text);
    }
    hide Inv;
  }

  lemma RecordPointsToStored(policy: TextPolicy, c: Contents, k: string)
    requires Inv(policy, c) && k in c.records
    ensures c.records[k].sessionRef in c.sessions
  {
    hide SessionOk, OrderOk;
    assert RecordOk(c, k);
  }

  // ----- transition -----

  /** The session a transition stores: three fields may differ from the old one, nothing else. */
  function Moved(s: Session, to: State, updatedAt: Raw): Session {
    s.(lifecycleState := to, derivedStatus := Derive(to, NO_FLAGS),
       optional := if updatedAt.Text? then s.optional[UpdatedAt := updatedAt.text] else s.optional)
  }

  ghost predicate TimestampOk(policy: TextPolicy, updatedAt: Raw) {
    updatedAt.Undefined? || (ReadTimestamp(updatedAt).Ok? && SafeString(policy, updatedAt.text))
  }

  ghost predicate SameAt(m: map<Key, Raw>, m': map<Key, Raw>, k: Key) {
    Lookup(m', k) == Lookup(m, k)
  }

  lemma RefsFramed(policy: TextPolicy, m: map<Key, Raw>, m': map<Key, Raw>, s: Session, t: Session)
    requires SameAt(m, m', SessionRef) && SameAt(m, m', TaskRef) && ReadsRefs(policy, m, s)
    ensures ReadsRefs(policy, m', t) <==> t.sessionRef == s.sessionRef && t.taskRef == s.taskRef
  {
    hide ValidateRef;
  }

  lemma ListsFramed(policy: TextPolicy, m: map<Key, Raw>, m': map<Key, Raw>, s: Session, t: Session)
    requires (forall l :: SameAt(m, m', RefList(l))) && ReadsLists(policy, m, s)
    ensures ReadsLists(policy, m', t) <==> t.refs == s.refs
  {
    forall l
      ensures ReadList(policy, m', l) == ReadList(policy, m, l)
    {
      assert SameAt(m, m', RefList(l));
      hide Items;
    }
    hide ReadList, SameAt;
    if ReadsLists(policy, m', t) {
      assert t.refs == s.refs;
    }
  }

  lemma IssuesFramed(policy: TextPolicy, m: map<Key, Raw>, m': map<Key, Raw>)
    requires SameAt(m, m', Issues)
    ensures ReadIssues(policy, m') == ReadIssues(policy, m)
  {
    hide PublicItems;
  }

  lemma FieldsFramed(policy: TextPolicy, m: map<Key, Raw>, m': map<Key, Raw>, s: Session, updatedAt: Raw, t: Session)
    requires ReadsFields(policy, m, s)
    requires forall f | f != UpdatedAt || updatedAt.Undefined? :: SameAt(m, m', Optional(f))
    requires !updatedAt.Undefined? ==> Lookup(m', Optional(UpdatedAt)) == Some(updatedAt)
    ensures ReadsFields(policy, m', t) <==>
            t.optional == Moved(s, Planned, updatedAt).optional &&
            (updatedAt.Undefined? || ReadTimestamp(updatedAt).Ok?)
  {
    hide ValidateRef, BoundedSummary, ReadTimestamp;
    forall f | f != UpdatedAt || updatedAt.Undefined?
      ensures ReadField(policy, m', f) == ReadField(policy, m, f) == Read(Lookup(s.optional, f), [])
    {
      assert SameAt(m, m', Optional(f));
    }
    assert !updatedAt.Undefined? ==>
        ReadField(policy, m', UpdatedAt) == Checked(ReadTimestamp(updatedAt), Optional(UpdatedAt), None);
    TimestampIsItself(updatedAt);
    hide ReadField, SameAt;
    var moved := Moved(s, Planned, updatedAt).optional;
    if ReadsFields(policy, m', t) {
      assert ReadField(policy, m', UpdatedAt) == Read(Lookup(t.optional, UpdatedAt), []);
      assert forall f :: Lookup(t.optional, f) == ReadField(policy, m', f).value;
      assert forall f :: Lookup(t.optional, f) == Lookup(moved, f);
      hide ReadsFields;
      SameLookups(t.optional, moved);
      assert t.optional == moved;
    }
  }

  lemma SameLookups<K(!new), V>(a: map<K, V>, b: map<K, V>)
    requires forall k :: Lookup(a, k) == Lookup(b, k)
    ensures a == b
  {
    assert forall k :: k in a <==> Lookup(a, k).Some?;
    assert forall k :: k in b <==> Lookup(b, k).Some?;
    assert forall k | k in a :: a[k] == Lookup(a, k).value == b[k];
  }

  lemma TimestampIsItself(value: Raw)
    ensures ReadTimestamp(value).Ok? ==> value == Text(ReadTimestamp(value).value)
  {}

  lemma StatusRead(m: map<Key, Raw>, to: State, status: Status, t: Session)
    requires Lookup(m, LifecycleState) == Some(Text(StateText(to)))
    requires Lookup(m, DerivedStatus) == Some(Text(StatusText(status)))
    ensures ReadsStatus(m, t) <==>
            t.lifecycleState == to && t.derivedStatus == status && status == Derive(to, NO_FLAGS)
  {
    StateTextParses(to);
    StatusTextParses(status);
    hide Parse, StateText, StatusText, Derive;
  }

  lemma CandidateAt(s: Session, to: State, flags: Flags, updatedAt: Raw)
    ensures var m, m' := Embed(s), Candidate(s, to, flags, updatedAt);
            && Lookup(m', LifecycleState) == Some(Text(StateText(to)))
            && Lookup(m', DerivedStatus) == Some(Text(StatusText(Derive(to, flags))))
            && (!updatedAt.Undefined? ==> Lookup(m', Optional(UpdatedAt)) == Some(updatedAt))
            && (forall k | k !in {LifecycleState, DerivedStatus} && (k != Optional(UpdatedAt) || updatedAt.Undefined?) ::
                  SameAt(m, m', k))
  {
    hide Embed, StateText, StatusText, Derive;
  }

  /** What the normaliser reads off a transition's candidate. */
  lemma CandidateReads(policy: TextPolicy, s: Session, to: State, flags: Flags, updatedAt: Raw, t: Session)
    requires WellFormed(policy, s)
    ensures Reads(policy, Candidate(s, to, flags, updatedAt), t) <==>
            t == Moved(s, to, updatedAt) && Derive(to, flags) == Derive(to, NO_FLAGS) &&
            (updatedAt.Undefined? || ReadTimestamp(updatedAt).Ok?)
  {
    hide WellFormed, Embed, Candidate, Derive, StateText, StatusText, ReadsRefs, ReadsLists, ReadsFields, ReadsStatus,
         ReadIssues, ReadTimestamp, SameAt;
    var m, m' := Embed(s), Candidate(s, to, flags, updatedAt);
    WellFormedReads(policy, s);
    CandidateAt(s, to, flags, updatedAt);
    RefsFramed(policy, m, m', s, t);
    ListsFramed(policy, m, m', s, t);
    FieldsFramed(policy, m, m', s, updatedAt, t);
    IssuesFramed(policy, m, m');
    StatusRead(m', to, Derive(to, flags), t);
    assert Moved(s, to, updatedAt).optional == Moved(s, Planned, updatedAt).optional;
    SessionByParts(t, Moved(s, to, updatedAt));
  }

  lemma SessionByParts(a: Session, b: Session)
    ensures a == b <==>
            a.sessionRef == b.sessionRef && a.taskRef == b.taskRef && a.lifecycleState == b.lifecycleState &&
            a.derivedStatus == b.derivedStatus && a.refs == b.refs && a.optional == b.optional && a.issues == b.issues
  {}

  lemma MovedIsSafe(policy: TextPolicy, s: Session, to: State, updatedAt: Raw)
    requires SafeJson(policy, s)
    ensures SafeJson(policy, Moved(s, to, updatedAt)) <==>
            SafeString(policy, StateText(to)) && SafeString(policy, StatusText(Derive(to, NO_FLAGS))) &&
            (updatedAt.Text? ==> SafeString(policy, updatedAt.text))
  {
    hide SafeString, StateText, StatusText, Derive, SafeStrings, SafePublicIssue;
    var t := Moved(s, to, updatedAt);
    if updatedAt.Text? && SafeJson(policy, t) {
      assert UpdatedAt in t.optional;
    }
  }

  /** When a candidate normalises, and to what. */
  lemma CandidateNormalizes(policy: TextPolicy, s: Session, to: State, flags: Flags, updatedAt: Raw)
    requires WellFormed(policy, s)
    ensures var result := Normalize(policy, Record(Candidate(s, to, flags, updatedAt)));
            && (result.Ok? ==> result.value == Moved(s, to, updatedAt) && SafeJson(policy, result.value))
            && (result.Ok? <==> Derive(to, flags) == Derive(to, NO_FLAGS) && NamesAreSafe(policy, to) &&
                                TimestampOk(policy, updatedAt))
  {
    var m, t := Candidate(s, to, flags, updatedAt), Moved(s, to, updatedAt);
    assert SafeJson(policy, s) by {
      hide SafeJson;
    }
    MovedIsSafe(policy, s, to, updatedAt);
    hide WellFormed, SafeJson, Candidate, Derive, SafeString, StateText, StatusText, ReadTimestamp, Reads;
    var result := Normalize(policy, Record(m));
    hide Normalize, Moved;
    CandidateReads(policy, s, to, flags, updatedAt, t);
    NormalizesExactly(policy, m, t);
    if result.Ok? {
      NormalizesExactly(policy, m, result.value);
      CandidateReads(policy, s, to, flags, updatedAt, result.value);
    }
    TimestampIsItself(updatedAt);
  }

  /** The project's text filter lets the names of this state and of its status through. */
  ghost predicate NamesAreSafe(policy: TextPolicy, to: State) {
    SafeString(policy, StateText(to)) && SafeString(policy, StatusText(Derive(to, NO_FLAGS)))
  }

  lemma MovedIsSameCreation(s: Session, to: State, updatedAt: Raw, first: Session)
    requires SameCreation(first, s)
    ensures SameCreation(first, Moved(s, to, updatedAt))
  {
    hide Derive;
    assert Moved(s, to, updatedAt).optional - {UpdatedAt} == s.optional - {UpdatedAt};
  }

  lemma PutMovedKeeps(policy: TextPolicy, c: Contents, r: string, to: State, updatedAt: Raw)
    requires Inv(policy, c) && r in c.sessions && WellFormed(policy, Moved(c.sessions[r], to, updatedAt))
    ensures var after := Put(c, Moved(c.sessions[r], to, updatedAt));
            Inv(policy, after) && after.order == c.order && after.records == c.records &&
            after.sessions == c.sessions[r := Moved(c.sessions[r], to, updatedAt)]
  {
    hide WellFormed, SameCreation, SessionOk, RecordOk;
    var s, t := c.sessions[r], Moved(c.sessions[r], to, updatedAt);
    var after := Put(c, t);
    OwnRef(policy, c, r);
    hide Moved;
    forall q | q in after.sessions
      ensures SessionOk(policy, after, q)
    {
      MovedSessionOk(policy, c, r, t, q);
    }
    forall k | k in after.records
      ensures RecordOk(after, k)
    {
      MovedRecordOk(c, r, to, updatedAt, k);
    }
  }

  lemma OwnRef(policy: TextPolicy, c: Contents, r: string)
    requires Inv(policy, c) && r in c.sessions
    ensures c.sessions[r].sessionRef == r
  {
    hide WellFormed, OrderOk, RecordOk;
    assert SessionOk(policy, c, r);
  }

  lemma MovedSessionOk(policy: TextPolicy, c: Contents, r: string, t: Session, q: string)
    requires r in c.sessions && q in c.sessions && SessionOk(policy, c, q) && WellFormed(policy, t)
    requires t.sessionRef == r && Lookup(t.optional, IdempotencyRef) == Lookup(c.sessions[r].optional, IdempotencyRef)
    ensures SessionOk(policy, Contents(c.sessions[r := t], c.order, c.records), q)
  {
    hide WellFormed;
  }

  lemma MovedRecordOk(c: Contents, r: string, to: State, updatedAt: Raw, k: string)
    requires r in c.sessions && k in c.records && RecordOk(c, k)
    ensures RecordOk(Contents(c.sessions[r := Moved(c.sessions[r], to, updatedAt)], c.order, c.records), k)
  {
    if c.records[k].sessionRef == r {
      MovedIsSameCreation(c.sessions[r], to, updatedAt, c.records[k].fingerprint);
    }
    hide SameCreation;
  }

  /** The flags would give the state another derived status; only the value true raises a flag. */
  ghost predicate FlagsShow(to: State, flags: FlagInput) {
    && flags.FlagInput?
    && to !in {Completed, Failed, Cancelled, Expired, Archived, ApprovalRequired, WaitingForApproval}
    && (flags.blocked == Bool(true) || flags.stale == Bool(true) || flags.degraded == Bool(true))
    && (to == WaitingForInput ==> flags.blocked != Bool(true))
  }

  lemma FlagsShowOnInput(to: State, flags: FlagInput)
    ensures Derive(to, ReadFlags(flags)) != Derive(to, NO_FLAGS) <==> FlagsShow(to, flags)
  {
    FlagsShowExactly(to, ReadFlags(flags));
    hide Derive;
  }

  /** When a transition is accepted, and the whole effect it then has. */
  ghost predicate Accepts(policy: TextPolicy, c: Contents, input: TransitionInput, s: Session, to: State) {
    && s.sessionRef in c.sessions && c.sessions[s.sessionRef] == s && input.sessionRef == Text(s.sessionRef)
    && input.lifecycleState.Text? && LegalMove(s.lifecycleState, input.lifecycleState.text, to)
    && !FlagsShow(to, input.statusFlags)
    && NamesAreSafe(policy, to) && TimestampOk(policy, input.updatedAt)
  }

  lemma TransitionKeeps(policy: TextPolicy, c: Contents, input: Option<TransitionInput>)
    requires Inv(policy, c)
    ensures var (after, outcome) := TransitionOn(policy, c, input);
            && Inv(policy, after) && after.order == c.order && after.records == c.records
            && (outcome.Rejected? ==> outcome.code != UnsafeOutput)
            && (!outcome.Updated? ==> after == c)
            && (outcome.Updated? ==> input.Some?)
            && (outcome.Updated? ==> exists s, to ::
                  && Accepts(policy, c, input.value, s, to) && outcome.session == Moved(s, to, input.value.updatedAt)
                  && after == c.(sessions := c.sessions[s.sessionRef := outcome.session]))
  {
    if input.Some? && FindOn(policy, c, input.value.sessionRef).Some? {
      var s := FindOn(policy, c, input.value.sessionRef).value;
      FoundUnderItsRef(policy, c, input.value.sessionRef);
      StoredIsOk(policy, c, s.sessionRef);
      var valid := ValidateTransition(s.lifecycleState, input.value.lifecycleState);
      hide Inv, FindOn, WellFormed, Normalize, Moved, Candidate, SafeJson, Put, ReadFlags, Derive, NamesAreSafe, TimestampOk,
           FlagsShow;
      if valid.Ok? {
        FlagsShowOnInput(valid.value, input.value.statusFlags);
        TransitionValidates(s.lifecycleState, input.value.lifecycleState, valid.value);
        var flags, updatedAt := ReadFlags(input.value.statusFlags), input.value.updatedAt;
        CandidateNormalizes(policy, s, valid.value, flags, updatedAt);
        hide ValidateTransition, LegalMove, StateText;
        var normalized := Normalize(policy, Record(Candidate(s, valid.value, flags, updatedAt)));
        if normalized.Ok? {
          NormalizeGivesWellFormed(policy, Record(Candidate(s, valid.value, flags, updatedAt)));
          PutMovedKeeps(policy, c, s.sessionRef, valid.value, updatedAt);
          assert Accepts(policy, c, input.value, s, valid.value);
        }
      }
    }
  }

  lemma AcceptedIsTaken(policy: TextPolicy, c: Contents, input: TransitionInput, s: Session, to: State)
    requires Inv(policy, c) && Accepts(policy, c, input, s, to)
    ensures TransitionOn(policy, c, Some(input)) ==
            (c.(sessions := c.sessions[s.sessionRef := Moved(s, to, input.updatedAt)]),
             Updated(Moved(s, to, input.updatedAt)))
  {
    hide Inv, FindOn, WellFormed, Normalize, Moved, Candidate, SafeJson, ReadFlags, Derive, NamesAreSafe, TimestampOk,
         ValidateTransition, LegalMove, StateText, FlagsShow;
    FlagsShowOnInput(to, input.statusFlags);
    StoredIsOk(policy, c, s.sessionRef);
    StoredIsFound(policy, c, s.sessionRef);
    TransitionValidates(s.lifecycleState, input.lifecycleState, to);
    CandidateNormalizes(policy, s, to, ReadFlags(input.statusFlags), input.updatedAt);
    MovedKeepsRef(s, to, input.updatedAt);
  }

  /** Some move of the diagram is asked for. */
  ghost predicate AsksLegalMove(from: State, value: Raw) {
    value.Text? && exists to :: LegalMove(from, value.text, to)
  }

  lemma ValidatesExactly(from: State, value: Raw)
    ensures ValidateTransition(from, value).Ok? <==> AsksLegalMove(from, value)
  {
    hide LegalMove;
    forall to
      ensures ValidateTransition(from, value) == Ok(to) <==> value.Text? && LegalMove(from, value.text, to)
    {
      TransitionValidates(from, value, to);
    }
    hide ValidateTransition;
    if ValidateTransition(from, value).Ok? {
      assert LegalMove(from, value.text, ValidateTransition(from, value).value);
    }
  }

  /** Which error a refused transition reports; what the diagram allows can only fail as an invalid session. */
  lemma TransitionRefusedExactly(policy: TextPolicy, c: Contents, input: Option<TransitionInput>)
    requires Inv(policy, c)
    ensures var outcome := TransitionOn(policy, c, input).1;
            var stored := input.Some? && input.value.sessionRef.Text? && input.value.sessionRef.text in c.sessions;
            var legal := stored && AsksLegalMove(c.sessions[input.value.sessionRef.text].lifecycleState,
                                                 input.value.lifecycleState);
            && (outcome == Rejected(InvalidRequest, []) <==> input.None?)
            && (outcome == Rejected(NotFound, []) <==> input.Some? && !stored)
            && (outcome.Rejected? && outcome.code == TransitionRefused <==> stored && !legal)
            && (outcome.Updated? || (outcome.Rejected? && outcome.code == InvalidSession) <==> legal)
  {
    hide Inv, FindOn, Normalize, Candidate, SafeJson, Put, ReadFlags, LegalMove, ValidateTransition, AsksLegalMove, Accepts,
         Moved;
    TransitionKeeps(policy, c, input);
    if input.Some? {
      var ref := input.value.sessionRef;
      FoundUnderItsRef(policy, c, ref);
      if ref.Text? && ref.text in c.sessions {
        StoredIsFound(policy, c, ref.text);
        ValidatesExactly(c.sessions[ref.text].lifecycleState, input.value.lifecycleState);
      }
    }
  }

  lemma MovedKeepsRef(s: Session, to: State, updatedAt: Raw)
    ensures Moved(s, to, updatedAt).sessionRef == s.sessionRef
  {}

  lemma StoredIsFound(policy: TextPolicy, c: Contents, r: string)
    requires Inv(policy, c) && r in c.sessions
    ensures FindOn(policy, c, Text(r)) == Some(c.sessions[r])
  {
    hide OrderOk, RecordOk, SafeJson, ValidateRef;
    assert SessionOk(policy, c, r);
  }

  lemma TransitionValidates(from: State, value: Raw, to: State)
    ensures ValidateTransition(from, value) == Ok(to) <==> value.Text? && LegalMove(from, value.text, to)
  {
    hide Parse, StateText, CanTransition, LegalMove;
    StateTextParses(to);
    if value.Text? {
      ParseFinds(value.text, STATES, StateText);
      TransitionsExactly(from, value.text, to);
    }
  }
}
