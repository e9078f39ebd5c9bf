/**
 Whole runs of the session store.  `Get`, `Resume` and `ListSessions` change nothing, so a run is a
 sequence of creates and transitions, accepted or not.
 */
module SessionRuns {
  import opened Common
  import opened SessionModel
  import opened SessionNormalForm
  import opened SessionContents

  datatype Op = Create(create: Option<CreateInput>) | Transition(transition: Option<TransitionInput>)

  function Step(policy: TextPolicy, c: Contents, op: Op): Contents {
    match op
    case Create(input) => CreateOn(policy, c, input).0
    case Transition(input) => TransitionOn(policy, c, input).0
  }

  function Run(policy: TextPolicy, c: Contents, ops: seq<Op>): Contents
    decreases |ops|
  {
    if ops == [] then c else Run(policy, Step(policy, c, ops[0]), ops[1..])
  }

  /** How a stored session may have changed: never back to an earlier phase, and not at all once archived. */
  ghost predicate Later(a: Session, b: Session) {
    && SameCreation(a, b) && Rank(a.lifecycleState) <= Rank(b.lifecycleState)
    && (a.lifecycleState == Archived ==> b == a)
  }

  /** Everything that later contents keep. */
  ghost predicate Extends(c: Contents, d: Contents) {
    && c.order <= d.order
    && (forall k | k in c.records :: k in d.records && d.records[k] == c.records[k])
    && (forall r | r in c.sessions :: r in d.sessions && Later(c.sessions[r], d.sessions[r]))
  }

  lemma LaterChains(a: Session, b: Session, c: Session)
    requires Later(a, b) && Later(b, c)
    ensures Later(a, c)
  {
    hide Rank;
  }

  lemma ExtendsChains(c: Contents, d: Contents, e: Contents)
    requires Extends(c, d) && Extends(d, e)
    ensures Extends(c, e)
  {
    hide Later;
    forall r | r in c.sessions
      ensures r in e.sessions && Later(c.sessions[r], e.sessions[r])
    {
      LaterChains(c.sessions[r], d.sessions[r], e.sessions[r]);
    }
  }

  lemma LaterItself(s: Session)
    ensures Later(s, s)
  {}

  lemma ExtendsItself(c: Contents)
    ensures Extends(c, c)
  {
    hide Later;
    forall r | r in c.sessions
      ensures Later(c.sessions[r], c.sessions[r])
    {
      LaterItself(c.sessions[r]);
    }
  }

  lemma MovedIsLater(s: Session, text: string, to: State, updatedAt: Raw)
    requires LegalMove(s.lifecycleState, text, to)
    ensures Later(s, Moved(s, to, updatedAt))
  {
    SameCreationItself(s);
    MovedIsSameCreation(s, to, updatedAt, s);
    TransitionsExactly(s.lifecycleState, text, to);
    TransitionsAscend(s.lifecycleState, to);
    hide SameCreation, Rank, Derive, LegalMove, CanTransition, StateText;
  }

  /** One operation keeps the invariant, and only ever extends the contents. */
  lemma StepKeeps(policy: TextPolicy, c: Contents, op: Op)
    requires Inv(policy, c)
    ensures Inv(policy, Step(policy, c, op)) && Extends(c, Step(policy, c, op))
  {
    hide Inv, CreateOn, TransitionOn, Later, Accepts, LegalMove, Moved;
    ExtendsItself(c);
    match op
    case Create(input) =>
      CreateKeeps(policy, c, input);
      CreateExtends(policy, c, input);
    case Transition(input) =>
      TransitionKeeps(policy, c, input);
      var (after, outcome) := TransitionOn(policy, c, input);
      if outcome.Updated? {
        var s, to :| Accepts(policy, c, input.value, s, to) && outcome.session == Moved(s, to, input.value.updatedAt)
                     && after == c.(sessions := c.sessions[s.sessionRef := outcome.session]);
        AcceptedMoves(policy, c, input.value, s, to);
      }
  }

  lemma AcceptedMoves(policy: TextPolicy, c: Contents, input: TransitionInput, s: Session, to: State)
    requires Accepts(policy, c, input, s, to)
    ensures s.sessionRef in c.sessions && c.sessions[s.sessionRef] == s && Later(s, Moved(s, to, input.updatedAt))
  {
    hide Moved, Later, LegalMove, FlagsShow, NamesAreSafe, TimestampOk;
    MovedIsLater(s, input.lifecycleState.text, to, input.updatedAt);
  }

  lemma CreateExtends(policy: TextPolicy, c: Contents, input: Option<CreateInput>)
    ensures Extends(c, CreateOn(policy, c, input).0)
  {
    hide Later, Normalize, SafeIdempotencyRef, Prefix;
    ExtendsItself(c);
  }

  /** Every run keeps the invariant and extends what it started from. */
  lemma {:induction false} RunKeeps(policy: TextPolicy, c: Contents, ops: seq<Op>)
    requires Inv(policy, c)
    ensures Inv(policy, Run(policy, c, ops)) && Extends(c, Run(policy, c, ops))
    decreases |ops|
  {
    hide Inv, Extends, Step;
    if ops == [] {
      ExtendsItself(c);
    } else {
      StepKeeps(policy, c, ops[0]);
      RunKeeps(policy, Step(policy, c, ops[0]), ops[1..]);
      ExtendsChains(c, Step(policy, c, ops[0]), Run(policy, c, ops));
    }
  }

  lemma EmptyIsFine(policy: TextPolicy)
    ensures Inv(policy, EMPTY)
  {}

  // ----- theorems about every run -----

  /** The two maps stay in bijection, each session under its own ref with the status its state derives. */
  lemma MapsAgree(policy: TextPolicy, ops: seq<Op>)
    ensures var c := Run(policy, EMPTY, ops);
            && (forall r | r in c.sessions ::
                  var s := c.sessions[r];
                  s.sessionRef == r && s.derivedStatus == Derive(s.lifecycleState, NO_FLAGS) &&
                  Normalize(policy, Record(Embed(s))) == Ok(s) &&
                  IdempotencyRef in s.optional && s.optional[IdempotencyRef] in c.records &&
                  c.records[s.optional[IdempotencyRef]].sessionRef == r)
            && (forall k | k in c.records ::
                  c.records[k].sessionRef in c.sessions &&
                  Lookup(c.sessions[c.records[k].sessionRef].optional, IdempotencyRef) == Some(k))
            && (forall r :: r in c.order <==> r in c.sessions)
  {
    EmptyIsFine(policy);
    RunKeeps(policy, EMPTY, ops);
    var c := Run(policy, EMPTY, ops);
    hide Run, Normalize, Embed, OrderOk, SessionOk, RecordOk;
    forall r | r in c.sessions
      ensures var s := c.sessions[r];
              s.sessionRef == r && s.derivedStatus == Derive(s.lifecycleState, NO_FLAGS) &&
              Normalize(policy, Record(Embed(s))) == Ok(s) &&
              IdempotencyRef in s.optional && s.optional[IdempotencyRef] in c.records &&
              c.records[s.optional[IdempotencyRef]].sessionRef == r
    {
      SessionFacts(policy, c, r);
      FixedExactlyWhenWellFormed(policy, c.sessions[r]);
    }
    forall k | k in c.records
      ensures c.records[k].sessionRef in c.sessions &&
              Lookup(c.sessions[c.records[k].sessionRef].optional, IdempotencyRef) == Some(k)
    {
      RecordFacts(c, k);
    }
    assert OrderOk(c);
    OrderFacts(c);
  }

  lemma SessionFacts(policy: TextPolicy, c: Contents, r: string)
    requires r in c.sessions && SessionOk(policy, c, r)
    ensures var s := c.sessions[r];
            s.sessionRef == r && s.derivedStatus == Derive(s.lifecycleState, NO_FLAGS) && WellFormed(policy, s) &&
            IdempotencyRef in s.optional && s.optional[IdempotencyRef] in c.records &&
            c.records[s.optional[IdempotencyRef]].sessionRef == r
  {
    hide SafeJson, Derive;
  }

  lemma RecordFacts(c: Contents, k: string)
    requires k in c.records && RecordOk(c, k)
    ensures c.records[k].sessionRef in c.sessions &&
            Lookup(c.sessions[c.records[k].sessionRef].optional, IdempotencyRef) == Some(k)
  {
    hide SameCreation;
  }

  lemma OrderFacts(c: Contents)
    requires OrderOk(c)
    ensures forall r :: r in c.order <==> r in c.sessions
  {}

  /** Repeating a create that succeeded replays it, whatever happened in between, and changes nothing. */
  lemma CreateReplays(policy: TextPolicy, c: Contents, input: CreateInput, ops: seq<Op>)
    requires Inv(policy, c)
    requires CreateOn(policy, c, Some(input)).1.Created? || CreateOn(policy, c, Some(input)).1.Replayed?
    ensures var first := CreateOn(policy, c, Some(input));
            var after := Run(policy, first.0, ops);
            first.1.session.sessionRef in after.sessions &&
            CreateOn(policy, after, Some(input)) == (after, Replayed(after.sessions[first.1.session.sessionRef])) &&
            Later(first.1.session, after.sessions[first.1.session.sessionRef])
  {
    hide Normalize, SafeIdempotencyRef, Prefix, Inv, Later;
    var (mid, outcome) := CreateOn(policy, c, Some(input));
    var after := Run(policy, mid, ops);
    hide Run;
    CreateKeeps(policy, c, Some(input));
    RunKeeps(policy, mid, ops);
    var k := input.idempotencyRef.text;
    if outcome.Replayed? {
      RecordPointsToStored(policy, c, k);
      OwnRef(policy, c, c.records[k].sessionRef);
    }
    assert mid.records[k].sessionRef == outcome.session.sessionRef;
  }

  /** Reusing the idempotency ref for a different session is refused, whatever happened in between. */
  lemma DifferentSessionConflicts(policy: TextPolicy, c: Contents, input: CreateInput, ops: seq<Op>, other: CreateInput)
    requires Inv(policy, c)
    requires CreateOn(policy, c, Some(input)).1.Created? || CreateOn(policy, c, Some(input)).1.Replayed?
    requires other.idempotencyRef == input.idempotencyRef
    requires Normalize(policy, other.session).Ok?
    requires Lookup(Normalize(policy, other.session).value.optional, IdempotencyRef) == Some(other.idempotencyRef.text)
    requires Normalize(policy, other.session) != Normalize(policy, input.session)
    ensures var after := Run(policy, CreateOn(policy, c, Some(input)).0, ops);
            CreateOn(policy, after, Some(other)) == (after, Rejected(IdempotencyConflict, []))
  {
    hide Normalize, SafeIdempotencyRef, Prefix, Inv, Later;
    var (mid, outcome) := CreateOn(policy, c, Some(input));
    var after := Run(policy, mid, ops);
    hide Run;
    CreateKeeps(policy, c, Some(input));
    RunKeeps(policy, mid, ops);
    assert mid.records[input.idempotencyRef.text].fingerprint == Normalize(policy, input.session).value;
  }

  /** A created session can be found ever after, with nothing but state, status and time changed. */
  lemma CreatedIsFound(policy: TextPolicy, c: Contents, input: CreateInput, ops: seq<Op>)
    requires Inv(policy, c) && CreateOn(policy, c, Some(input)).1.Created?
    ensures var session := CreateOn(policy, c, Some(input)).1.session;
            var after := Run(policy, CreateOn(policy, c, Some(input)).0, ops);
            var found := FindOn(policy, after, Text(session.sessionRef));
            found.Some? && Later(session, found.value) && Normalize(policy, input.session) == Ok(session)
  {
    hide Normalize, SafeIdempotencyRef, Prefix, Inv, Later, FindOn;
    var (mid, outcome) := CreateOn(policy, c, Some(input));
    CreateKeeps(policy, c, Some(input));
    RunKeeps(policy, mid, ops);
    assert mid.sessions[outcome.session.sessionRef] == outcome.session;
    hide Run;
    StoredIsFound(policy, Run(policy, mid, ops), outcome.session.sessionRef);
  }

  /** A session ref, once taken, is refused to every other idempotency ref that is still free. */
  lemma TakenRefIsRefused(policy: TextPolicy, c: Contents, ops: seq<Op>, other: CreateInput)
    requires Inv(policy, c)
    requires Normalize(policy, other.session).Ok? && Normalize(policy, other.session).value.sessionRef in c.sessions
    requires other.idempotencyRef.Text? && SafeIdempotencyRef(other.idempotencyRef.text)
    requires Lookup(Normalize(policy, other.session).value.optional, IdempotencyRef) == Some(other.idempotencyRef.text)
    requires other.idempotencyRef.text !in Run(policy, c, ops).records
    ensures var after := Run(policy, c, ops);
            CreateOn(policy, after, Some(other)) == (after, Rejected(SessionConflict, []))
  {
    hide Normalize, SafeIdempotencyRef, Prefix, Inv, Later, Run;
    RunKeeps(policy, c, ops);
  }

  /** An archived session refuses every transition, for good. */
  lemma ArchivedStaysArchived(policy: TextPolicy, c: Contents, r: string, ops: seq<Op>, input: TransitionInput)
    requires Inv(policy, c) && r in c.sessions && c.sessions[r].lifecycleState == Archived
    requires input.sessionRef == Text(r)
    ensures var after := Run(policy, c, ops);
            && r in after.sessions && after.sessions[r] == c.sessions[r]
            && TransitionOn(policy, after, Some(input)).0 == after
            && TransitionOn(policy, after, Some(input)).1.Rejected?
            && TransitionOn(policy, after, Some(input)).1.code == TransitionRefused
  {
    hide Normalize, Inv, Run, FindOn, SafeJson, Candidate, Parse;
    RunKeeps(policy, c, ops);
    assert Later(c.sessions[r], Run(policy, c, ops).sessions[r]);
    StoredIsFound(policy, Run(policy, c, ops), r);
  }

  /** The same listing later starts with the same sessions: lists are prefixes of the creation order. */
  lemma ListingsOnlyGrow(policy: TextPolicy, c: Contents, ops: seq<Op>, max: nat, input: Option<ListInput>)
    requires Inv(policy, c)
    ensures var d := Run(policy, c, ops);
            AllStored(c) && AllStored(d) &&
            var before, after := ListOn(c, max, input), ListOn(d, max, input);
            && (before.Listed? <==> after.Listed?)
            && (before.Listed? ==>
                  && |before.sessions| <= before.limit == after.limit
                  && |before.sessions| <= |after.sessions|
                  && forall i | 0 <= i < |before.sessions| ::
                       && before.sessions[i].sessionRef == c.order[i]
                       && Later(before.sessions[i], after.sessions[i]))
  {
    hide Inv, Later, ReadLimit;
    var d := Run(policy, c, ops);
    RunKeeps(policy, c, ops);
    hide Run;
    InvStoresOrder(policy, c);
    InvStoresOrder(policy, d);
    forall r | r in c.sessions
      ensures c.sessions[r].sessionRef == r
    {
      OwnRef(policy, c, r);
    }
    assert forall i | 0 <= i < |c.order| :: d.order[i] == c.order[i];
  }

  // ----- the state diagram on runs -----

  const WORKING := {Active, WaitingForInput, WaitingForApproval, ProducingOutput}

  /** What an accepted transition moves: the addressed session, along an edge of the diagram; no other session. */
  lemma TransitionMoves(policy: TextPolicy, c: Contents, input: Option<TransitionInput>)
    requires Inv(policy, c) && TransitionOn(policy, c, input).1.Updated?
    ensures input.Some? && input.value.sessionRef.Text? && input.value.lifecycleState.Text?
    ensures var (after, r) := (TransitionOn(policy, c, input).0, input.value.sessionRef.text);
            && r in c.sessions && r in after.sessions
            && LegalMove(c.sessions[r].lifecycleState, input.value.lifecycleState.text, after.sessions[r].lifecycleState)
            && after.sessions == c.sessions[r := after.sessions[r]]
  {
    hide Inv, TransitionOn, LegalMove, FlagsShow, NamesAreSafe, TimestampOk;
    TransitionKeeps(policy, c, input);
    var (after, outcome) := TransitionOn(policy, c, input);
    var s, to :| Accepts(policy, c, input.value, s, to) && outcome.session == Moved(s, to, input.value.updatedAt)
                 && after == c.(sessions := c.sessions[s.sessionRef := outcome.session]);
  }

  /** Work is entered by two edges only, and planned leads only to requested or to an end. */
  ghost predicate NoPhaseSkipped(from: State, to: State) {
    && (to in WORKING && from !in WORKING ==> (from, to) in {(Starting, Active), (ApprovalRequired, WaitingForApproval)})
    && (from == Planned ==> to in {Requested, Cancelled, Expired})
    && (from in {Completed, Failed, Cancelled, Expired} ==> to == Archived)
    && from != Archived
  }

  lemma MoveSkipsNoPhase(from: State, text: string, to: State)
    requires LegalMove(from, text, to)
    ensures NoPhaseSkipped(from, to)
  {}

  lemma TransitionSkipsNoPhase(policy: TextPolicy, c: Contents, input: Option<TransitionInput>)
    requires Inv(policy, c) && TransitionOn(policy, c, input).1.Updated?
    ensures input.Some? && input.value.sessionRef.Text?
    ensures var (after, r) := (TransitionOn(policy, c, input).0, input.value.sessionRef.text);
            && r in c.sessions && r in after.sessions
            && NoPhaseSkipped(c.sessions[r].lifecycleState, after.sessions[r].lifecycleState)
  {
    hide Inv, TransitionOn, LegalMove, NoPhaseSkipped;
    TransitionMoves(policy, c, input);
    var (after, r) := (TransitionOn(policy, c, input).0, input.value.sessionRef.text);
    MoveSkipsNoPhase(c.sessions[r].lifecycleState, input.value.lifecycleState.text, after.sessions[r].lifecycleState);
  }

  /** The states a stored session goes through in a run, one before each operation and one at the end. */
  function StatesOf(policy: TextPolicy, c: Contents, r: string, ops: seq<Op>): seq<State>
    decreases |ops|
  {
    if r !in c.sessions then []
    else [c.sessions[r].lifecycleState] +
         (if ops == [] then [] else StatesOf(policy, Step(policy, c, ops[0]), r, ops[1..]))
  }

  ghost predicate IsPath(states: seq<State>) {
    forall i | 0 <= i < |states| - 1 ::
      states[i + 1] == states[i] || NoPhaseSkipped(states[i], states[i + 1])
  }

  lemma StepFollowsDiagram(policy: TextPolicy, c: Contents, r: string, op: Op)
    requires Inv(policy, c) && r in c.sessions
    ensures var next := Step(policy, c, op);
            && r in next.sessions
            && (next.sessions[r].lifecycleState == c.sessions[r].lifecycleState ||
                NoPhaseSkipped(c.sessions[r].lifecycleState, next.sessions[r].lifecycleState))
  {
    hide Inv, CreateOn, TransitionOn, NoPhaseSkipped, LegalMove, Later, Accepts, Moved;
    match op
    case Create(input) => CreateKeepsSessions(policy, c, input, r);
    case Transition(input) =>
      if TransitionOn(policy, c, input).1.Updated? {
        TransitionMoves(policy, c, input);
        TransitionSkipsNoPhase(policy, c, input);
      } else {
        TransitionKeeps(policy, c, input);
      }
  }

  lemma CreateKeepsSessions(policy: TextPolicy, c: Contents, input: Option<CreateInput>, r: string)
    requires r in c.sessions
    ensures var after := CreateOn(policy, c, input).0; r in after.sessions && after.sessions[r] == c.sessions[r]
  {
    hide Normalize, SafeIdempotencyRef, Prefix;
  }

  /** In every run, a stored session only ever moves along the diagram. */
  lemma {:induction false} RunFollowsDiagram(policy: TextPolicy, c: Contents, r: string, ops: seq<Op>)
    requires Inv(policy, c) && r in c.sessions
    ensures var states, end := StatesOf(policy, c, r, ops), Run(policy, c, ops);
            && |states| == |ops| + 1 && IsPath(states) && states[0] == c.sessions[r].lifecycleState
            && r in end.sessions && states[|ops|] == end.sessions[r].lifecycleState
    decreases |ops|
  {
    hide Inv, Step, NoPhaseSkipped;
    if ops != [] {
      var next := Step(policy, c, ops[0]);
      StepKeeps(policy, c, ops[0]);
      StepFollowsDiagram(policy, c, r, ops[0]);
      RunFollowsDiagram(policy, next, r, ops[1..]);
      PathExtends(c.sessions[r].lifecycleState, StatesOf(policy, next, r, ops[1..]));
    }
  }

  lemma PathExtends(first: State, rest: seq<State>)
    requires IsPath(rest) && rest != [] && (rest[0] == first || NoPhaseSkipped(first, rest[0]))
    ensures IsPath([first] + rest)
  {
    hide NoPhaseSkipped;
    var states := [first] + rest;
    forall i | 0 <= i < |states| - 1
      ensures states[i + 1] == states[i] || NoPhaseSkipped(states[i], states[i + 1])
    {
      if i > 0 {
        assert rest[i - 1] == states[i];
      }
    }
  }

  ghost predicate EntersAt(states: seq<State>, k: nat) {
    && k + 1 < |states|
    && (states[k], states[k + 1]) in {(Starting, Active), (ApprovalRequired, WaitingForApproval)}
  }

  lemma {:induction false} PathEntersWork(states: seq<State>, n: nat)
    requires IsPath(states) && n < |states|
    requires states[0] !in WORKING && states[n] in WORKING
    ensures exists k :: EntersAt(states, k)
  {
    if states[n - 1] in WORKING {
      PathEntersWork(states, n - 1);
    } else {
      assert EntersAt(states, n - 1);
    }
  }

  lemma {:induction false} PathIsRequested(states: seq<State>, n: nat)
    requires IsPath(states) && n < |states|
    requires states[0] == Planned && states[n] !in {Planned, Cancelled, Expired, Archived}
    ensures Requested in states
  {
    if states[n - 1] !in {Planned, Cancelled, Expired, Archived} {
      PathIsRequested(states, n - 1);
    } else {
      assert states[n] == Requested;
    }
  }

  /** A stored session that comes to work in a run has passed one of the two ways in; a planned one was requested. */
  lemma WorkIsEarned(policy: TextPolicy, c: Contents, r: string, ops: seq<Op>)
    requires Inv(policy, c) && r in c.sessions && c.sessions[r].lifecycleState !in WORKING
    requires r in Run(policy, c, ops).sessions && Run(policy, c, ops).sessions[r].lifecycleState in WORKING
    ensures exists k :: EntersAt(StatesOf(policy, c, r, ops), k)
    ensures c.sessions[r].lifecycleState == Planned ==> Requested in StatesOf(policy, c, r, ops)
  {
    hide Inv, Run, StatesOf, IsPath;
    RunFollowsDiagram(policy, c, r, ops);
    PathEntersWork(StatesOf(policy, c, r, ops), |ops|);
    if c.sessions[r].lifecycleState == Planned {
      PathIsRequested(StatesOf(policy, c, r, ops), |ops|);
    }
  }

  // ----- phases -----

  /** How many operations of a run move this session to another phase. */
  function PhaseMoves(policy: TextPolicy, c: Contents, r: string, ops: seq<Op>): nat
    decreases |ops|
  {
    if ops == [] then 0
    else
      var next := Step(policy, c, ops[0]);
      (if Phase(c, r) != None && Phase(c, r) != Phase(next, r) then 1 else 0) + PhaseMoves(policy, next, r, ops[1..])
  }

  function Phase(c: Contents, r: string): Option<nat> {
    if r in c.sessions then Some(Rank(c.sessions[r].lifecycleState)) else None
  }

  function Begun(c: Contents, r: string): nat {
    if r in c.sessions then Rank(c.sessions[r].lifecycleState) else 0
  }

  /** No session ever moves to another phase more than six times. */
  lemma {:induction false} PhaseMovesAreBounded(policy: TextPolicy, c: Contents, r: string, ops: seq<Op>)
    requires Inv(policy, c)
    ensures Begun(c, r) + PhaseMoves(policy, c, r, ops) <= 6
    decreases |ops|
  {
    hide Inv, Step;
    if ops != [] {
      var next := Step(policy, c, ops[0]);
      StepKeeps(policy, c, ops[0]);
      PhaseMovesAreBounded(policy, next, r, ops[1..]);
    }
  }
}
