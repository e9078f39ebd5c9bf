/** When the client is called, what a decision covers, and what the reported result can be trusted for. */
module ApprovalGuarantees {
  import opened Common
  import opened CodeUnits
  import opened OcaOperations
  import opened ApprovalRuntime
  import S = SessionModel
  import Checksum
  import Hex

  // ----- well-formed requests and matching decisions -----

  ghost predicate PublicRefOk(f: Filters, m: map<Name, Raw>, name: Name, prefix: string) {
    name in m ==> SafePublicRef(f, m[name], prefix)
  }

  /** A request the runtime understands: no unsafe property, valid refs, a valid operation input. */
  ghost predicate Understood(f: Filters, m: map<Name, Raw>, op: Operation) {
    && !HasUnsafeKey(f, m)
    && PublicRefOk(f, m, IdempotencyRef, "idempotency:") && PublicRefOk(f, m, RequestRef, "request:")
    && Approved !in m && WellFormed(f.session, m, op)
  }

  function TextAt(m: map<Name, Raw>, name: Name): Option<string> {
    if name in m && m[name].Text? then Some(m[name].text) else None
  }

  function ContextOf(m: map<Name, Raw>, op: Operation): Context {
    Context(m, op, TextAt(m, IdempotencyRef), TextAt(m, RequestRef))
  }

  function EffectWord(op: Operation): string {
    if op in READERS then "read-only" else if op == ReviewSubmit then "repository-mutation" else "external-effect"
  }

  lemma EffectWordIsText(op: Operation)
    ensures EffectText(PolicyOf(op).effect) == EffectWord(op)
  {}

  lemma AsksExactly(d: map<Name, Raw>, op: Operation)
    ensures Asks(d, op) <==> Lookup(d, OperationRef) == Some(Text(OperationText(op)))
  {
    hide OperationText, Names;
    if OperationRef in d && d[OperationRef].Text? {
      NamesExactly(d[OperationRef].text, op);
    }
  }

  /** A decision that grants this context's request: every scope agrees, and nothing else is said. */
  ghost predicate Grants(f: Filters, d: map<Name, Raw>, c: Context) {
    && (forall name | name in d :: AllowedDecisionKey(name))
    && Lookup(d, Kind) == Some(Text("explicit-approval")) && Lookup(d, Approved) == Some(Bool(true))
    && Asks(d, c.op) && Lookup(d, EffectName) == Some(Text(EffectWord(c.op)))
    && Lookup(d, RequirementRef) == Some(Text(RequirementRefOf(f, c)))
    && PublicRefOk(f, d, IdempotencyRef, "idempotency:") && TextAt(d, IdempotencyRef) == c.idempotencyRef
    && PublicRefOk(f, d, RequestRef, "request:") && TextAt(d, RequestRef) == c.requestRef
    && PublicRefOk(f, d, DecisionRef, "approval-decision:")
  }

  /** A safe ref is its prefix and a safe body, short and without unsafe text; the other checks are implied. */
  lemma SafeRefExactly(f: Filters, value: string, prefix: string)
    requires prefix != ""
    ensures SafePrefixedRef(f, value, prefix) <==>
            && prefix <= value && S.SafeBody(value[|prefix|..]) && JsLength(value) <= 96
            && !S.UnsafeText(f.runtime, value)
  {
    hide S.UnsafeText;
    if prefix <= value && S.SafeBody(value[|prefix|..]) {
      PlainLength(value[|prefix|..]);
    }
  }

  lemma PublicRefExactly(f: Filters, m: map<Name, Raw>, name: Name, prefix: string)
    ensures PublicRef(f, m, name, prefix).Ok? <==> PublicRefOk(f, m, name, prefix)
    ensures PublicRefOk(f, m, name, prefix) ==> PublicRef(f, m, name, prefix).value == TextAt(m, name)
  {
    hide SafePrefixedRef;
  }

  /** The eight properties a decision may have. */
  lemma AllowedExactly(name: Name)
    ensures AllowedDecisionKey(name) <==>
            || name.Kind? || name.Approved? || name.RequirementRef? || name.OperationRef? || name.EffectName?
            || name.IdempotencyRef? || name.RequestRef? || name.DecisionRef?
  {}

  lemma AllowedKeysAreSafe(f: Filters, d: map<Name, Raw>)
    requires forall name | name in d :: AllowedDecisionKey(name)
    ensures !HasUnsafeKey(f, d)
  {}

  lemma NothingRaised(a: seq<RuntimeIssue>, b: seq<RuntimeIssue>, c: seq<RuntimeIssue>, d: seq<RuntimeIssue>,
                      e: seq<RuntimeIssue>, g: seq<RuntimeIssue>, h: seq<RuntimeIssue>, i: seq<RuntimeIssue>,
                      j: seq<RuntimeIssue>, k: seq<RuntimeIssue>)
    ensures a + b + c + d + e + g + h + i + j + k == [] <==>
            a == b == c == d == e == g == h == i == j == k == []
  {}

  /** A decision raises no issue exactly when the operation needs one and it grants this request. */
  lemma DecisionAcceptedExactly(f: Filters, decision: Raw, c: Context)
    ensures DecisionIssues(f, decision, c) == [] <==>
            c.op !in READERS && decision.Record? && Grants(f, decision.fields, c)
  {
    hide AllowedDecisionKey, SafePublicRef, OperationText, EffectText, RequirementRefOf, PublicRef, PublicRefOk, TextAt,
         HasUnsafeKey, ApprovalOf, ReplayOf, Asks, EffectWord;
    TableExactly(c.op);
    if decision.Record? && PolicyOf(c.op).approval != ReadOnly {
      var m := decision.fields;
      if forall name | name in m :: AllowedDecisionKey(name) {
        AllowedKeysAreSafe(f, m);
        PublicRefExactly(f, m, IdempotencyRef, "idempotency:");
        PublicRefExactly(f, m, RequestRef, "request:");
        DecisionRefExactly(f, m);
        AsksExactly(m, c.op);
        EffectWordIsText(c.op);
        NothingRaised(
          Expect(m, Kind, Text("explicit-approval")), Expect(m, Approved, Bool(true)),
          Expect(m, OperationRef, Text(OperationText(c.op))),
          Expect(m, EffectName, Text(EffectText(PolicyOf(c.op).effect))),
          Expect(m, RequirementRef, Text(RequirementRefOf(f, c))),
          IssuesOf(PublicRef(f, m, IdempotencyRef, "idempotency:")), IssuesOf(PublicRef(f, m, RequestRef, "request:")),
          if DecisionRef in m && !SafePublicRef(f, m[DecisionRef], "approval-decision:")
          then [RuntimeIssue(BadApproval, Some(DecisionRef))] else [],
          ExpectRef(PublicRef(f, m, IdempotencyRef, "idempotency:"), IdempotencyRef, c.idempotencyRef),
          ExpectRef(PublicRef(f, m, RequestRef, "request:"), RequestRef, c.requestRef));
        hide PolicyOf;
      }
    }
  }

  lemma DecisionRefExactly(f: Filters, m: map<Name, Raw>)
    ensures PublicRefOk(f, m, DecisionRef, "approval-decision:") <==>
            !(DecisionRef in m && !SafePublicRef(f, m[DecisionRef], "approval-decision:"))
  {
    hide SafePublicRef;
  }

  // ----- the input handed to the operation handler -----

  lemma InputNames(name: Name)
    ensures name in InputKeys() <==>
            name.OperationRef? || name.FakeFailure? || name.InputSummary? || name.Ref?
  {
    var keys := InputKeys();
    match name
    case OperationRef => assert keys[0] == name;
    case FakeFailure => assert keys[1] == name;
    case InputSummary => assert keys[11] == name;
    case Ref(SessionRef) => assert keys[2] == name;
    case Ref(TaskRef) => assert keys[3] == name;
    case Ref(WorktreeRef) => assert keys[4] == name;
    case Ref(BranchRef) => assert keys[5] == name;
    case Ref(OutputRef) => assert keys[6] == name;
    case Ref(LogRef) => assert keys[7] == name;
    case Ref(DiffRef) => assert keys[8] == name;
    case Ref(ArtifactRef) => assert keys[9] == name;
    case Ref(ReviewRef) => assert keys[10] == name;
    case _ =>
  }

  ghost predicate SameAt(m: map<Name, Raw>, input: map<Name, Raw>, name: Name) {
    (name in input <==> name in m) && (name in m ==> input[name] == m[name])
  }

  /** Agreement on everything the handler looks at, except the approval marker. */
  ghost predicate Agree(m: map<Name, Raw>, input: map<Name, Raw>) {
    SameAt(m, input, OperationRef) && forall name | name in ReadOrder() && name != Approved :: SameAt(m, input, name)
  }

  lemma InputAgrees(m: map<Name, Raw>, approved: bool)
    ensures OperationInput(m, approved).Record?
    ensures var input := OperationInput(m, approved).fields;
            Agree(m, input) && Lookup(input, Approved) == if approved then Some(Bool(true)) else None
  {
    hide InputKeys, ReadOrder;
    forall name
      ensures name in InputKeys() <==> name.OperationRef? || name.FakeFailure? || name.InputSummary? || name.Ref?
      ensures name in ReadOrder() <==> name.Approved? || name.FakeFailure? || name.InputSummary? || name.Ref?
    {
      InputNames(name);
      ReadNames(name);
    }
  }

  lemma WellFormedTransfers(text: S.TextPolicy, m: map<Name, Raw>, input: map<Name, Raw>, op: Operation)
    requires Agree(m, input) && Approved !in m && (Approved in input ==> input[Approved].Bool?)
    ensures ReadOperation(input) == ReadOperation(m)
    ensures WellFormed(text, input, op) <==> WellFormed(text, m, op)
  {
    hide ReadOrder, ValidValue, Needs, ParseOperation, Names;
    forall f: RefField
      ensures SameAt(m, input, Ref(f))
    {
      ReadNames(Ref(f));
    }
    ApprovedIsAnyFlag(text);
    hide ReadOperation;
    assert forall name | name in ReadOrder() && name in m :: name != Approved && SameAt(m, input, name);
    assert forall name | name in ReadOrder() && name in input && name != Approved :: SameAt(m, input, name);
  }

  lemma ApprovedIsAnyFlag(text: S.TextPolicy)
    ensures forall flag :: ValidValue(text, Approved, Bool(flag))
  {}

  /** What the client is sent: every property of the request the handler knows, except the summary. */
  function Sent(m: map<Name, Raw>, op: Operation): ClientRequest {
    ClientRequest(op, EffectOn(op), Present(m) - {InputSummary, Approved})
  }

  lemma SentAgrees(m: map<Name, Raw>, input: map<Name, Raw>)
    requires Agree(m, input)
    ensures Present(input) - {InputSummary, Approved} == Present(m) - {InputSummary, Approved}
  {
    hide ReadOrder;
    assert forall name | name in ReadOrder() && name != Approved :: SameAt(m, input, name);
  }

  /** Both phases of one request, in terms of the request. */
  lemma HandlerOnInput(f: Filters, answer: ClientRequest -> Envelope, m: map<Name, Raw>, approved: bool, op: Operation)
    requires Approved !in m && ReadOperation(m) == Ok(op)
    ensures var (handled, calls) := Handle(f.session, answer, OperationInput(m, approved));
            && (handled.Invalid? <==> !WellFormed(f.session, m, op))
            && (calls == if WellFormed(f.session, m, op) && (op !in READERS ==> approved) then [Sent(m, op)] else [])
            && (calls != [] <==> WasCalled(handled))
            && (calls != [] ==> handled.envelope == answer(Sent(m, op)))
  {
    hide OperationInput, WellFormed, ReadOperation, PolicyOf, Handle, Present, Agree;
    InputAgrees(m, approved);
    var input := OperationInput(m, approved).fields;
    WellFormedTransfers(f.session, m, input, op);
    CalledExactly(f.session, answer, input);
    SentAgrees(m, input);
    HandledEnvelope(f.session, answer, OperationInput(m, approved));
    WellFormedReads(f.session, input);
    assert Callable(f.session, input, op) <==> WellFormed(f.session, m, op) && (op !in READERS ==> approved);
  }

  lemma WellFormedReads(text: S.TextPolicy, m: map<Name, Raw>)
    ensures forall op | WellFormed(text, m, op) :: ReadOperation(m) == Ok(op)
  {
    hide ReadOperation, ReadOrder, ValidValue, Needs, Asks;
    forall op | Asks(m, op)
      ensures ReadOperation(m) == Ok(op)
    {
      ReadsExactly(m, op);
    }
  }

  lemma HandledEnvelope(text: S.TextPolicy, answer: ClientRequest -> Envelope, input: Raw)
    ensures var (handled, calls) := Handle(text, answer, input);
            (calls != [] <==> WasCalled(handled)) && (calls != [] ==> handled.envelope == answer(calls[0]))
  {
    hide Normalize, PolicyOf;
  }

  // ----- when the client is called -----

  lemma NormalizesToContext(f: Filters, m: map<Name, Raw>)
    ensures NormalizeRequest(f, Record(m)).Ok? <==>
            !HasUnsafeKey(f, m) && ReadOperation(m).Ok? &&
            PublicRefOk(f, m, IdempotencyRef, "idempotency:") && PublicRefOk(f, m, RequestRef, "request:")
    ensures NormalizeRequest(f, Record(m)).Ok? ==>
              NormalizeRequest(f, Record(m)).value == ContextOf(m, ReadOperation(m).value)
  {
    PublicRefExactly(f, m, IdempotencyRef, "idempotency:");
    PublicRefExactly(f, m, RequestRef, "request:");
    hide HasUnsafeKey, ReadOperation, PublicRef, PublicRefOk, TextAt;
  }

  /** Read-only requests carry no decision; the others carry one that grants exactly this request. */
  ghost predicate Entitled(f: Filters, m: map<Name, Raw>, op: Operation) {
    if op !in READERS then
      ApprovalDecision in m && m[ApprovalDecision].Record? &&
      Grants(f, m[ApprovalDecision].fields, ContextOf(m, op))
    else ApprovalDecision !in m
  }

  /** The client is called at most once: exactly for an understood request that is entitled, and with its own data. */
  lemma ClientCalledExactly(f: Filters, answer: ClientRequest -> Envelope, m: map<Name, Raw>)
    ensures HandleRequest(f, answer, Record(m)).1 ==
            match ReadOperation(m)
            case Err(_) => []
            case Ok(op) => if Understood(f, m, op) && Entitled(f, m, op) then [Sent(m, op)] else []
  {
    hide NormalizeRequest, ReadOperation, HasUnsafeKey, PublicRefOk, Handle, InvalidResult, ResultFromHandler,
         RequirementFor, OperationInput, OperationIssues, ApprovalStateOf, DecisionIssues, Grants, ContextOf, Sent;
    NormalizesToContext(f, m);
    if ReadOperation(m).Ok? {
      var op := ReadOperation(m).value;
      ContextFields(m, op);
      TableExactly(op);
      WellFormedReads(f.session, m);
      hide PolicyOf, WellFormed;
      if Approved !in m {
        HandlerOnInput(f, answer, m, false, op);
        HandlerOnInput(f, answer, m, true, op);
      }
      if ApprovalDecision in m {
        DecisionAcceptedExactly(f, m[ApprovalDecision], ContextOf(m, op));
      }
    }
  }

  lemma UnderstoodReads(f: Filters, m: map<Name, Raw>, op: Operation)
    requires Understood(f, m, op)
    ensures ReadOperation(m) == Ok(op)
  {
    hide ReadOperation, HasUnsafeKey, PublicRefOk, ReadOrder, ValidValue, Needs, Asks;
    ReadsExactly(m, op);
  }

  /** Without a decision the client is called exactly for the six reading operations, and told to change nothing. */
  lemma OnlyReadsGoUndecided(f: Filters, answer: ClientRequest -> Envelope, m: map<Name, Raw>)
    requires ApprovalDecision !in m
    ensures var calls := HandleRequest(f, answer, Record(m)).1;
            && (calls != [] <==>
                  exists op | op in {GetStatus, GetOutput, ListSessions, DiffGet, BranchSummarize, LogsSummarize} ::
                    Understood(f, m, op))
            && (calls != [] ==> |calls| == 1 && Understood(f, m, calls[0].op) && calls[0].effect == ReadOnlyEffect)
  {
    hide HandleRequest, Understood;
    ClientCalledExactly(f, answer, m);
    forall op | Understood(f, m, op)
      ensures ReadOperation(m) == Ok(op)
    {
      UnderstoodReads(f, m, op);
    }
    hide ReadOperation, Present;
  }

  lemma ContextFields(m: map<Name, Raw>, op: Operation)
    ensures ContextOf(m, op).fields == m && ContextOf(m, op).op == op
  {}

  /** The reported `fakeExecution` is right exactly unless the client was called and answered unsafely. */
  lemma ReportIsHonestExactly(f: Filters, answer: ClientRequest -> Envelope, m: map<Name, Raw>)
    ensures var (result, calls) := HandleRequest(f, answer, Record(m));
            && (result.called <==> calls != []) <==> (calls != [] ==> f.safeEnvelope(answer(calls[0])))
  {
    hide NormalizeRequest, ReadOperation, HasUnsafeKey, PublicRefOk, Handle,
         RequirementFor, OperationInput, OperationIssues, ApprovalStateOf, DecisionIssues, Grants, ContextOf, Sent;
    NormalizesToContext(f, m);
    if ReadOperation(m).Ok? {
      var op := ReadOperation(m).value;
      ContextFields(m, op);
      TableExactly(op);
      hide PolicyOf, WellFormed;
      HandledEnvelope(f.session, answer, OperationInput(m, false));
      HandledEnvelope(f.session, answer, OperationInput(m, true));
      if Approved !in m {
        HandlerOnInput(f, answer, m, false, op);
      }
    }
  }

  ghost predicate Awaits(f: Filters, m: map<Name, Raw>, op: Operation) {
    op !in READERS && Understood(f, m, op) && ApprovalDecision !in m
  }

  /** What each status stands for; a reduced result never claims to have executed or failed. */
  lemma StatusExactly(f: Filters, answer: ClientRequest -> Envelope, m: map<Name, Raw>)
    ensures var (result, calls) := HandleRequest(f, answer, Record(m));
            && (result.status == ExecutedStatus <==>
                  calls != [] && f.safeEnvelope(answer(calls[0])) && answer(calls[0]).ok)
            && (result.status == FakeFailedStatus <==>
                  calls != [] && f.safeEnvelope(answer(calls[0])) && !answer(calls[0]).ok)
            && (result.status == ApprovalRequired <==> ReadOperation(m).Ok? && Awaits(f, m, ReadOperation(m).value))
            && (result.status in {ExecutedStatus, FakeFailedStatus, ApprovalRequired} ==>
                  ReadOperation(m).Ok? && result.op == Some(ReadOperation(m).value))
  {
    hide NormalizeRequest, ReadOperation, HasUnsafeKey, PublicRefOk, Handle,
         RequirementFor, OperationInput, OperationIssues, ApprovalStateOf, DecisionIssues, Grants, ContextOf, Sent;
    NormalizesToContext(f, m);
    if ReadOperation(m).Ok? {
      var op := ReadOperation(m).value;
      ContextFields(m, op);
      TableExactly(op);
      hide PolicyOf, WellFormed;
      ExecutedExactly(f.session, answer, OperationInput(m, false));
      ExecutedExactly(f.session, answer, OperationInput(m, true));
      if Approved !in m {
        HandlerOnInput(f, answer, m, false, op);
        HandlerOnInput(f, answer, m, true, op);
      }
    }
  }

  /** The approval state fits the operation and the status; only a result without an operation leaves it open. */
  ghost predicate StateFits(r: ToolResult) {
    && (r.approval == Unknown <==> r.op.None?)
    && (r.approval == NotRequired <==> r.op.Some? && r.op.value in READERS)
    && (r.approval == Pending <==>
          r.op.Some? && r.op.value !in READERS && r.status in {ApprovalRequired, InvalidOperationStatus})
    && (r.approval == InvalidState <==> r.op.Some? && r.op.value !in READERS && r.status == InvalidApproval)
    && (r.approval == ApprovedState <==>
          r.op.Some? && r.op.value !in READERS && r.status in {ExecutedStatus, FakeFailedStatus})
  }

  lemma InvalidFits(status: Status, issues: seq<RuntimeIssue>, op: Option<Operation>)
    requires status in {InvalidOperationStatus, InvalidApproval}
    ensures StateFits(InvalidResult(status, issues, op)) && InvalidResult(status, issues, op).op == op
  {
    if op.Some? {
      TableExactly(op.value);
    }
    hide PolicyOf;
  }

  lemma HandledFits(f: Filters, h: Handled, c: Context, state: ApprovalState, requirement: Option<Requirement>)
    requires c.op in READERS || (state == ApprovedState && WasCalled(h))
    ensures var r := ResultFromHandler(f, h, c, state, requirement); StateFits(r) && (r.op.Some? ==> r.op.value == c.op)
  {
    TableExactly(c.op);
    hide PolicyOf, OperationIssues;
  }

  lemma PendingFits(f: Filters, c: Context, issues: seq<RuntimeIssue>, requirement: Option<Requirement>)
    requires c.op !in READERS
    ensures StateFits(ToolResult(ApprovalRequired, false, Some(c.op), ApprovalStateOf(c.op, Pending), issues, requirement,
                                 None))
  {
    TableExactly(c.op);
    hide PolicyOf;
  }

  /** The reported approval state, for every result. */
  lemma ApprovalStateExactly(f: Filters, answer: ClientRequest -> Envelope, m: map<Name, Raw>)
    ensures var r := HandleRequest(f, answer, Record(m)).0;
            StateFits(r) && (r.op.Some? ==> ReadOperation(m) == Ok(r.op.value))
  {
    hide NormalizeRequest, ReadOperation, HasUnsafeKey, PublicRefOk, Handle, InvalidResult, ResultFromHandler, StateFits,
         RequirementFor, OperationInput, OperationIssues, ApprovalStateOf, DecisionIssues, ContextOf, Sent;
    NormalizesToContext(f, m);
    RefusalNamesOperation(f, m);
    forall status, issues, op | status in {InvalidOperationStatus, InvalidApproval}
      ensures StateFits(InvalidResult(status, issues, op)) && InvalidResult(status, issues, op).op == op
    {
      InvalidFits(status, issues, op);
    }
    if NormalizeRequest(f, Record(m)).Ok? {
      var c := NormalizeRequest(f, Record(m)).value;
      ContextFields(m, ReadOperation(m).value);
      TableExactly(c.op);
      hide PolicyOf, WellFormed;
      if c.op in READERS {
        HandledFits(f, Handle(f.session, answer, OperationInput(m, false)).0, c, NotRequired, None);
      } else if Approved !in m {
        PendingFits(f, c, [RuntimeIssue(ApprovalIsRequired, Some(ApprovalDecision))], Some(RequirementFor(f, c)));
        HandlerOnInput(f, answer, m, false, c.op);
        HandlerOnInput(f, answer, m, true, c.op);
        var h := Handle(f.session, answer, OperationInput(m, true)).0;
        if WasCalled(h) {
          HandledFits(f, h, c, ApprovedState, Some(RequirementFor(f, c)));
        }
      }
    }
  }

  lemma RefusalNamesOperation(f: Filters, m: map<Name, Raw>)
    ensures NormalizeRequest(f, Record(m)).Err? && NormalizeRequest(f, Record(m)).error.op.Some? ==>
              ReadOperation(m) == Ok(NormalizeRequest(f, Record(m)).error.op.value)
  {
    hide HasUnsafeKey, ReadOperation, PublicRef;
  }

  /** A request with safe properties that asks for no operation is refused with the one issue that says why. */
  lemma NoOperationIsReported(f: Filters, answer: ClientRequest -> Envelope, m: map<Name, Raw>)
    requires !HasUnsafeKey(f, m) && forall op :: !Asks(m, op)
    ensures var (r, calls) := HandleRequest(f, answer, Record(m));
            && calls == [] && r.status == InvalidOperationStatus && r.op.None?
            && r.issues == [RuntimeIssue(if OperationRef in m then BadOperation else MissingOperation, Some(OperationRef))]
  {
    hide HasUnsafeKey, PublicRef, PublicRefOk, Handle, Asks, ParseOperation;
    if ReadOperation(m).Ok? {
      ReadsExactly(m, ReadOperation(m).value);
    }
  }

  lemma ExecutedExactly(text: S.TextPolicy, answer: ClientRequest -> Envelope, input: Raw)
    ensures var (handled, calls) := Handle(text, answer, input);
            && (calls != [] <==> WasCalled(handled)) && (calls != [] ==> handled.envelope == answer(calls[0]))
            && (calls != [] ==> (handled.Executed? <==> answer(calls[0]).ok))
  {
    hide Normalize, PolicyOf;
  }

  const LIST_REQUEST := map[OperationRef := Text("hazeteam.oca.list")]

  lemma ListIsAsked()
    ensures Asks(LIST_REQUEST, ListSessions)
  {
    assert "hazeteam.oca.list"[13..] == "list";
  }

  lemma ListRequestIsUnderstood(f: Filters)
    ensures ReadOperation(LIST_REQUEST) == Ok(ListSessions)
    ensures Understood(f, LIST_REQUEST, ListSessions)
    ensures Sent(LIST_REQUEST, ListSessions) == ClientRequest(ListSessions, ReadOnlyEffect, map[])
  {
    ReadsExactly(LIST_REQUEST, ListSessions);
    ListIsAsked();
    hide ReadOperation, Asks, ValidValue;
    forall name
      ensures !(name in ReadOrder() && name in LIST_REQUEST)
    {
      ReadNames(name);
    }
    hide ReadOrder;
    assert Present(LIST_REQUEST) - {InputSummary, Approved} == map[];
  }

  /** A client whose answer the filter refuses is called, and reported as not called. */
  lemma UnsafeAnswerHidesTheCall(f: Filters, answer: ClientRequest -> Envelope)
    requires !f.safeEnvelope(answer(ClientRequest(ListSessions, ReadOnlyEffect, map[])))
    ensures var (result, calls) := HandleRequest(f, answer, Record(LIST_REQUEST));
            !result.called && calls == [ClientRequest(ListSessions, ReadOnlyEffect, map[])]
  {
    ListRequestIsUnderstood(f);
    assert Entitled(f, LIST_REQUEST, ListSessions);
    hide HandleRequest, ReadOperation, Understood, Sent, Entitled;
    ReportIsHonestExactly(f, answer, LIST_REQUEST);
    ClientCalledExactly(f, answer, LIST_REQUEST);
  }

  // ----- what a decision covers -----

  /** The decision a caller reads off a requirement. */
  function DecisionFor(q: Requirement): map<Name, Raw> {
    var core := map[Kind := Text("explicit-approval"), Approved := Bool(true), RequirementRef := Text(q.ref),
                    OperationRef := Text(OperationText(q.op)), EffectName := Text(EffectText(q.effect))];
    var scoped := if q.idempotencyRef.Some? then core[IdempotencyRef := Text(q.idempotencyRef.value)] else core;
    if q.requestRef.Some? then scoped[RequestRef := Text(q.requestRef.value)] else scoped
  }

  ghost predicate SafeScopes(f: Filters, c: Context) {
    && (c.idempotencyRef.Some? ==> SafePublicRef(f, Text(c.idempotencyRef.value), "idempotency:"))
    && (c.requestRef.Some? ==> SafePublicRef(f, Text(c.requestRef.value), "request:"))
  }

  lemma DecisionForAt(q: Requirement)
    ensures var d := DecisionFor(q);
            && (forall name | name in d :: AllowedDecisionKey(name)) && DecisionRef !in d
            && Lookup(d, Kind) == Some(Text("explicit-approval")) && Lookup(d, Approved) == Some(Bool(true))
            && Lookup(d, OperationRef) == Some(Text(OperationText(q.op)))
            && Lookup(d, EffectName) == Some(Text(EffectText(q.effect)))
            && Lookup(d, RequirementRef) == Some(Text(q.ref))
            && TextAt(d, IdempotencyRef) == q.idempotencyRef && (IdempotencyRef in d <==> q.idempotencyRef.Some?)
            && TextAt(d, RequestRef) == q.requestRef && (RequestRef in d <==> q.requestRef.Some?)
  {
    hide OperationText, EffectText;
  }

  /** A decision read off one request's requirement grants another request exactly when both have the same
      operation, the same scopes and the same checksum. */
  lemma DecisionCoversExactly(f: Filters, a: Context, b: Context)
    requires SafeScopes(f, a)
    ensures Grants(f, DecisionFor(RequirementFor(f, a)), b) <==>
            && a.op == b.op && a.idempotencyRef == b.idempotencyRef && a.requestRef == b.requestRef
            && Checksum.Fold(MULTIPLIER, SEED, Body(f, a)) == Checksum.Fold(MULTIPLIER, SEED, Body(f, b))
  {
    hide OperationText, EffectText, PolicyOf, AllowedDecisionKey, SafePublicRef, DecisionFor, Body, TextAt;
    hide Asks, EffectWord;
    DecisionForAt(RequirementFor(f, a));
    AsksExactly(DecisionFor(RequirementFor(f, a)), b.op);
    EffectWordIsText(a.op);
    EffectWordIsText(b.op);
    var d := DecisionFor(RequirementFor(f, a));
    TextOf(d, IdempotencyRef);
    TextOf(d, RequestRef);
    OperationTextsDiffer(a.op, b.op);
    if a.op == b.op {
      RequirementRefsAgree(f, a, b);
    }
    hide RequirementRefOf, Checksum.Fold;
  }

  lemma TextOf(d: map<Name, Raw>, name: Name)
    ensures name in d && TextAt(d, name).Some? ==> d[name] == Text(TextAt(d, name).value)
  {}

  lemma OperationTextsDiffer(a: Operation, b: Operation)
    ensures OperationText(a) == OperationText(b) <==> a == b
  {
    hide OperationText;
    OperationTextParses(a);
    OperationTextParses(b);
  }

  lemma RequirementRefsAgree(f: Filters, a: Context, b: Context)
    requires a.op == b.op
    ensures RequirementRefOf(f, a) == RequirementRefOf(f, b) <==>
            Checksum.Fold(MULTIPLIER, SEED, Body(f, a)) == Checksum.Fold(MULTIPLIER, SEED, Body(f, b))
  {
    hide Body, OperationName;
    var start := "approval-requirement:" + OperationName(a.op) + "-";
    assert RequirementRefOf(f, a)[|start|..] == ChecksumText(Body(f, a));
    assert RequirementRefOf(f, b)[|start|..] == ChecksumText(Body(f, b));
    ChecksumTextsAgree(Body(f, a), Body(f, b));
  }

  lemma ChecksumTextsAgree(x: string, y: string)
    ensures ChecksumText(x) == ChecksumText(y) <==>
            Checksum.Fold(MULTIPLIER, SEED, x) == Checksum.Fold(MULTIPLIER, SEED, y)
  {
    hide Checksum.Fold, Hex.Print, Hex.Show;
    Checksum.ChecksumPrints(MULTIPLIER, SEED, x);
    Checksum.ChecksumPrints(MULTIPLIER, SEED, y);
    Hex.ShowIsExact(Hex.Print(Checksum.Fold(MULTIPLIER, SEED, x), 4), Hex.Print(Checksum.Fold(MULTIPLIER, SEED, y), 4));
  }

  /** If the fingerprints have equal length, are ASCII and differ in one character, the decision is refused. */
  lemma OneCharacterApartIsRefused(f: Filters, a: Context, b: Context)
    requires SafeScopes(f, a) && IsAscii(Body(f, a)) && IsAscii(Body(f, b)) && DifferInOne(Body(f, a), Body(f, b))
    ensures !Grants(f, DecisionFor(RequirementFor(f, a)), b)
  {
    hide Grants, Body, IsAscii, DifferInOne, Checksum.Fold, SafeScopes, RequirementFor, DecisionFor;
    DecisionCoversExactly(f, a, b);
    assert Checksum.Invertible(MULTIPLIER);
    Checksum.AsciiDifferenceShows(MULTIPLIER, SEED, Body(f, a), Body(f, b));
  }

  /** The requirement a pending request is answered with: its ref names operation and checksum, the rest is the request's. */
  lemma RequirementReads(f: Filters, c: Context)
    ensures var q := RequirementFor(f, c);
            && (exists name :: Named(name, c.op) &&
                               q.ref == "approval-requirement:" + name + "-" + ChecksumText(Body(f, c)))
            && |ChecksumText(Body(f, c))| == 4
            && q.op == c.op && q.effect == EffectOn(c.op) && (q.approval == ReadOnly <==> c.op in READERS)
            && (q.approval == RepositoryMutationApproval <==> c.op == ReviewSubmit)
            && q.idempotencyRef == c.idempotencyRef && q.requestRef == c.requestRef
            && forall field :: Lookup(q.safeRefs, field) ==
                               if Counts(f, c.fields, field) then Some(c.fields[Ref(field)].text) else None
  {
    TableExactly(c.op);
    NamedExactly(OperationName(c.op), c.op);
    Checksum.ChecksumPrints(MULTIPLIER, SEED, Body(f, c));
    forall field: RefField
      ensures field in REF_FIELDS
    {
      EveryFieldIsListed(field);
    }
    hide Body, SafeOcaRefLike, PolicyOf, Named, OperationName, Hex.Print, Checksum.Fold;
  }

  lemma EveryFieldIsListed(field: RefField)
    ensures field in REF_FIELDS
  {
    assert field == REF_FIELDS[0] || field == REF_FIELDS[1] || field == REF_FIELDS[2] || field == REF_FIELDS[3] ||
           field == REF_FIELDS[4] || field == REF_FIELDS[5] || field == REF_FIELDS[6] || field == REF_FIELDS[7] ||
           field == REF_FIELDS[8];
  }

  /** Two checksums worked out by hand. */
  lemma KnownChecksums()
    ensures ChecksumText("") == "0017" && ChecksumText("a") == "0358"
  {
    assert Hex.Digits(1) == [1] && Hex.Digits(23) == [1, 7];
    assert Hex.Print(23, 4) == [0, 0, 1, 7];
    assert "a"[1..] == "" && Checksum.Fold(MULTIPLIER, SEED, "a") == 856;
    assert Hex.Digits(3) == [3] && Hex.Digits(53) == [3, 5] && Hex.Digits(856) == [3, 5, 8];
    assert Hex.Print(856, 4) == [0, 3, 5, 8];
  }

  // ----- the fingerprint -----

  lemma {:induction false} PartsDependOnRefs(f: Filters, m: map<Name, Raw>, n: map<Name, Raw>, fields: seq<RefField>)
    requires forall field :: SameAt(m, n, Ref(field))
    ensures Parts(f, n, fields) == Parts(f, m, fields)
  {
    hide SafeOcaRefLike, Part;
    if fields != [] {
      PartsDependOnRefs(f, m, n, fields[..|fields| - 1]);
      assert SameAt(m, n, Ref(fields[|fields| - 1]));
    }
  }

  predicate Plain(s: string) {
    '|' !in s
  }

  lemma PlainAppends(s: string, t: string)
    requires Plain(s) && Plain(t)
    ensures Plain(s + t)
  {}

  lemma OperationTextIsPlain(op: Operation)
    ensures Plain(OperationText(op))
  {
    assert Plain(OperationName(op));
    hide OperationName;
    PlainAppends("hazeteam.oca.", OperationName(op));
  }

  lemma EffectTextIsPlain(effect: Effect)
    ensures Plain(EffectText(effect))
  {}

  lemma ApprovalTextIsPlain(approval: Approval)
    ensures Plain(ApprovalText(approval))
  {}

  lemma ReplayTextIsPlain(replay: Replay)
    ensures Plain(ReplayText(replay))
  {}

  lemma FieldTextsArePlain(field: RefField)
    ensures Plain(FieldName(field)) && '=' !in FieldName(field)
  {}

  lemma PrefixIsPlain(field: RefField)
    ensures Plain(S.Prefix(RefKind(field)))
  {}

  lemma SafeRefIsPlain(f: Filters, value: string, prefix: string)
    requires SafePrefixedRef(f, value, prefix) && Plain(prefix)
    ensures Plain(value)
  {
    hide S.UnsafeText, JsLength;
    var body := value[|prefix|..];
    assert forall i | 0 <= i < |body| :: S.IsInner(body[i]);
    assert value == prefix + body;
  }

  lemma CountedRefIsPlain(f: Filters, value: string)
    requires SafeOcaRefLike(f, value)
    ensures Plain(value)
  {
    hide SafePrefixedRef, S.Prefix, RefKind, Plain;
    var field :| field in REF_FIELDS && SafePrefixedRef(f, value, S.Prefix(RefKind(field)));
    PrefixIsPlain(field);
    SafeRefIsPlain(f, value, S.Prefix(RefKind(field)));
  }

  lemma {:induction false} PartsArePlain(f: Filters, m: map<Name, Raw>, fields: seq<RefField>)
    ensures forall i | 0 <= i < |Parts(f, m, fields)| :: Plain(Parts(f, m, fields)[i])
  {
    hide Plain, SafeOcaRefLike, FieldName;
    if fields != [] {
      var last := fields[|fields| - 1];
      PartsArePlain(f, m, fields[..|fields| - 1]);
      if Counts(f, m, last) {
        CountedRefIsPlain(f, m[Ref(last)].text);
        FieldTextsArePlain(last);
        PartIsPlain(last, m[Ref(last)].text);
      }
    }
  }

  lemma PartIsPlain(field: RefField, value: string)
    requires Plain(FieldName(field)) && Plain(value)
    ensures Plain(Part(field, value))
  {
    hide FieldName;
  }

  lemma FieldNameIsInjective(a: RefField, b: RefField)
    requires FieldName(a) == FieldName(b)
    ensures a == b
  {
    assert |FieldName(a)| == |FieldName(b)| && FieldName(a)[0] == FieldName(b)[0];
  }

  lemma PartIsInjective(a: RefField, x: string, b: RefField, y: string)
    requires Part(a, x) == Part(b, y)
    ensures a == b && x == y
  {
    FieldTextsArePlain(a);
    FieldTextsArePlain(b);
    hide FieldName;
    SplitAfterPart('=', FieldName(a), x);
    SplitAfterPart('=', FieldName(b), y);
    hide Split;
    assert Part(a, x) == FieldName(a) + ['='] + x && Part(b, y) == FieldName(b) + ['='] + y;
    assert Split('=', Part(a, x))[0] == FieldName(a) && Split('=', Part(b, y))[0] == FieldName(b);
    FieldNameIsInjective(a, b);
    assert Part(a, x)[|FieldName(a)| + 1..] == x && Part(b, y)[|FieldName(b)| + 1..] == y;
  }

  /** Every part stems from a counted field. */
  lemma {:induction false} PartHasItsField(f: Filters, m: map<Name, Raw>, fields: seq<RefField>, part: string)
    ensures part in Parts(f, m, fields) <==>
            exists field :: field in fields && Counts(f, m, field) && part == Part(field, m[Ref(field)].text)
  {
    hide SafeOcaRefLike, Part;
    if fields != [] {
      var last, before := fields[|fields| - 1], fields[..|fields| - 1];
      PartHasItsField(f, m, before, part);
      assert forall field :: field in fields <==> field in before || field == last;
      assert part in Parts(f, m, fields) <==>
             part in Parts(f, m, before) || (Counts(f, m, last) && part == Part(last, m[Ref(last)].text));
    }
  }

  lemma EqualPartsCountEqually(f: Filters, m: map<Name, Raw>, n: map<Name, Raw>, field: RefField)
    requires Parts(f, m, REF_FIELDS) == Parts(f, n, REF_FIELDS) && field in REF_FIELDS && Counts(f, m, field)
    ensures Counts(f, n, field) && n[Ref(field)] == m[Ref(field)]
  {
    var part := Part(field, m[Ref(field)].text);
    PartHasItsField(f, m, REF_FIELDS, part);
    PartHasItsField(f, n, REF_FIELDS, part);
    hide SafeOcaRefLike, Part;
    var other :| other in REF_FIELDS && Counts(f, n, other) && part == Part(other, n[Ref(other)].text);
    PartIsInjective(field, m[Ref(field)].text, other, n[Ref(other)].text);
  }

  lemma EqualPartsEqualRefs(f: Filters, m: map<Name, Raw>, n: map<Name, Raw>)
    requires Parts(f, m, REF_FIELDS) == Parts(f, n, REF_FIELDS)
    ensures SafeRefs(f, m) == SafeRefs(f, n)
  {
    forall field | field in REF_FIELDS
      ensures Counts(f, m, field) <==> Counts(f, n, field)
      ensures Counts(f, m, field) ==> n[Ref(field)] == m[Ref(field)]
    {
      if Counts(f, m, field) {
        EqualPartsCountEqually(f, m, n, field);
      } else if Counts(f, n, field) {
        EqualPartsCountEqually(f, n, m, field);
      }
    }
    hide SafeOcaRefLike, Parts;
  }

  lemma {:induction false} EqualRefsEqualParts(f: Filters, m: map<Name, Raw>, n: map<Name, Raw>, fields: seq<RefField>)
    requires SafeRefs(f, m) == SafeRefs(f, n) && forall field | field in fields :: field in REF_FIELDS
    ensures Parts(f, m, fields) == Parts(f, n, fields)
  {
    hide SafeOcaRefLike, Part;
    if fields != [] {
      var last, before := fields[|fields| - 1], fields[..|fields| - 1];
      EqualRefsEqualParts(f, m, n, before);
      assert Counts(f, m, last) <==> last in SafeRefs(f, m);
      assert Counts(f, n, last) <==> last in SafeRefs(f, n);
    }
  }

  lemma ScopesArePlain(f: Filters, c: Context)
    requires SafeScopes(f, c)
    ensures Plain(OrNone(c.idempotencyRef)) && Plain(OrNone(c.requestRef))
    ensures c.idempotencyRef.Some? ==> OrNone(c.idempotencyRef) != "none"
    ensures c.requestRef.Some? ==> OrNone(c.requestRef) != "none"
  {
    hide S.UnsafeText, JsLength, S.SafeBody;
    if c.idempotencyRef.Some? {
      assert Plain("idempotency:");
      SafeRefIsPlain(f, c.idempotencyRef.value, "idempotency:");
      assert c.idempotencyRef.value[0] == 'i';
    }
    if c.requestRef.Some? {
      assert Plain("request:");
      SafeRefIsPlain(f, c.requestRef.value, "request:");
      assert c.requestRef.value[0] == 'r';
    }
  }

  lemma BodySplits(f: Filters, c: Context)
    requires SafeScopes(f, c)
    ensures Split('|', Body(f, c)) == Head(c) + Parts(f, c.fields, REF_FIELDS)
  {
    ScopesArePlain(f, c);
    OperationTextIsPlain(c.op);
    EffectTextIsPlain(PolicyOf(c.op).effect);
    ApprovalTextIsPlain(PolicyOf(c.op).approval);
    ReplayTextIsPlain(PolicyOf(c.op).replay);
    PartsArePlain(f, c.fields, REF_FIELDS);
    hide Parts, SafeScopes, OperationText, EffectText, ApprovalText, ReplayText, PolicyOf, OrNone;
    var all := Head(c) + Parts(f, c.fields, REF_FIELDS);
    assert forall i | 0 <= i < |all| :: Plain(all[i]);
    SplitJoin('|', all);
  }

  /** How a counted ref is written in the fingerprint. */
  ghost predicate Written(part: string, field: RefField, text: string) {
    match field
    case SessionRef => part == "sessionRef=" + text
    case TaskRef => part == "taskRef=" + text
    case WorktreeRef => part == "worktreeRef=" + text
    case BranchRef => part == "branchRef=" + text
    case OutputRef => part == "outputRef=" + text
    case LogRef => part == "logRef=" + text
    case DiffRef => part == "diffRef=" + text
    case ArtifactRef => part == "artifactRef=" + text
    case ReviewRef => part == "reviewRef=" + text
  }

  lemma WrittenExactly(part: string, field: RefField, text: string)
    ensures part == Part(field, text) <==> Written(part, field, text)
  {}

  /** The fingerprint, piece by piece: six fixed pieces, then one for each counted ref. */
  lemma FingerprintReads(f: Filters, c: Context, part: string)
    requires SafeScopes(f, c)
    ensures var pieces := Split('|', Body(f, c));
            && |pieces| >= 6 && Names(pieces[0], c.op) && pieces[1] == EffectWord(c.op)
            && pieces[2] == (if c.op in READERS then "read-only"
                             else if c.op == ReviewSubmit then "approval-required-repository-mutation"
                             else "approval-required-external-effect")
            && pieces[3] == (if c.op in READERS then "read-repeatable"
                             else if c.op == StartSession then "idempotent-request" else "approval-gated-once")
            && pieces[4] == (if c.idempotencyRef.Some? then c.idempotencyRef.value else "none")
            && pieces[5] == (if c.requestRef.Some? then c.requestRef.value else "none")
            && (part in pieces[6..] <==>
                  exists field :: field in REF_FIELDS && Counts(f, c.fields, field) &&
                                  Written(part, field, c.fields[Ref(field)].text))
  {
    BodySplits(f, c);
    HeadReads(c);
    hide Body, SafeScopes, Head, Names, EffectWord, Parts, Counts, Written, Part, Split;
    var parts := Parts(f, c.fields, REF_FIELDS);
    assert (Head(c) + parts)[6..] == parts;
    PartHasItsField(f, c.fields, REF_FIELDS, part);
    forall field | Counts(f, c.fields, field)
      ensures c.fields[Ref(field)].Text? && (part == Part(field, c.fields[Ref(field)].text) <==>
                                              Written(part, field, c.fields[Ref(field)].text))
    {
      CountedIsText(f, c.fields, field);
      WrittenExactly(part, field, c.fields[Ref(field)].text);
    }
  }

  lemma CountedIsText(f: Filters, m: map<Name, Raw>, field: RefField)
    requires Counts(f, m, field)
    ensures Ref(field) in m && m[Ref(field)].Text?
  {}

  lemma HeadReads(c: Context)
    ensures var pieces := Head(c);
            && |pieces| == 6 && Names(pieces[0], c.op) && pieces[1] == EffectWord(c.op)
            && pieces[2] == (if c.op in READERS then "read-only"
                             else if c.op == ReviewSubmit then "approval-required-repository-mutation"
                             else "approval-required-external-effect")
            && pieces[3] == (if c.op in READERS then "read-repeatable"
                             else if c.op == StartSession then "idempotent-request" else "approval-gated-once")
            && pieces[4] == (if c.idempotencyRef.Some? then c.idempotencyRef.value else "none")
            && pieces[5] == (if c.requestRef.Some? then c.requestRef.value else "none")
  {
    TableExactly(c.op);
    NamesExactly(OperationText(c.op), c.op);
    EffectWordIsText(c.op);
    hide Names, OperationText, EffectText, EffectWord, PolicyOf;
  }

  /** The fingerprinted text determines the operation, both scopes and every counted ref, and nothing else. */
  lemma FingerprintCoversExactly(f: Filters, a: Context, b: Context)
    requires SafeScopes(f, a) && SafeScopes(f, b)
    ensures Body(f, a) == Body(f, b) <==>
            a.op == b.op && a.idempotencyRef == b.idempotencyRef && a.requestRef == b.requestRef &&
            SafeRefs(f, a.fields) == SafeRefs(f, b.fields)
  {
    BodySplits(f, a);
    BodySplits(f, b);
    ScopesArePlain(f, a);
    ScopesArePlain(f, b);
    OperationTextsDiffer(a.op, b.op);
    hide Body, SafeScopes, OperationText, EffectText, ApprovalText, ReplayText, PolicyOf, Parts, SafeRefs;
    if SafeRefs(f, a.fields) == SafeRefs(f, b.fields) {
      EqualRefsEqualParts(f, a.fields, b.fields, REF_FIELDS);
    }
    HeadsThenParts(a, b, Parts(f, a.fields, REF_FIELDS), Parts(f, b.fields, REF_FIELDS));
    if Parts(f, a.fields, REF_FIELDS) == Parts(f, b.fields, REF_FIELDS) {
      EqualPartsEqualRefs(f, a.fields, b.fields);
    }
    BodyIsJoined(f, a);
    BodyIsJoined(f, b);
  }

  lemma BodyIsJoined(f: Filters, c: Context)
    ensures Body(f, c) == Join('|', Head(c) + Parts(f, c.fields, REF_FIELDS))
  {}

  lemma HeadsThenParts(a: Context, b: Context, p: seq<string>, q: seq<string>)
    ensures Head(a) + p == Head(b) + q <==> Head(a) == Head(b) && p == q
    ensures Head(a) == Head(b) ==>
              OperationText(a.op) == OperationText(b.op) && OrNone(a.idempotencyRef) == OrNone(b.idempotencyRef) &&
              OrNone(a.requestRef) == OrNone(b.requestRef)
  {
    hide OperationText, EffectText, ApprovalText, ReplayText, PolicyOf, OrNone;
    assert |Head(a)| == 6 && |Head(b)| == 6;
    if Head(a) + p == Head(b) + q {
      assert (Head(a) + p)[..6] == Head(a) && (Head(b) + q)[..6] == Head(b);
      assert (Head(a) + p)[6..] == p && (Head(b) + q)[6..] == q;
    }
    if Head(a) == Head(b) {
      assert Head(a)[0] == Head(b)[0] && Head(a)[4] == Head(b)[4] && Head(a)[5] == Head(b)[5];
    }
  }

  /** So a decision also grants any request that differs only outside the fingerprint, such as in its summary. */
  lemma DecisionIgnoresTheRest(f: Filters, a: Context, b: Context)
    requires SafeScopes(f, a) && SafeScopes(f, b)
    requires a.op == b.op && a.idempotencyRef == b.idempotencyRef && a.requestRef == b.requestRef
    requires SafeRefs(f, a.fields) == SafeRefs(f, b.fields)
    ensures Grants(f, DecisionFor(RequirementFor(f, a)), b)
  {
    hide Grants, Body, SafeScopes, RequirementFor, DecisionFor, SafeRefs;
    FingerprintCoversExactly(f, a, b);
    DecisionCoversExactly(f, a, b);
  }

  // ----- answering a requirement -----

  /** The two-phase protocol closes: answering the requirement on the same request reaches the client, once. */
  lemma AnsweringInvokes(f: Filters, answer: ClientRequest -> Envelope, m: map<Name, Raw>)
    requires HandleRequest(f, answer, Record(m)).0.status == ApprovalRequired
    ensures HandleRequest(f, answer, Record(m)).0.requirement.Some? && HandleRequest(f, answer, Record(m)).1 == []
    ensures var q := HandleRequest(f, answer, Record(m)).0.requirement.value;
            HandleRequest(f, answer, Record(m[ApprovalDecision := Record(DecisionFor(q))])).1 == [Sent(m, q.op)]
  {
    PendingIsUnderstood(f, answer, m);
    var q := HandleRequest(f, answer, Record(m)).0.requirement.value;
    ClientCalledExactly(f, answer, m);
    ClientCalledExactly(f, answer, m[ApprovalDecision := Record(DecisionFor(q))]);
    hide HandleRequest, Understood, ReadOperation, Sent, DecisionFor, ContextOf, SafeScopes, Grants, RequirementFor;
    DecisionChangesNothingElse(f, m, DecisionFor(q), q.op);
    AnswerIsEntitled(f, m, q.op);
  }

  lemma AnswerIsEntitled(f: Filters, m: map<Name, Raw>, op: Operation)
    requires op !in READERS && Understood(f, m, op) && SafeScopes(f, ContextOf(m, op))
    ensures Entitled(f, m[ApprovalDecision := Record(DecisionFor(RequirementFor(f, ContextOf(m, op))))], op)
  {
    hide Understood, PolicyOf, DecisionFor, Body, ContextOf, SafeScopes, Grants, Checksum.Fold, RequirementFor;
    var d := DecisionFor(RequirementFor(f, ContextOf(m, op)));
    var n := m[ApprovalDecision := Record(d)];
    DecisionChangesNothingElse(f, m, d, op);
    DecisionCoversExactly(f, ContextOf(m, op), ContextOf(n, op));
  }

  lemma PendingIsUnderstood(f: Filters, answer: ClientRequest -> Envelope, m: map<Name, Raw>)
    requires HandleRequest(f, answer, Record(m)).0.status == ApprovalRequired
    ensures var r := HandleRequest(f, answer, Record(m)).0;
            && r.requirement.Some? && r.op.Some? && ReadOperation(m) == Ok(r.op.value)
            && r.requirement.value.op == r.op.value
            && r.op.value !in READERS && Understood(f, m, r.op.value) && ApprovalDecision !in m
            && r.requirement.value == RequirementFor(f, ContextOf(m, r.op.value))
            && SafeScopes(f, ContextOf(m, r.op.value))
  {
    hide NormalizeRequest, ReadOperation, HasUnsafeKey, Handle, WellFormed,
         RequirementRefOf, OperationInput, OperationIssues, ApprovalStateOf, DecisionIssues, Grants, SafePrefixedRef;
    NormalizesToContext(f, m);
    if ReadOperation(m).Ok? {
      var op := ReadOperation(m).value;
      TableExactly(op);
      hide PolicyOf;
      if Approved !in m {
        HandlerOnInput(f, answer, m, false, op);
      }
    }
  }

  lemma DecisionChangesNothingElse(f: Filters, m: map<Name, Raw>, d: map<Name, Raw>, op: Operation)
    requires Understood(f, m, op)
    ensures var n := m[ApprovalDecision := Record(d)];
            && ReadOperation(n) == ReadOperation(m) && Understood(f, n, op) && Sent(n, op) == Sent(m, op)
            && ContextOf(n, op).op == ContextOf(m, op).op
            && ContextOf(n, op).idempotencyRef == ContextOf(m, op).idempotencyRef
            && ContextOf(n, op).requestRef == ContextOf(m, op).requestRef
            && Body(f, ContextOf(n, op)) == Body(f, ContextOf(m, op))
  {
    var n := m[ApprovalDecision := Record(d)];
    ReadNames(ApprovalDecision);
    hide ReadOrder, ValidValue, Needs, Names, ParseOperation, PolicyOf, SafePrefixedRef, OperationText, EffectText,
         ApprovalText, ReplayText;
    assert Agree(m, n);
    WellFormedTransfers(f.session, m, n, op);
    SentAgrees(m, n);
    PartsDependOnRefs(f, m, n, REF_FIELDS);
    hide Parts, WellFormed, ReadOperation, Agree;
  }

  // ----- two requests, one decision -----

  lemma UnderstoodScopes(f: Filters, m: map<Name, Raw>, op: Operation)
    requires Understood(f, m, op)
    ensures SafeScopes(f, ContextOf(m, op))
  {
    hide SafePrefixedRef, WellFormed, HasUnsafeKey;
  }

  /** Nothing but the scopes and the counted refs of a request decides which decisions grant it. */
  lemma GrantsTransfer(f: Filters, d: map<Name, Raw>, a: Context, b: Context)
    requires SafeScopes(f, a) && SafeScopes(f, b) && Grants(f, d, a)
    requires a.op == b.op && a.idempotencyRef == b.idempotencyRef && a.requestRef == b.requestRef
    requires SafeRefs(f, a.fields) == SafeRefs(f, b.fields)
    ensures Grants(f, d, b)
  {
    hide Body, SafeScopes, SafeRefs, AllowedDecisionKey, PublicRefOk, TextAt, OperationText, EffectText, PolicyOf;
    FingerprintCoversExactly(f, a, b);
    hide ChecksumText, OperationName;
  }

  lemma SentValues(m: map<Name, Raw>, op: Operation)
    ensures forall name :: Lookup(Sent(m, op).values, name) ==
                           if name.FakeFailure? || name.Ref? then Lookup(m, name) else None
  {
    forall name
      ensures name in ReadOrder() <==> name.Approved? || name.FakeFailure? || name.InputSummary? || name.Ref?
    {
      ReadNames(name);
    }
    hide ReadOrder, PolicyOf;
  }

  lemma SameLookups(a: map<Name, Raw>, b: map<Name, Raw>)
    ensures a == b <==> forall name :: Lookup(a, name) == Lookup(b, name)
  {
    if forall name :: Lookup(a, name) == Lookup(b, name) {
      assert forall name :: name in a <==> Lookup(a, name).Some?;
      assert forall name :: name in b <==> Lookup(b, name).Some?;
      assert forall name | name in a :: a[name] == Lookup(a, name).value == b[name];
    }
  }

  lemma CountedAlike(f: Filters, m: map<Name, Raw>, n: map<Name, Raw>, field: RefField)
    requires SafeRefs(f, m) == SafeRefs(f, n)
    ensures Counts(f, m, field) <==> Counts(f, n, field)
    ensures Counts(f, m, field) ==> Lookup(m, Ref(field)) == Lookup(n, Ref(field))
  {
    EveryFieldIsListed(field);
    hide SafeOcaRefLike;
    assert Counts(f, m, field) <==> field in SafeRefs(f, m);
    assert Counts(f, n, field) <==> field in SafeRefs(f, n);
    if Counts(f, m, field) {
      assert SafeRefs(f, m)[field] == SafeRefs(f, n)[field];
    }
  }

  /** The rest of what reaches the client: the failure flag, and the refs that the fingerprint does not count. */
  ghost predicate SameBeyond(f: Filters, m: map<Name, Raw>, n: map<Name, Raw>) {
    && Lookup(m, FakeFailure) == Lookup(n, FakeFailure)
    && forall field | !Counts(f, m, field) :: Lookup(m, Ref(field)) == Lookup(n, Ref(field))
  }

  lemma SentAgreesExactly(f: Filters, m: map<Name, Raw>, n: map<Name, Raw>, op: Operation)
    requires SafeRefs(f, m) == SafeRefs(f, n)
    ensures Sent(m, op) == Sent(n, op) <==> SameBeyond(f, m, n)
  {
    SentValues(m, op);
    SentValues(n, op);
    SameLookups(Sent(m, op).values, Sent(n, op).values);
    forall field
      ensures Counts(f, m, field) ==> Lookup(m, Ref(field)) == Lookup(n, Ref(field))
    {
      CountedAlike(f, m, n, field);
    }
    hide Counts, SafeRefs, Present, PolicyOf;
    if Sent(m, op) == Sent(n, op) {
      assert Lookup(Sent(m, op).values, FakeFailure) == Lookup(Sent(n, op).values, FakeFailure);
      forall field
        ensures Lookup(m, Ref(field)) == Lookup(n, Ref(field))
      {
        assert Lookup(Sent(m, op).values, Ref(field)) == Lookup(Sent(n, op).values, Ref(field));
      }
    }
  }

  function Deciding(m: map<Name, Raw>, d: map<Name, Raw>): Raw {
    Record(m[ApprovalDecision := Record(d)])
  }

  lemma GrantsItsOwn(f: Filters, m: map<Name, Raw>, op: Operation, d: map<Name, Raw>)
    requires Understood(f, m, op) && Grants(f, d, ContextOf(m, op))
    ensures Grants(f, d, ContextOf(m[ApprovalDecision := Record(d)], op))
  {
    var n := m[ApprovalDecision := Record(d)];
    DecisionChangesNothingElse(f, m, d, op);
    assert RequirementRefOf(f, ContextOf(n, op)) == RequirementRefOf(f, ContextOf(m, op)) by {
      hide Body, ContextOf, OperationName, ChecksumText;
    }
    hide Understood, ReadOperation, Sent, Body, ContextOf, RequirementRefOf, PublicRefOk, TextAt, AllowedDecisionKey, Asks,
         EffectWord;
  }

  lemma GrantedIsSent(f: Filters, answer: ClientRequest -> Envelope, m: map<Name, Raw>, op: Operation, d: map<Name, Raw>)
    requires op !in READERS && Understood(f, m, op) && Grants(f, d, ContextOf(m, op))
    ensures HandleRequest(f, answer, Deciding(m, d)).1 == [Sent(m, op)]
  {
    hide HandleRequest, Understood, ReadOperation, Sent, ContextOf, Grants;
    GrantsItsOwn(f, m, op, d);
    ClientCalledExactly(f, answer, m[ApprovalDecision := Record(d)]);
    DecisionChangesNothingElse(f, m, d, op);
    UnderstoodReads(f, m, op);
  }

  /**
   Two whole requests with the same operation, scopes and counted refs: a decision that grants one grants the
   other, both reach the client, and the two calls are the same exactly when failure flag and uncounted refs are.
   */
  lemma OneDecisionTwoCalls(f: Filters, answer: ClientRequest -> Envelope, m: map<Name, Raw>, n: map<Name, Raw>,
                            op: Operation, d: map<Name, Raw>)
    requires op !in READERS && Understood(f, m, op) && Understood(f, n, op) && Grants(f, d, ContextOf(m, op))
    requires ContextOf(n, op).idempotencyRef == ContextOf(m, op).idempotencyRef
    requires ContextOf(n, op).requestRef == ContextOf(m, op).requestRef && SafeRefs(f, m) == SafeRefs(f, n)
    ensures HandleRequest(f, answer, Deciding(m, d)).1 == [Sent(m, op)]
    ensures HandleRequest(f, answer, Deciding(n, d)).1 == [Sent(n, op)]
    ensures Sent(m, op) == Sent(n, op) <==> SameBeyond(f, m, n)
  {
    UnderstoodScopes(f, m, op);
    UnderstoodScopes(f, n, op);
    ContextFields(m, op);
    ContextFields(n, op);
    hide HandleRequest, Understood, Sent, PolicyOf, ContextOf, SafeScopes, Grants, SafeRefs, SameBeyond, Deciding;
    GrantsTransfer(f, d, ContextOf(m, op), ContextOf(n, op));
    GrantedIsSent(f, answer, m, op, d);
    GrantedIsSent(f, answer, n, op, d);
    SentAgreesExactly(f, m, n, op);
  }

  lemma FlaggedIsUnderstood(f: Filters, m: map<Name, Raw>, op: Operation, flag: bool)
    requires Understood(f, m, op)
    ensures var n := m[FakeFailure := Bool(flag)];
            && Understood(f, n, op) && SafeRefs(f, n) == SafeRefs(f, m)
            && ContextOf(n, op).idempotencyRef == ContextOf(m, op).idempotencyRef
            && ContextOf(n, op).requestRef == ContextOf(m, op).requestRef
  {
    hide ReadOrder, Needs, Names, ParseOperation, SafePrefixedRef, S.ValidateRef, SafeInputSummary;
    assert ValidValue(f.session, FakeFailure, Bool(flag));
    hide ValidValue;
  }

  /** A witness for any pending request: the decision for it also lets a failing variant of it through. */
  lemma FailureFlagIsNotCovered(f: Filters, answer: ClientRequest -> Envelope, m: map<Name, Raw>, op: Operation)
    requires Awaits(f, m, op) && FakeFailure !in m
    ensures var d := DecisionFor(RequirementFor(f, ContextOf(m, op)));
            var n := m[FakeFailure := Bool(true)];
            && HandleRequest(f, answer, Deciding(m, d)).1 == [Sent(m, op)]
            && HandleRequest(f, answer, Deciding(n, d)).1 == [Sent(n, op)]
            && Sent(m, op) != Sent(n, op)
  {
    var n := m[FakeFailure := Bool(true)];
    assert !SameBeyond(f, m, n);
    UnderstoodScopes(f, m, op);
    hide HandleRequest, Understood, Sent, PolicyOf, ContextOf, SafeScopes, SafeRefs, SameBeyond, Deciding, RequirementFor,
         DecisionFor, Grants, Checksum.Fold, Body;
    FlaggedIsUnderstood(f, m, op, true);
    DecisionCoversExactly(f, ContextOf(m, op), ContextOf(m, op));
    OneDecisionTwoCalls(f, answer, m, n, op, DecisionFor(RequirementFor(f, ContextOf(m, op))));
  }
}
