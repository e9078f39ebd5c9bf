/**
 The two-phase approval runtime: a request for a mutating operation is first answered with a requirement,
 and reaches the client only with a decision that matches the requirement.
 */
module ApprovalRuntime {
  import opened Common
  import opened OcaOperations
  import S = SessionModel
  import Checksum
  import Hex

  const SEED := 23
  const MULTIPLIER := 33
  const MAX_SAFE_REF_LENGTH := 96
  const MAX_SAFE_REF_BODY_LENGTH := 64

  /** The word lists of the session model and of this runtime, and the unsafe-property and unsafe-answer tests. */
  datatype Filters = Filters(
    session: S.TextPolicy, runtime: S.TextPolicy, unsafeKey: string -> bool, safeEnvelope: Envelope -> bool)

  // ----- safe refs -----

  predicate SafePrefixedRef(f: Filters, value: string, prefix: string) {
    && value != "" && JsLength(value) <= MAX_SAFE_REF_LENGTH && prefix <= value
    && !S.UnsafeText(f.runtime, value)
    && var body := value[|prefix|..];
       body != "" && JsLength(body) <= MAX_SAFE_REF_BODY_LENGTH && S.SafeBody(body)
  }

  predicate SafeOcaRefLike(f: Filters, value: string) {
    exists field | field in REF_FIELDS :: SafePrefixedRef(f, value, S.Prefix(RefKind(field)))
  }

  /** A property that counts for the fingerprint. */
  predicate Counts(f: Filters, m: map<Name, Raw>, field: RefField) {
    Ref(field) in m && m[Ref(field)].Text? && SafeOcaRefLike(f, m[Ref(field)].text)
  }

  // ----- the request -----

  datatype RuntimeCode =
    | NotAnObject | MissingOperation | UnsafeField | BadOperation | BadApproval | ApprovalIsRequired | UnsafeJson

  datatype RuntimeIssue = RuntimeIssue(code: RuntimeCode, field: Option<Name>)

  datatype Context = Context(
    fields: map<Name, Raw>, op: Operation, idempotencyRef: Option<string>, requestRef: Option<string>)

  datatype RuntimeRefusal = RuntimeRefusal(issues: seq<RuntimeIssue>, op: Option<Operation>)

  predicate HasUnsafeKey(f: Filters, m: map<Name, Raw>) {
    exists name | name in m :: name.Other? && f.unsafeKey(name.text)
  }

  predicate SafePublicRef(f: Filters, value: Raw, prefix: string) {
    value.Text? && SafePrefixedRef(f, value.text, prefix)
  }

  function PublicRef(f: Filters, m: map<Name, Raw>, name: Name, prefix: string): Result<Option<string>, RuntimeIssue> {
    if name !in m then Ok(None)
    else if !SafePublicRef(f, m[name], prefix) then Err(RuntimeIssue(UnsafeField, Some(name)))
    else Ok(Some(m[name].text))
  }

  function IssuesOf<T>(r: Result<T, RuntimeIssue>): seq<RuntimeIssue> {
    if r.Ok? then [] else [r.error]
  }

  function NormalizeRequest(f: Filters, input: Raw): Result<Context, RuntimeRefusal> {
    if !input.Record? then Err(RuntimeRefusal([RuntimeIssue(NotAnObject, None)], None))
    else
      var m := input.fields;
      if HasUnsafeKey(f, m) then Err(RuntimeRefusal([RuntimeIssue(UnsafeField, None)], None))
      else
        match ReadOperation(m)
        case Err(code) =>
          Err(RuntimeRefusal([RuntimeIssue(if code == MissingField then MissingOperation else BadOperation,
                                           Some(OperationRef))], None))
        case Ok(op) =>
          var idempotency := PublicRef(f, m, IdempotencyRef, "idempotency:");
          var request := PublicRef(f, m, RequestRef, "request:");
          if idempotency.Ok? && request.Ok? then Ok(Context(m, op, idempotency.value, request.value))
          else Err(RuntimeRefusal(IssuesOf(idempotency) + IssuesOf(request), Some(op)))
  }

  // ----- the requirement -----

  function FieldName(field: RefField): string {
    match field
    case SessionRef => "sessionRef"
    case TaskRef => "taskRef"
    case WorktreeRef => "worktreeRef"
    case BranchRef => "branchRef"
    case OutputRef => "outputRef"
    case LogRef => "logRef"
    case DiffRef => "diffRef"
    case ArtifactRef => "artifactRef"
    case ReviewRef => "reviewRef"
  }

  function EffectText(effect: Effect): string {
    match effect
    case ReadOnlyEffect => "read-only"
    case ExternalEffect => "external-effect"
    case RepositoryMutation => "repository-mutation"
  }

  function ApprovalText(approval: Approval): string {
    match approval
    case ReadOnly => "read-only"
    case ExternalEffectApproval => "approval-required-external-effect"
    case RepositoryMutationApproval => "approval-required-repository-mutation"
  }

  function ReplayText(replay: Replay): string {
    match replay
    case ReadRepeatable => "read-repeatable"
    case IdempotentRequest => "idempotent-request"
    case ApprovalGatedOnce => "approval-gated-once"
  }

  function Part(field: RefField, value: string): string {
    FieldName(field) + "=" + value
  }

  function Parts(f: Filters, m: map<Name, Raw>, fields: seq<RefField>): seq<string> {
    if fields == [] then []
    else
      var last := fields[|fields| - 1];
      Parts(f, m, fields[..|fields| - 1]) + if Counts(f, m, last) then [Part(last, m[Ref(last)].text)] else []
  }

  method SafeRefFingerprintParts(f: Filters, m: map<Name, Raw>) returns (parts: seq<string>)
    ensures parts == Parts(f, m, REF_FIELDS)
  {
    hide SafeOcaRefLike, Part;
    parts := [];
    for i := 0 to |REF_FIELDS|
      invariant parts == Parts(f, m, REF_FIELDS[..i])
    {
      var field := REF_FIELDS[i];
      assert REF_FIELDS[..i + 1][..i] == REF_FIELDS[..i];
      if Counts(f, m, field) {
        parts := parts + [Part(field, m[Ref(field)].text)];
      }
    }
    assert REF_FIELDS[..|REF_FIELDS|] == REF_FIELDS;
  }

  function OrNone(ref: Option<string>): string {
    if ref.Some? then ref.value else "none"
  }

  function Head(c: Context): seq<string> {
    [OperationText(c.op), EffectText(PolicyOf(c.op).effect), ApprovalText(PolicyOf(c.op).approval),
     ReplayText(PolicyOf(c.op).replay), OrNone(c.idempotencyRef), OrNone(c.requestRef)]
  }

  function Body(f: Filters, c: Context): string {
    Join('|', Head(c) + Parts(f, c.fields, REF_FIELDS))
  }

  function ChecksumText(body: string): string {
    Hex.Show(Hex.Print(Checksum.Fold(MULTIPLIER, SEED, body), 4))
  }

  function RequirementRefOf(f: Filters, c: Context): string {
    "approval-requirement:" + OperationName(c.op) + "-" + ChecksumText(Body(f, c))
  }

  /** The refs that count for the fingerprint. */
  function SafeRefs(f: Filters, m: map<Name, Raw>): map<RefField, string> {
    map field | field in REF_FIELDS && Counts(f, m, field) :: m[Ref(field)].text
  }

  datatype Requirement = Requirement(
    ref: string, op: Operation, effect: Effect, approval: Approval,
    idempotencyRef: Option<string>, requestRef: Option<string>, safeRefs: map<RefField, string>)

  function RequirementFor(f: Filters, c: Context): Requirement {
    Requirement(RequirementRefOf(f, c), c.op, PolicyOf(c.op).effect, PolicyOf(c.op).approval,
                c.idempotencyRef, c.requestRef, SafeRefs(f, c.fields))
  }

  // ----- the decision -----

  predicate AllowedDecisionKey(name: Name) {
    name in {Kind, Approved, RequirementRef, OperationRef, EffectName, IdempotencyRef, RequestRef, DecisionRef}
  }

  function Expect(m: map<Name, Raw>, name: Name, value: Raw): seq<RuntimeIssue> {
    if Lookup(m, name) == Some(value) then [] else [RuntimeIssue(BadApproval, Some(name))]
  }

  /** The issues about one of the two public refs: its own validity, and its agreement with the request's. */
  function ExpectRef(read: Result<Option<string>, RuntimeIssue>, name: Name, wanted: Option<string>): seq<RuntimeIssue> {
    var found := if read.Ok? then read.value else None;
    if found == wanted then [] else [RuntimeIssue(BadApproval, Some(name))]
  }

  /** The issues a decision raises; none means that it grants the request. */
  function DecisionIssues(f: Filters, decision: Raw, c: Context): seq<RuntimeIssue> {
    var refused := [RuntimeIssue(BadApproval, Some(ApprovalDecision))];
    if !decision.Record? then refused
    else
      var m := decision.fields;
      if HasUnsafeKey(f, m) then refused
      else if exists name | name in m :: !AllowedDecisionKey(name) then refused
      else if PolicyOf(c.op).approval == ReadOnly then refused
      else
        var idempotency := PublicRef(f, m, IdempotencyRef, "idempotency:");
        var request := PublicRef(f, m, RequestRef, "request:");
        Expect(m, Kind, Text("explicit-approval")) + Expect(m, Approved, Bool(true)) +
        Expect(m, OperationRef, Text(OperationText(c.op))) +
        Expect(m, EffectName, Text(EffectText(PolicyOf(c.op).effect))) +
        Expect(m, RequirementRef, Text(RequirementRefOf(f, c))) +
        IssuesOf(idempotency) + IssuesOf(request) +
        (if DecisionRef in m && !SafePublicRef(f, m[DecisionRef], "approval-decision:")
         then [RuntimeIssue(BadApproval, Some(DecisionRef))] else []) +
        ExpectRef(idempotency, IdempotencyRef, c.idempotencyRef) + ExpectRef(request, RequestRef, c.requestRef)
  }

  // ----- the runtime -----

  datatype Status = ExecutedStatus | ApprovalRequired | InvalidOperationStatus | InvalidApproval | FakeFailedStatus

  datatype ApprovalState = NotRequired | Pending | ApprovedState | InvalidState | Unknown

  /** `called` is the reported `fakeExecution`. */
  datatype ToolResult = ToolResult(
    status: Status, called: bool, op: Option<Operation>, approval: ApprovalState, issues: seq<RuntimeIssue>,
    requirement: Option<Requirement>, handled: Option<Handled>)

  function ApprovalStateOf(op: Operation, state: ApprovalState): ApprovalState {
    if PolicyOf(op).approval == ReadOnly then NotRequired else state
  }

  function OperationIssues(issues: seq<Issue>): seq<RuntimeIssue> {
    seq(|issues|, i requires 0 <= i < |issues| => RuntimeIssue(BadOperation, issues[i].field))
  }

  function InvalidResult(status: Status, issues: seq<RuntimeIssue>, op: Option<Operation>): ToolResult {
    ToolResult(status, false, op,
               if op.None? then Unknown
               else ApprovalStateOf(op.value, if status == InvalidApproval then InvalidState else Pending),
               issues, None, None)
  }

  predicate WasCalled(h: Handled) {
    h.Executed? || h.FakeFailed?
  }

  /** A result that carries an unsafe client answer is replaced by a bare envelope. */
  function SafeResult(f: Filters, r: ToolResult): ToolResult {
    if r.handled.Some? && WasCalled(r.handled.value) && !f.safeEnvelope(r.handled.value.envelope) then
      ToolResult(InvalidOperationStatus, false, None, Unknown, [RuntimeIssue(UnsafeJson, None)], None, None)
    else r
  }

  function ResultFromHandler(f: Filters, h: Handled, c: Context, state: ApprovalState, requirement: Option<Requirement>)
    : ToolResult
  {
    SafeResult(f, ToolResult(
      if h.FakeFailed? then FakeFailedStatus else if h.Invalid? then InvalidOperationStatus else ExecutedStatus,
      WasCalled(h), Some(c.op), ApprovalStateOf(c.op, state),
      if h.Invalid? then OperationIssues(h.refusal.issues) else [], requirement, Some(h)))
  }

  function InputKeys(): seq<Name> {
    [OperationRef, FakeFailure, Ref(SessionRef), Ref(TaskRef), Ref(WorktreeRef), Ref(BranchRef), Ref(OutputRef),
     Ref(LogRef), Ref(DiffRef), Ref(ArtifactRef), Ref(ReviewRef), InputSummary]
  }

  function Copied(m: map<Name, Raw>, names: seq<Name>): map<Name, Raw> {
    map name | name in names && name in m :: m[name]
  }

  function OperationInput(m: map<Name, Raw>, approved: bool): Raw {
    var copied := Copied(m, InputKeys());
    Record(if approved then copied[Approved := Bool(true)] else copied)
  }

  method BuildOperationInput(m: map<Name, Raw>, approved: bool) returns (input: Raw)
    ensures input == OperationInput(m, approved)
  {
    var keys := InputKeys();
    hide InputKeys;
    var output := map[];
    for i := 0 to |keys|
      invariant output == Copied(m, keys[..i])
    {
      assert forall name :: name in keys[..i + 1] <==> name in keys[..i] || name == keys[i];
      if keys[i] in m {
        output := output[keys[i] := m[keys[i]]];
      }
    }
    assert keys[..|keys|] == keys;
    if approved {
      output := output[Approved := Bool(true)];
    }
    input := Record(output);
  }

  function HandleRequest(f: Filters, answer: ClientRequest -> Envelope, input: Raw): (ToolResult, seq<ClientRequest>) {
    match NormalizeRequest(f, input)
    case Err(refusal) => (InvalidResult(InvalidOperationStatus, refusal.issues, refusal.op), [])
    case Ok(c) =>
      if Approved in c.fields then
        (InvalidResult(InvalidApproval, [RuntimeIssue(BadApproval, Some(ApprovalDecision))], Some(c.op)), [])
      else if PolicyOf(c.op).approval == ReadOnly then
        if ApprovalDecision in c.fields && DecisionIssues(f, c.fields[ApprovalDecision], c) != [] then
          (InvalidResult(InvalidApproval, DecisionIssues(f, c.fields[ApprovalDecision], c), Some(c.op)), [])
        else
          var (handled, calls) := Handle(f.session, answer, OperationInput(c.fields, false));
          (ResultFromHandler(f, handled, c, NotRequired, None), calls)
      else
        var (pre, first) := Handle(f.session, answer, OperationInput(c.fields, false));
        if pre.Invalid? then
          (InvalidResult(InvalidOperationStatus, OperationIssues(pre.refusal.issues), Some(c.op)), first)
        else if ApprovalDecision !in c.fields then
          (ToolResult(ApprovalRequired, false, Some(c.op), ApprovalStateOf(c.op, Pending),
                      [RuntimeIssue(ApprovalIsRequired, Some(ApprovalDecision))], Some(RequirementFor(f, c)), None), first)
        else if DecisionIssues(f, c.fields[ApprovalDecision], c) != [] then
          (InvalidResult(InvalidApproval, DecisionIssues(f, c.fields[ApprovalDecision], c), Some(c.op)), first)
        else
          var (handled, second) := Handle(f.session, answer, OperationInput(c.fields, true));
          (ResultFromHandler(f, handled, c, ApprovedState, Some(RequirementFor(f, c))), first + second)
  }

  method HandleToolRequest(f: Filters, client: Client, input: Raw) returns (result: ToolResult)
    modifies client`calls
    ensures result == HandleRequest(f, client.answer, input).0
    ensures client.calls == old(client.calls) + HandleRequest(f, client.answer, input).1
  {
    hide NormalizeRequest, PolicyOf, DecisionIssues, Handle, InvalidResult, ResultFromHandler, RequirementFor,
         OperationInput, OperationIssues, ApprovalStateOf, Callable;
    var normalized := NormalizeRequest(f, input);
    if normalized.Err? {
      return InvalidResult(InvalidOperationStatus, normalized.error.issues, normalized.error.op);
    }
    var c := normalized.value;
    if Approved in c.fields {
      return InvalidResult(InvalidApproval, [RuntimeIssue(BadApproval, Some(ApprovalDecision))], Some(c.op));
    }
    if PolicyOf(c.op).approval == ReadOnly {
      if ApprovalDecision in c.fields {
        var issues := DecisionIssues(f, c.fields[ApprovalDecision], c);
        if issues != [] { return InvalidResult(InvalidApproval, issues, Some(c.op)); }
      }
      var plain := BuildOperationInput(c.fields, false);
      var handled := HandleOperation(f.session, client, plain);
      return ResultFromHandler(f, handled, c, NotRequired, None);
    }
    var plain := BuildOperationInput(c.fields, false);
    var pre := HandleOperation(f.session, client, plain);
    if pre.Invalid? {
      return InvalidResult(InvalidOperationStatus, OperationIssues(pre.refusal.issues), Some(c.op));
    }
    var requirement := RequirementFor(f, c);
    if ApprovalDecision !in c.fields {
      return ToolResult(ApprovalRequired, false, Some(c.op), ApprovalStateOf(c.op, Pending),
                        [RuntimeIssue(ApprovalIsRequired, Some(ApprovalDecision))], Some(requirement), None);
    }
    var issues := DecisionIssues(f, c.fields[ApprovalDecision], c);
    if issues != [] { return InvalidResult(InvalidApproval, issues, Some(c.op)); }
    var approvedInput := BuildOperationInput(c.fields, true);
    var handled := HandleOperation(f.session, client, approvedInput);
    return ResultFromHandler(f, handled, c, ApprovedState, Some(requirement));
  }
}
