/**
 Operation requests: validation against the operation table, and the one call made to the injected client.

 Property names are the constructors of `Name`; every name that is not spelled out is an `Other`.
 */
module OcaOperations {
  import opened Common
  import S = SessionModel

  // ----- the operation table -----

  datatype Operation =
    | StartSession | ContinueSession | SendInput | GetStatus | GetOutput | ListSessions | Cancel | Archive
    | DiffGet | ReviewRequest | ReviewSubmit | BranchSummarize | LogsSummarize

  const OPERATIONS := [StartSession, ContinueSession, SendInput, GetStatus, GetOutput, ListSessions, Cancel, Archive,
                       DiffGet, ReviewRequest, ReviewSubmit, BranchSummarize, LogsSummarize]

  datatype Approval = ReadOnly | ExternalEffectApproval | RepositoryMutationApproval

  datatype Effect = ReadOnlyEffect | ExternalEffect | RepositoryMutation

  datatype Replay = ReadRepeatable | IdempotentRequest | ApprovalGatedOnce

  datatype Policy = Policy(approval: Approval, effect: Effect, replay: Replay, mutating: bool)

  /** The part of an operation ref after its last dot. */
  function OperationName(op: Operation): string {
    match op
    case StartSession => "start-session"
    case ContinueSession => "continue-session"
    case SendInput => "send-input"
    case GetStatus => "get-status"
    case GetOutput => "get-output"
    case ListSessions => "list"
    case Cancel => "cancel"
    case Archive => "archive"
    case DiffGet => "diff-get"
    case ReviewRequest => "review-request"
    case ReviewSubmit => "review-submit"
    case BranchSummarize => "branch-summarize"
    case LogsSummarize => "logs-summarize"
  }

  function OperationText(op: Operation): string {
    "hazeteam.oca." + OperationName(op)
  }

  function ApprovalOf(op: Operation): Approval {
    match op
    case GetStatus => ReadOnly
    case GetOutput => ReadOnly
    case ListSessions => ReadOnly
    case DiffGet => ReadOnly
    case BranchSummarize => ReadOnly
    case LogsSummarize => ReadOnly
    case ReviewSubmit => RepositoryMutationApproval
    case _ => ExternalEffectApproval
  }

  function ReplayOf(op: Operation): Replay {
    if ApprovalOf(op) == ReadOnly then ReadRepeatable
    else if op == StartSession then IdempotentRequest
    else ApprovalGatedOnce
  }

  function EffectFromApproval(approval: Approval): Effect {
    match approval
    case ReadOnly => ReadOnlyEffect
    case RepositoryMutationApproval => RepositoryMutation
    case ExternalEffectApproval => ExternalEffect
  }

  function PolicyOf(op: Operation): Policy {
    var effect := EffectFromApproval(ApprovalOf(op));
    Policy(ApprovalOf(op), effect, ReplayOf(op), effect != ReadOnlyEffect)
  }

  function ParseOperation(text: string): Option<Operation> {
    S.Parse(text, OPERATIONS, OperationText)
  }

  lemma OperationNameIsInjective(a: Operation, b: Operation)
    requires OperationName(a) == OperationName(b)
    ensures a == b
  {
    assert |OperationName(a)| == |OperationName(b)| && OperationName(a)[0] == OperationName(b)[0];
    assert |OperationName(a)| == 10 ==> OperationName(a)[4] == OperationName(b)[4];
  }

  lemma EveryOperationIsListed(op: Operation)
    ensures op in OPERATIONS
  {
    assert op == OPERATIONS[0] || op == OPERATIONS[1] || op == OPERATIONS[2] || op == OPERATIONS[3] ||
           op == OPERATIONS[4] || op == OPERATIONS[5] || op == OPERATIONS[6] || op == OPERATIONS[7] ||
           op == OPERATIONS[8] || op == OPERATIONS[9] || op == OPERATIONS[10] || op == OPERATIONS[11] ||
           op == OPERATIONS[12];
  }

  lemma OperationTextParses(op: Operation)
    ensures ParseOperation(OperationText(op)) == Some(op)
  {
    EveryOperationIsListed(op);
    hide OperationName, S.Parse;
    S.ParseFinds(OperationText(op), OPERATIONS, OperationText);
    var found := ParseOperation(OperationText(op)).value;
    assert OperationText(found)[13..] == OperationName(found) && OperationText(op)[13..] == OperationName(op);
    OperationNameIsInjective(op, found);
  }

  // ----- the table, stated -----

  /** The operations that only read. */
  const READERS := {GetStatus, GetOutput, ListSessions, DiffGet, BranchSummarize, LogsSummarize}

  /** The public ref of each operation. */
  predicate Names(text: string, op: Operation) {
    "hazeteam.oca." <= text && Named(text[13..], op)
  }

  predicate Named(name: string, op: Operation) {
    || (name == "start-session" && op == StartSession)
    || (name == "continue-session" && op == ContinueSession)
    || (name == "send-input" && op == SendInput)
    || (name == "get-status" && op == GetStatus)
    || (name == "get-output" && op == GetOutput)
    || (name == "list" && op == ListSessions)
    || (name == "cancel" && op == Cancel)
    || (name == "archive" && op == Archive)
    || (name == "diff-get" && op == DiffGet)
    || (name == "review-request" && op == ReviewRequest)
    || (name == "review-submit" && op == ReviewSubmit)
    || (name == "branch-summarize" && op == BranchSummarize)
    || (name == "logs-summarize" && op == LogsSummarize)
  }

  /** What an operation may change. */
  function EffectOn(op: Operation): Effect {
    if op in READERS then ReadOnlyEffect
    else if op == ReviewSubmit then RepositoryMutation
    else ExternalEffect
  }

  lemma NamedExactly(name: string, op: Operation)
    ensures name == OperationName(op) <==> Named(name, op)
  {}

  /** The text of an operation is its public ref, and of no other operation. */
  lemma NamesExactly(text: string, op: Operation)
    ensures text == OperationText(op) <==> Names(text, op)
  {
    hide OperationName, Named;
    var start := "hazeteam.oca.";
    assert start <= text ==> text == start + text[13..];
    assert start <= OperationText(op) && OperationText(op)[13..] == OperationName(op);
    if start <= text {
      NamedExactly(text[13..], op);
    }
  }

  lemma ParsesExactly(text: string, op: Operation)
    ensures ParseOperation(text) == Some(op) <==> Names(text, op)
  {
    hide OperationText, Names;
    OperationTextParses(op);
    S.ParseFinds(text, OPERATIONS, OperationText);
    NamesExactly(text, op);
  }

  // ----- raw requests -----

  datatype RefField =
    SessionRef | TaskRef | WorktreeRef | BranchRef | OutputRef | LogRef | DiffRef | ArtifactRef | ReviewRef

  const REF_FIELDS := [SessionRef, TaskRef, WorktreeRef, BranchRef, OutputRef, LogRef, DiffRef, ArtifactRef, ReviewRef]

  datatype Name =
    | OperationRef | Approved | FakeFailure | InputSummary | Ref(field: RefField)
    | IdempotencyRef | RequestRef | ApprovalDecision
    | Kind | RequirementRef | EffectName | DecisionRef
    | Other(text: string)

  datatype Raw =
    | Text(text: string)
    | Bool(flag: bool)
    | Record(fields: map<Name, Raw>)
    | OtherValue

  datatype Code = NotObject | MissingField | InvalidField | InvalidOperation | InvalidRef | UnsafeSummary

  datatype Issue = Issue(code: Code, field: Option<Name>)

  /** `values` holds the optional properties that were present, all of them valid. */
  datatype Request = Request(op: Operation, values: map<Name, Raw>)

  datatype Refusal = Refusal(issues: seq<Issue>, op: Option<Operation>)

  function RefKind(f: RefField): S.RefKind {
    match f
    case SessionRef => S.SessionKind
    case TaskRef => S.TaskKind
    case WorktreeRef => S.WorktreeKind
    case BranchRef => S.BranchKind
    case OutputRef => S.OutputKind
    case LogRef => S.LogKind
    case DiffRef => S.DiffKind
    case ArtifactRef => S.ArtifactKind
    case ReviewRef => S.ReviewKind
  }

  const MAX_INPUT_SUMMARY := 240

  predicate SafeInputSummary(s: string) {
    0 < JsLength(s) <= MAX_INPUT_SUMMARY && !S.HasChar(s, "\\/{}[]")
  }

  lemma SummaryExactly(s: string)
    ensures SafeInputSummary(s) <==> 1 <= JsLength(s) <= 240 && forall c | c in s :: c !in "\\/{}[]"
  {}

  /** The optional properties, in the order they are read. */
  function ReadOrder(): seq<Name> {
    [Approved, FakeFailure, InputSummary, Ref(SessionRef), Ref(TaskRef), Ref(WorktreeRef),
     Ref(BranchRef), Ref(OutputRef), Ref(LogRef), Ref(DiffRef), Ref(ArtifactRef), Ref(ReviewRef)]
  }

  lemma ReadNames(name: Name)
    ensures name in ReadOrder() <==> name.Approved? || name.FakeFailure? || name.InputSummary? || name.Ref?
  {
    var order := ReadOrder();
    match name
    case Approved => assert order[0] == name;
    case FakeFailure => assert order[1] == name;
    case InputSummary => assert order[2] == name;
    case Ref(SessionRef) => assert order[3] == name;
    case Ref(TaskRef) => assert order[4] == name;
    case Ref(WorktreeRef) => assert order[5] == name;
    case Ref(BranchRef) => assert order[6] == name;
    case Ref(OutputRef) => assert order[7] == name;
    case Ref(LogRef) => assert order[8] == name;
    case Ref(DiffRef) => assert order[9] == name;
    case Ref(ArtifactRef) => assert order[10] == name;
    case Ref(ReviewRef) => assert order[11] == name;
    case _ =>
  }

  predicate ValidValue(text: S.TextPolicy, name: Name, value: Raw) {
    match name
    case InputSummary => value.Text? && SafeInputSummary(value.text)
    case Ref(f) => value.Text? && S.ValidateRef(text, RefKind(f), S.Text(value.text)).Ok?
    case _ => value.Bool?
  }

  function CodeFor(name: Name): Code {
    match name
    case InputSummary => UnsafeSummary
    case Ref(_) => InvalidRef
    case _ => InvalidField
  }

  function ReadIssues(text: S.TextPolicy, m: map<Name, Raw>, names: seq<Name>): seq<Issue> {
    if names == [] then []
    else
      (if names[0] in m && !ValidValue(text, names[0], m[names[0]]) then [Issue(CodeFor(names[0]), Some(names[0]))] else [])
      + ReadIssues(text, m, names[1..])
  }

  function ReadValues(text: S.TextPolicy, m: map<Name, Raw>): map<Name, Raw> {
    map name | name in ReadOrder() && name in m && ValidValue(text, name, m[name]) :: m[name]
  }

  /** The refs an operation cannot do without, in the order they are checked. */
  function Required(op: Operation): seq<RefField> {
    match op
    case StartSession => [TaskRef]
    case ListSessions => []
    case GetOutput => [SessionRef, OutputRef]
    case DiffGet => [SessionRef, DiffRef]
    case ReviewSubmit => [SessionRef, ReviewRef]
    case _ => [SessionRef]
  }

  /** Which operation needs which ref. */
  predicate Needs(op: Operation, field: RefField) {
    || (field == TaskRef && op == StartSession)
    || (field == SessionRef && op !in {StartSession, ListSessions})
    || (field == OutputRef && op == GetOutput)
    || (field == DiffRef && op == DiffGet)
    || (field == ReviewRef && op == ReviewSubmit)
  }

  function RequiredIssues(values: map<Name, Raw>, fields: seq<RefField>): seq<Issue> {
    if fields == [] then []
    else
      (if Ref(fields[0]) !in values then [Issue(MissingField, Some(Ref(fields[0])))] else [])
      + RequiredIssues(values, fields[1..])
  }

  function ReadOperation(m: map<Name, Raw>): Result<Operation, Code> {
    if OperationRef !in m then Err(MissingField)
    else
      var op := if m[OperationRef].Text? then ParseOperation(m[OperationRef].text) else None;
      if op.None? then Err(InvalidOperation) else Ok(op.value)
  }

  function Normalize(text: S.TextPolicy, input: Raw): Result<Request, Refusal> {
    if !input.Record? then Err(Refusal([Issue(NotObject, None)], None))
    else
      var m, values := input.fields, ReadValues(text, input.fields);
      match ReadOperation(m)
      case Err(code) => Err(Refusal([Issue(code, Some(OperationRef))] + ReadIssues(text, m, ReadOrder()), None))
      case Ok(op) =>
        var issues := ReadIssues(text, m, ReadOrder()) + RequiredIssues(values, Required(op));
        if issues != [] then Err(Refusal(issues, Some(op))) else Ok(Request(op, values))
  }

  /** The request names this operation by its public ref. */
  ghost predicate Asks(m: map<Name, Raw>, op: Operation) {
    OperationRef in m && m[OperationRef].Text? && Names(m[OperationRef].text, op)
  }

  /** What a caller has to send: an operation, valid values for the known properties, and the refs it needs. */
  ghost predicate WellFormed(text: S.TextPolicy, m: map<Name, Raw>, op: Operation) {
    && Asks(m, op)
    && (forall name | name in ReadOrder() && name in m :: ValidValue(text, name, m[name]))
    && (forall f | Needs(op, f) :: Ref(f) in m)
  }

  /** The operation table, column by column; every operation that may change something names its target. */
  lemma TableExactly(op: Operation)
    ensures var p := PolicyOf(op);
            && (p.mutating <==> op !in READERS) && p.effect == EffectOn(op)
            && (p.approval == ReadOnly <==> op in READERS)
            && (p.approval == RepositoryMutationApproval <==> op == ReviewSubmit)
            && (p.replay == ReadRepeatable <==> op in READERS) && (p.replay == IdempotentRequest <==> op == StartSession)
            && (p.mutating ==> Needs(op, SessionRef) || Needs(op, TaskRef))
    ensures forall f :: f in Required(op) <==> Needs(op, f)
  {}

  lemma ReadsExactly(m: map<Name, Raw>, op: Operation)
    ensures ReadOperation(m) == Ok(op) <==> Asks(m, op)
  {
    hide ParseOperation, Names;
    if OperationRef in m && m[OperationRef].Text? {
      ParsesExactly(m[OperationRef].text, op);
    }
  }

  lemma {:induction false} ReadIssuesEmpty(text: S.TextPolicy, m: map<Name, Raw>, names: seq<Name>)
    ensures ReadIssues(text, m, names) == [] <==>
            forall name | name in names && name in m :: ValidValue(text, name, m[name])
  {
    hide ValidValue, CodeFor;
    if names != [] {
      ReadIssuesEmpty(text, m, names[1..]);
      assert forall name :: name in names <==> name == names[0] || name in names[1..];
    }
  }

  lemma {:induction false} RequiredIssuesEmpty(values: map<Name, Raw>, fields: seq<RefField>)
    ensures RequiredIssues(values, fields) == [] <==> forall f | f in fields :: Ref(f) in values
  {
    if fields != [] {
      RequiredIssuesEmpty(values, fields[1..]);
      assert forall f :: f in fields <==> f == fields[0] || f in fields[1..];
    }
  }

  function Present(m: map<Name, Raw>): map<Name, Raw> {
    map name | name in ReadOrder() && name in m :: m[name]
  }

  lemma ValidValuesAreKept(text: S.TextPolicy, m: map<Name, Raw>)
    requires forall name | name in ReadOrder() && name in m :: ValidValue(text, name, m[name])
    ensures ReadValues(text, m) == Present(m)
  {
    hide ReadOrder, ValidValue;
  }

  lemma RefsArePresent(m: map<Name, Raw>, fields: seq<RefField>)
    ensures (forall f | f in fields :: Ref(f) in Present(m)) <==> forall f | f in fields :: Ref(f) in m
  {
    forall f: RefField
      ensures Ref(f) in ReadOrder()
    {
      ReadNames(Ref(f));
    }
    hide ReadOrder;
  }

  /** A request normalises exactly when it is well formed, and then keeps every known property. */
  lemma NormalizesExactly(text: S.TextPolicy, m: map<Name, Raw>, op: Operation)
    ensures WellFormed(text, m, op) <==> Normalize(text, Record(m)).Ok? && Normalize(text, Record(m)).value.op == op
    ensures WellFormed(text, m, op) ==> Normalize(text, Record(m)).value.values == Present(m)
  {
    hide ReadOrder, ValidValue, Required, ReadIssues, RequiredIssues, ReadOperation, Present, ReadValues;
    ReadsExactly(m, op);
    TableExactly(op);
    hide Asks, Needs, PolicyOf;
    ReadIssuesEmpty(text, m, ReadOrder());
    if ReadIssues(text, m, ReadOrder()) == [] {
      ValidValuesAreKept(text, m);
      RequiredIssuesEmpty(Present(m), Required(op));
      RefsArePresent(m, Required(op));
    }
  }

  lemma {:induction false} ReadIssuesHold(text: S.TextPolicy, m: map<Name, Raw>, names: seq<Name>, issue: Issue)
    ensures issue in ReadIssues(text, m, names) <==>
            exists name :: name in names && name in m && !ValidValue(text, name, m[name]) &&
                           issue == Issue(CodeFor(name), Some(name))
  {
    hide ValidValue, CodeFor;
    if names != [] {
      ReadIssuesHold(text, m, names[1..], issue);
      assert forall name :: name in names <==> name == names[0] || name in names[1..];
    }
  }

  lemma {:induction false} RequiredIssuesHold(values: map<Name, Raw>, fields: seq<RefField>, issue: Issue)
    ensures issue in RequiredIssues(values, fields) <==>
            exists f :: f in fields && Ref(f) !in values && issue == Issue(MissingField, Some(Ref(f)))
  {
    if fields != [] {
      RequiredIssuesHold(values, fields[1..], issue);
      assert forall f :: f in fields <==> f == fields[0] || f in fields[1..];
    }
  }

  /** A known property that is there with an invalid value. */
  ghost predicate Spoilt(text: S.TextPolicy, m: map<Name, Raw>, name: Name) {
    name in m && !ValidValue(text, name, m[name])
  }

  /** What is wrong with a request, issue by issue. */
  ghost predicate Wrong(text: S.TextPolicy, m: map<Name, Raw>, issue: Issue) {
    || (issue == Issue(MissingField, Some(OperationRef)) && OperationRef !in m)
    || (issue == Issue(InvalidOperation, Some(OperationRef)) && OperationRef in m && !exists op :: Asks(m, op))
    || (issue == Issue(InvalidField, Some(Approved)) && Spoilt(text, m, Approved))
    || (issue == Issue(InvalidField, Some(FakeFailure)) && Spoilt(text, m, FakeFailure))
    || (issue == Issue(UnsafeSummary, Some(InputSummary)) && Spoilt(text, m, InputSummary))
    || (exists f :: issue == Issue(InvalidRef, Some(Ref(f))) && Spoilt(text, m, Ref(f)))
    || (exists f, op :: issue == Issue(MissingField, Some(Ref(f))) && Asks(m, op) && Needs(op, f) &&
                        (Ref(f) !in m || Spoilt(text, m, Ref(f))))
  }

  lemma SpoiltIsRead(text: S.TextPolicy, m: map<Name, Raw>, issue: Issue)
    ensures issue in ReadIssues(text, m, ReadOrder()) <==>
            || (issue == Issue(InvalidField, Some(Approved)) && Spoilt(text, m, Approved))
            || (issue == Issue(InvalidField, Some(FakeFailure)) && Spoilt(text, m, FakeFailure))
            || (issue == Issue(UnsafeSummary, Some(InputSummary)) && Spoilt(text, m, InputSummary))
            || (exists f :: issue == Issue(InvalidRef, Some(Ref(f))) && Spoilt(text, m, Ref(f)))
  {
    hide ReadOrder, ReadIssues, ValidValue;
    ReadIssuesHold(text, m, ReadOrder(), issue);
    forall name
      ensures name in ReadOrder() <==> name.Approved? || name.FakeFailure? || name.InputSummary? || name.Ref?
    {
      ReadNames(name);
    }
    if issue in ReadIssues(text, m, ReadOrder()) {
      var name :| name in ReadOrder() && name in m && !ValidValue(text, name, m[name]) &&
                  issue == Issue(CodeFor(name), Some(name));
      assert Spoilt(text, m, name);
      match name
      case Ref(f) => assert issue == Issue(InvalidRef, Some(Ref(f)));
      case _ =>
    }
  }

  lemma MissingIsRead(text: S.TextPolicy, m: map<Name, Raw>, op: Operation, issue: Issue)
    ensures issue in RequiredIssues(ReadValues(text, m), Required(op)) <==>
            exists f :: issue == Issue(MissingField, Some(Ref(f))) && Needs(op, f) &&
                        (Ref(f) !in m || Spoilt(text, m, Ref(f)))
  {
    var values := ReadValues(text, m);
    RequiredIssuesHold(values, Required(op), issue);
    TableExactly(op);
    forall f: RefField
      ensures Ref(f) !in values <==> Ref(f) !in m || Spoilt(text, m, Ref(f))
    {
      ReadNames(Ref(f));
      hide ReadOrder, ValidValue;
    }
    hide ReadOrder, ReadValues, Required, RequiredIssues, Needs, PolicyOf, Spoilt;
  }

  /** Every refused request lists exactly what is wrong with it. */
  lemma IssuesExactly(text: S.TextPolicy, m: map<Name, Raw>, issue: Issue)
    ensures Normalize(text, Record(m)).Err? ==>
              (issue in Normalize(text, Record(m)).error.issues <==> Wrong(text, m, issue))
  {
    SpoiltIsRead(text, m, issue);
    forall op
      ensures ReadOperation(m) == Ok(op) <==> Asks(m, op)
    {
      ReadsExactly(m, op);
    }
    if ReadOperation(m).Ok? {
      MissingIsRead(text, m, ReadOperation(m).value, issue);
    }
    hide ReadIssues, RequiredIssues, ReadOrder, Spoilt, Asks, Needs, ReadValues, Required, ParseOperation;
  }

  ghost predicate BeginsIf(m: map<Name, Raw>, field: RefField, prefix: string) {
    Ref(field) in m ==> m[Ref(field)].Text? && prefix < m[Ref(field)].text
  }

  /** Every ref of a well-formed request begins with the prefix of its own kind. */
  lemma RefsNameTheirKinds(text: S.TextPolicy, m: map<Name, Raw>, op: Operation)
    requires WellFormed(text, m, op)
    ensures BeginsIf(m, SessionRef, "oca-session:") && BeginsIf(m, TaskRef, "oca-task:")
         && BeginsIf(m, WorktreeRef, "oca-worktree:") && BeginsIf(m, BranchRef, "oca-branch:")
         && BeginsIf(m, OutputRef, "oca-output:") && BeginsIf(m, LogRef, "oca-log:") && BeginsIf(m, DiffRef, "oca-diff:")
         && BeginsIf(m, ArtifactRef, "oca-artifact:") && BeginsIf(m, ReviewRef, "oca-review:")
  {
    forall field
      ensures BeginsIf(m, field, S.Prefix(RefKind(field)))
    {
      RefBegins(text, m, op, field);
    }
    KindPrefixes();
    hide WellFormed, BeginsIf, S.Prefix, RefKind;
  }

  lemma KindPrefixes()
    ensures S.Prefix(RefKind(SessionRef)) == "oca-session:" && S.Prefix(RefKind(TaskRef)) == "oca-task:"
         && S.Prefix(RefKind(WorktreeRef)) == "oca-worktree:" && S.Prefix(RefKind(BranchRef)) == "oca-branch:"
         && S.Prefix(RefKind(OutputRef)) == "oca-output:" && S.Prefix(RefKind(LogRef)) == "oca-log:"
         && S.Prefix(RefKind(DiffRef)) == "oca-diff:" && S.Prefix(RefKind(ArtifactRef)) == "oca-artifact:"
         && S.Prefix(RefKind(ReviewRef)) == "oca-review:"
  {}

  lemma RefBegins(text: S.TextPolicy, m: map<Name, Raw>, op: Operation, field: RefField)
    requires WellFormed(text, m, op)
    ensures BeginsIf(m, field, S.Prefix(RefKind(field)))
  {
    ReadNames(Ref(field));
    hide ReadOrder, S.Prefix, RefKind, Asks, Needs, S.UnsafeText, S.UnsafeEnvelope;
    if Ref(field) in m {
      assert ValidValue(text, Ref(field), m[Ref(field)]);
    }
  }

  // ----- handling an operation -----

  /** What the client is sent: never the summary, never the approval marker. */
  datatype ClientRequest = ClientRequest(op: Operation, effect: Effect, values: map<Name, Raw>)

  /** A client's answer; `content` stands for everything in it besides `ok`. */
  datatype Envelope = Envelope(ok: bool, content: string)

  datatype Handled =
    | Invalid(refusal: Refusal)
    | ApprovalBlocked(op: Operation)
    | FakeFailed(op: Operation, envelope: Envelope)
    | Executed(op: Operation, envelope: Envelope)

  function ClientRequestFor(r: Request): ClientRequest {
    ClientRequest(r.op, PolicyOf(r.op).effect, r.values - {InputSummary, Approved})
  }

  function Handle(text: S.TextPolicy, answer: ClientRequest -> Envelope, input: Raw): (Handled, seq<ClientRequest>) {
    match Normalize(text, input)
    case Err(refusal) => (Invalid(refusal), [])
    case Ok(request) =>
      if PolicyOf(request.op).approval != ReadOnly && Lookup(request.values, Approved) != Some(Bool(true)) then
        (ApprovalBlocked(request.op), [])
      else
        var sent := ClientRequestFor(request);
        var envelope := answer(sent);
        (if envelope.ok then Executed(request.op, envelope) else FakeFailed(request.op, envelope), [sent])
  }

  /** The injected client: any function of its request, with a record of the requests it was sent. */
  class Client {
    const answer: ClientRequest -> Envelope
    var calls: seq<ClientRequest>

    constructor (answer: ClientRequest -> Envelope)
      ensures this.answer == answer && calls == []
    {
      this.answer, calls := answer, [];
    }

    method RunOperation(request: ClientRequest) returns (envelope: Envelope)
      modifies this`calls
      ensures calls == old(calls) + [request] && envelope == answer(request)
    {
      calls := calls + [request];
      envelope := answer(request);
    }
  }

  lemma OnlyRecordsNormalize(text: S.TextPolicy, input: Raw)
    ensures Normalize(text, input).Ok? ==> input.Record?
  {
    hide ReadIssues, RequiredIssues, ReadOperation;
  }

  method HandleOperation(text: S.TextPolicy, client: Client, input: Raw) returns (handled: Handled)
    modifies client`calls
    ensures handled == Handle(text, client.answer, input).0
    ensures client.calls == old(client.calls) + Handle(text, client.answer, input).1
    ensures client.calls != old(client.calls) <==> input.Record? && exists op :: Callable(text, input.fields, op)
  {
    hide Normalize, PolicyOf, Callable;
    if input.Record? {
      CalledExactly(text, client.answer, input.fields);
    } else {
      OnlyRecordsNormalize(text, input);
    }
    var normalized := Normalize(text, input);
    if normalized.Err? { return Invalid(normalized.error); }
    var request := normalized.value;
    if PolicyOf(request.op).approval != ReadOnly && Lookup(request.values, Approved) != Some(Bool(true)) {
      return ApprovalBlocked(request.op);
    }
    var envelope := client.RunOperation(ClientRequestFor(request));
    if !envelope.ok { return FakeFailed(request.op, envelope); }
    return Executed(request.op, envelope);
  }

  lemma WellFormedOnce(text: S.TextPolicy, m: map<Name, Raw>, op: Operation)
    requires WellFormed(text, m, op)
    ensures ReadOperation(m) == Ok(op) && forall other | WellFormed(text, m, other) :: other == op
  {
    hide ReadOperation, ReadOrder, ValidValue, Needs, Asks;
    ReadsExactly(m, op);
    AsksOnce(m);
  }

  /** The client is called exactly for a well-formed request that is read-only or marked as approved. */
  lemma CalledExactly(text: S.TextPolicy, answer: ClientRequest -> Envelope, m: map<Name, Raw>)
    ensures var (handled, calls) := Handle(text, answer, Record(m));
            && |calls| <= 1
            && (|calls| == 1 <==> exists op :: Callable(text, m, op))
            && (|calls| == 1 <==> handled.Executed? || handled.FakeFailed?)
            && (handled.Invalid? <==> !exists op :: WellFormed(text, m, op))
            && (|calls| == 1 ==> ReadOperation(m) == Ok(handled.op) &&
                                 calls[0] == ClientRequest(handled.op, EffectOn(handled.op),
                                                           Present(m) - {InputSummary, Approved}))
  {
    var normalized := Normalize(text, Record(m));
    if normalized.Ok? {
      var op := normalized.value.op;
      hide Normalize, PolicyOf, WellFormed, ReadOperation, ReadOrder;
      NormalizesExactly(text, m, op);
      ReadNames(Approved);
      TableExactly(op);
      hide Needs, EffectOn;
      WellFormedOnce(text, m, op);
      assert Callable(text, m, op) <==> |Handle(text, answer, Record(m)).1| == 1;
    } else {
      forall op
        ensures !WellFormed(text, m, op)
      {
        NormalizesExactly(text, m, op);
      }
      hide Normalize, PolicyOf, WellFormed, ReadOperation, ReadOrder;
    }
  }

  lemma AsksOnce(m: map<Name, Raw>)
    ensures forall a, b | Asks(m, a) && Asks(m, b) :: a == b
  {
    forall a, b | Asks(m, a) && Asks(m, b)
      ensures a == b
    {
      hide Asks;
      ReadsExactly(m, a);
      ReadsExactly(m, b);
    }
  }

  ghost predicate Callable(text: S.TextPolicy, m: map<Name, Raw>, op: Operation) {
    WellFormed(text, m, op) && (op !in READERS ==> Lookup(m, Approved) == Some(Bool(true)))
  }
}
