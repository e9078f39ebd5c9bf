/**
 Sessions: lifecycle states, the derived status, and the normaliser that every stored session passes.

 Property names are the constructors of `Key`; properties the normaliser never reads are not represented.
 */
module SessionModel {
  import opened Common

  const MAX_REF_LENGTH := 96
  const MAX_REF_BODY_LENGTH := 64
  const MAX_REF_LIST_LENGTH := 24
  const MAX_PUBLIC_STRING_LENGTH := 512
  const MAX_SUMMARY_LENGTH := 240
  const MAX_PUBLIC_ISSUES := 16
  const MAX_ISSUE_CODE_LENGTH := 64
  const MAX_TIMESTAMP_LENGTH := 32

  /** The unsafe-text word list, and the URL, remote and drive patterns. */
  datatype TextPolicy = TextPolicy(marker: string -> bool, pattern: string -> bool)

  // ----- lifecycle -----

  datatype State =
    | Planned | Requested | ApprovalRequired | Starting
    | Active | WaitingForInput | WaitingForApproval | ProducingOutput
    | Completed | Failed | Cancelled | Expired | Archived

  datatype Status = Healthy | Degraded | Blocked | Stale | Terminal

  datatype Flags = Flags(degraded: bool, stale: bool, blocked: bool)

  const NO_FLAGS := Flags(false, false, false)

  predicate IsTerminal(s: State) {
    s in {Completed, Failed, Cancelled, Expired, Archived}
  }

  function Derive(s: State, flags: Flags): Status {
    if IsTerminal(s) then Terminal
    else if s == ApprovalRequired || s == WaitingForApproval || flags.blocked then Blocked
    else if flags.stale then Stale
    else if flags.degraded then Degraded
    else if s == WaitingForInput then Blocked
    else Healthy
  }

  function Transitions(from: State): set<State> {
    match from
    case Planned => {Requested, Cancelled, Expired}
    case Requested => {ApprovalRequired, Starting, Cancelled, Expired}
    case ApprovalRequired => {Starting, WaitingForApproval, Cancelled, Expired}
    case Starting => {Active, Failed, Cancelled, Expired}
    case Active => {WaitingForInput, WaitingForApproval, ProducingOutput, Completed, Failed, Cancelled, Expired}
    case WaitingForInput => {Active, WaitingForApproval, ProducingOutput, Failed, Cancelled, Expired}
    case WaitingForApproval => {Active, ProducingOutput, Failed, Cancelled, Expired}
    case ProducingOutput => {Active, WaitingForInput, Completed, Failed, Cancelled, Expired}
    case Completed => {Archived}
    case Failed => {Archived}
    case Cancelled => {Archived}
    case Expired => {Archived}
    case Archived => {}
  }

  predicate CanTransition(from: State, to: State) {
    if from == to then false
    else if to == Archived then IsTerminal(from) && from != Archived
    else if IsTerminal(from) then false
    else to in Transitions(from)
  }

  /** The phases of a session's life; the four working states share one. */
  function Rank(s: State): nat {
    match s
    case Planned => 0
    case Requested => 1
    case ApprovalRequired => 2
    case Starting => 3
    case Active => 4
    case WaitingForInput => 4
    case WaitingForApproval => 4
    case ProducingOutput => 4
    case Completed => 5
    case Failed => 5
    case Cancelled => 5
    case Expired => 5
    case Archived => 6
  }

  /** The state diagram: the state, the text that asks for the move, and the state that follows. */
  ghost predicate LegalMove(from: State, text: string, to: State) {
    var ended := {Completed, Failed, Cancelled, Expired, Archived};
    || (text == "requested" && to == Requested && from == Planned)
    || (text == "approval-required" && to == ApprovalRequired && from == Requested)
    || (text == "starting" && to == Starting && from in {Requested, ApprovalRequired})
    || (text == "active" && to == Active && from in {Starting, WaitingForInput, WaitingForApproval, ProducingOutput})
    || (text == "waiting-for-input" && to == WaitingForInput && from in {Active, ProducingOutput})
    || (text == "waiting-for-approval" && to == WaitingForApproval && from in {ApprovalRequired, Active, WaitingForInput})
    || (text == "producing-output" && to == ProducingOutput && from in {Active, WaitingForInput, WaitingForApproval})
    || (text == "completed" && to == Completed && from in {Active, ProducingOutput})
    || (text == "failed" && to == Failed &&
        from in {Starting, Active, WaitingForInput, WaitingForApproval, ProducingOutput})
    || (text == "cancelled" && to == Cancelled && from !in ended)
    || (text == "expired" && to == Expired && from !in ended)
    || (text == "archived" && to == Archived && from in ended && from != Archived)
  }

  lemma EarlyMovesExactly(from: State, text: string, to: State)
    requires to in {Planned, Requested, ApprovalRequired, Starting}
    ensures text == StateText(to) && CanTransition(from, to) <==> LegalMove(from, text, to)
  {
    match to
    case Planned =>
    case Requested =>
    case ApprovalRequired =>
    case Starting =>
  }

  lemma WorkingMovesExactly(from: State, text: string, to: State)
    requires to in {Active, WaitingForInput, WaitingForApproval, ProducingOutput}
    ensures text == StateText(to) && CanTransition(from, to) <==> LegalMove(from, text, to)
  {
    match to
    case Active =>
    case WaitingForInput =>
    case WaitingForApproval =>
    case ProducingOutput =>
  }

  lemma EndingMovesExactly(from: State, text: string, to: State)
    requires to in {Completed, Failed, Cancelled, Expired, Archived}
    ensures text == StateText(to) && CanTransition(from, to) <==> LegalMove(from, text, to)
  {
    match to
    case Completed =>
    case Failed =>
    case Cancelled =>
    case Expired =>
    case Archived =>
  }

  /** The table allows exactly the moves of the diagram, each asked for by the text of its target. */
  lemma TransitionsExactly(from: State, text: string, to: State)
    ensures text == StateText(to) && CanTransition(from, to) <==> LegalMove(from, text, to)
  {
    hide StateText, CanTransition, LegalMove;
    match to
    case Planned | Requested | ApprovalRequired | Starting => EarlyMovesExactly(from, text, to);
    case Active | WaitingForInput | WaitingForApproval | ProducingOutput => WorkingMovesExactly(from, text, to);
    case _ => EndingMovesExactly(from, text, to);
  }

  /** The derived status, read off the state and the flags. */
  lemma DerivesExactly(s: State, flags: Flags)
    ensures var ended, needsApproval := s in {Completed, Failed, Cancelled, Expired, Archived},
                                        s in {ApprovalRequired, WaitingForApproval};
            var raised := flags.blocked || flags.stale || flags.degraded;
            && (Derive(s, flags) == Terminal <==> ended)
            && (Derive(s, flags) == Blocked <==>
                  !ended && (needsApproval || flags.blocked || (s == WaitingForInput && !raised)))
            && (Derive(s, flags) == Stale <==> !ended && !needsApproval && !flags.blocked && flags.stale)
            && (Derive(s, flags) == Degraded <==>
                  !ended && !needsApproval && !flags.blocked && !flags.stale && flags.degraded)
  {}

  /** Every allowed transition moves to a later phase, except among the working states. */
  lemma TransitionsAscend(from: State, to: State)
    requires CanTransition(from, to)
    ensures Rank(from) < Rank(to) || Rank(from) == Rank(to) == 4
    ensures IsTerminal(from) ==> to == Archived
  {}

  /** How a session can end: cancelled or expired from anywhere, the other ways only from their own states. */
  lemma EndingsExactly(s: State)
    ensures CanTransition(s, Cancelled) <==> !IsTerminal(s)
    ensures CanTransition(s, Expired) <==> !IsTerminal(s)
    ensures CanTransition(s, Failed) <==> s == Starting || Rank(s) == 4
    ensures CanTransition(s, Completed) <==> s == Active || s == ProducingOutput
    ensures CanTransition(s, Archived) <==> IsTerminal(s) && s != Archived
    ensures Rank(s) == 4 && s != Active ==> CanTransition(s, Active)
  {}

  /** Flags show in the derived status exactly when the state neither ends nor blocks the session itself. */
  lemma FlagsShowExactly(s: State, flags: Flags)
    ensures Derive(s, flags) == Derive(s, NO_FLAGS) <==>
            || flags == NO_FLAGS || IsTerminal(s) || s == ApprovalRequired || s == WaitingForApproval
            || (s == WaitingForInput && (flags.blocked || (!flags.stale && !flags.degraded)))
  {}

  function StateText(s: State): string {
    match s
    case Planned => "planned"
    case Requested => "requested"
    case ApprovalRequired => "approval-required"
    case Starting => "starting"
    case Active => "active"
    case WaitingForInput => "waiting-for-input"
    case WaitingForApproval => "waiting-for-approval"
    case ProducingOutput => "producing-output"
    case Completed => "completed"
    case Failed => "failed"
    case Cancelled => "cancelled"
    case Expired => "expired"
    case Archived => "archived"
  }

  const STATES := [Planned, Requested, ApprovalRequired, Starting, Active, WaitingForInput, WaitingForApproval,
                   ProducingOutput, Completed, Failed, Cancelled, Expired, Archived]

  function StatusText(s: Status): string {
    match s
    case Healthy => "healthy"
    case Degraded => "degraded"
    case Blocked => "blocked"
    case Stale => "stale"
    case Terminal => "terminal"
  }

  const STATUSES := [Healthy, Degraded, Blocked, Stale, Terminal]

  /** The first listed value whose text this is. */
  function Parse<T>(text: string, values: seq<T>, show: T -> string): Option<T> {
    if values == [] then None
    else if show(values[0]) == text then Some(values[0])
    else Parse(text, values[1..], show)
  }

  lemma {:induction false} ParseFinds<T>(text: string, values: seq<T>, show: T -> string)
    ensures match Parse(text, values, show)
            case Some(v) => v in values && show(v) == text
            case None => forall v | v in values :: show(v) != text
  {
    if values != [] {
      ParseFinds(text, values[1..], show);
    }
  }

  lemma StateTextIsInjective(a: State, b: State)
    requires StateText(a) == StateText(b)
    ensures a == b
  {
    assert |StateText(a)| == |StateText(b)| && StateText(a)[0] == StateText(b)[0] && StateText(a)[2] == StateText(b)[2];
    assert StateText(a)[|StateText(a)| - 2] == StateText(b)[|StateText(a)| - 2];
  }

  lemma StateTextParses(s: State)
    ensures Parse(StateText(s), STATES, StateText) == Some(s)
  {
    assert s in STATES by {
      assert s == STATES[0] || s == STATES[1] || s == STATES[2] || s == STATES[3] || s == STATES[4] || s == STATES[5] ||
             s == STATES[6] || s == STATES[7] || s == STATES[8] || s == STATES[9] || s == STATES[10] ||
             s == STATES[11] || s == STATES[12];
    }
    hide StateText;
    ParseFinds(StateText(s), STATES, StateText);
    StateTextIsInjective(s, Parse(StateText(s), STATES, StateText).value);
  }

  lemma StatusTextParses(s: Status)
    ensures Parse(StatusText(s), STATUSES, StatusText) == Some(s)
  {
    assert s in STATUSES by {
      assert s == STATUSES[0] || s == STATUSES[1] || s == STATUSES[2] || s == STATUSES[3] || s == STATUSES[4];
    }
    ParseFinds(StatusText(s), STATUSES, StatusText);
    var found := Parse(StatusText(s), STATUSES, StatusText).value;
    assert StatusText(found)[0] == StatusText(s)[0];
  }

  // ----- raw input -----

  datatype RefKind =
    | SessionKind | TaskKind | RepoKind | WorktreeKind | BranchKind
    | OutputKind | LogKind | DiffKind | ArtifactKind | ReviewKind
    | WorkspaceKind | AgentKind | ActorKind | ProfileKind | CorrelationKind | IdempotencyKind

  datatype ListField = OutputRefs | LogRefs | DiffRefs | ArtifactRefs | ReviewRefs

  datatype Field =
    | RepoRef | WorktreeRef | BranchRef | WorkspaceRef | AgentRef | ActorRef | ProfileRef
    | CorrelationRef | IdempotencyRef | CreatedAt | UpdatedAt | Summary

  const LIST_ORDER := [OutputRefs, LogRefs, DiffRefs, ArtifactRefs, ReviewRefs]

  const FIELD_ORDER := [RepoRef, WorktreeRef, BranchRef, WorkspaceRef, AgentRef, ActorRef, ProfileRef,
                        CorrelationRef, IdempotencyRef, CreatedAt, UpdatedAt, Summary]

  datatype Key =
    | Whole | SessionRef | TaskRef | LifecycleState | DerivedStatus
    | RefList(list: ListField) | Optional(field: Field)
    | Issues | IssueCode | IssueSummary | IssueRef | From | To

  /** Any JavaScript value; `Record` is any object that is not an array. */
  datatype Raw =
    | Undefined
    | Bool(flag: bool)
    | Integer(amount: int)
    | Text(text: string)
    | List(items: seq<Raw>)
    | Record(fields: map<Key, Raw>)
    | OtherValue

  datatype Code =
    | NotObject | NotString | NotArray | Empty | TooLong | InvalidPrefix | InvalidFormat | UnsafeMarker
    | InvalidState | InvalidStatus | StatusMismatch | InvalidTransition | MissingField | InvalidItem | UnsafeJson

  datatype Issue = Issue(code: Code, field: Key, refKind: Option<RefKind>)

  datatype PublicIssue = PublicIssue(code: string, summary: string, ref: Option<string>)

  datatype Session = Session(
    sessionRef: string, taskRef: string, lifecycleState: State, derivedStatus: Status,
    refs: map<ListField, seq<string>>, optional: map<Field, string>, issues: seq<PublicIssue>)

  // ----- text rules -----

  predicate HasChar(s: string, chars: string) {
    exists i | 0 <= i < |s| :: s[i] in chars
  }

  predicate HasTwoDots(s: string) {
    exists i | 0 <= i < |s| - 1 :: s[i] == '.' && s[i + 1] == '.'
  }

  predicate UnsafeText(policy: TextPolicy, s: string) {
    || HasChar(s, "\n\r\t/\\{}[]") || HasTwoDots(s) || "." <= s || "~" <= s
    || policy.pattern(s) || policy.marker(s)
  }

  predicate UnsafeEnvelope(policy: TextPolicy, s: string) {
    TrimText(s) != s || (exists i | 0 <= i < |s| :: IsSpaceChar(s[i])) || UnsafeText(policy, s)
  }

  predicate IsDigit(c: char) {
    '0' <= c <= '9'
  }

  predicate IsAlnum(c: char) {
    IsDigit(c) || 'a' <= c <= 'z'
  }

  predicate IsInner(c: char) {
    IsAlnum(c) || c in "._-"
  }

  /** One alphanumeric, or up to 64 characters that begin and end with one. */
  predicate SafeBody(s: string) {
    0 < |s| <= MAX_REF_BODY_LENGTH && IsAlnum(s[0]) && IsAlnum(s[|s| - 1]) && forall i | 0 <= i < |s| :: IsInner(s[i])
  }

  predicate UnsafeBody(policy: TextPolicy, s: string) {
    (forall i | 0 <= i < |s| :: IsDigit(s[i])) || HasTwoDots(s) || policy.marker(s)
  }

  predicate SafeIssueCode(s: string) {
    0 < |s| <= MAX_ISSUE_CODE_LENGTH && 'a' <= s[0] <= 'z' && forall i | 0 <= i < |s| :: IsInner(s[i])
  }

  /** A UTC timestamp to the second, or to the millisecond. */
  predicate SafeTimestamp(s: string) {
    && |s| in {20, 24} && s[|s| - 1] == 'Z' && s[4] == '-' && s[7] == '-' && s[10] == 'T' && s[13] == ':' && s[16] == ':'
    && (|s| == 24 ==> s[19] == '.')
    && forall i | 0 <= i < |s| - 1 && i !in {4, 7, 10, 13, 16, 19} :: IsDigit(s[i])
  }

  /** A text with its digits replaced by zeros. */
  function ShapeOf(s: string): string {
    seq(|s|, i requires 0 <= i < |s| => if IsDigit(s[i]) then '0' else s[i])
  }

  /** A safe timestamp, read as a shape. */
  lemma TimestampExactly(s: string)
    ensures SafeTimestamp(s) <==>
            ShapeOf(s) == "0000-00-00T00:00:00Z" || ShapeOf(s) == "0000-00-00T00:00:00.000Z"
  {
    var shape := ShapeOf(s);
    assert |shape| == |s| && forall i | 0 <= i < |s| :: IsDigit(s[i]) <==> shape[i] == '0';
    assert forall i | 0 <= i < |s| :: shape[i] != '0' ==> s[i] == shape[i];
    if |s| == 20 {
      ShortTimestamp(s, shape);
    } else if |s| == 24 {
      LongTimestamp(s, shape);
    }
  }

  lemma ShortTimestamp(s: string, shape: string)
    requires |s| == |shape| == 20
    requires forall i | 0 <= i < |s| :: IsDigit(s[i]) <==> shape[i] == '0'
    requires forall i | 0 <= i < |s| :: shape[i] != '0' ==> s[i] == shape[i]
    ensures SafeTimestamp(s) <==> shape == "0000-00-00T00:00:00Z"
  {
    var wanted := "0000-00-00T00:00:00Z";
    if SafeTimestamp(s) {
      assert forall i | 0 <= i < 20 :: shape[i] == wanted[i];
    } else if shape == wanted {
      assert forall i | 0 <= i < 19 && i !in {4, 7, 10, 13, 16, 19} :: shape[i] == '0';
    }
  }

  lemma LongTimestamp(s: string, shape: string)
    requires |s| == |shape| == 24
    requires forall i | 0 <= i < |s| :: IsDigit(s[i]) <==> shape[i] == '0'
    requires forall i | 0 <= i < |s| :: shape[i] != '0' ==> s[i] == shape[i]
    ensures SafeTimestamp(s) <==> shape == "0000-00-00T00:00:00.000Z"
  {
    var wanted := "0000-00-00T00:00:00.000Z";
    if SafeTimestamp(s) {
      assert forall i | 0 <= i < 24 :: shape[i] == wanted[i];
    } else if shape == wanted {
      assert forall i | 0 <= i < 23 && i !in {4, 7, 10, 13, 16, 19} :: shape[i] == '0';
    }
  }

  function Prefix(kind: RefKind): string {
    match kind
    case SessionKind => "oca-session:"
    case TaskKind => "oca-task:"
    case RepoKind => "oca-repo:"
    case WorktreeKind => "oca-worktree:"
    case BranchKind => "oca-branch:"
    case OutputKind => "oca-output:"
    case LogKind => "oca-log:"
    case DiffKind => "oca-diff:"
    case ArtifactKind => "oca-artifact:"
    case ReviewKind => "oca-review:"
    case WorkspaceKind => "workspace:"
    case AgentKind => "agent:"
    case ActorKind => "actor:"
    case ProfileKind => "profile:"
    case CorrelationKind => "correlation:"
    case IdempotencyKind => "idempotency:"
  }

  function ValidateRef(policy: TextPolicy, kind: RefKind, value: Raw): Result<string, Code> {
    if !value.Text? then Err(NotString)
    else
      var text := value.text;
      if text == "" then Err(Empty)
      else if JsLength(text) > MAX_REF_LENGTH then Err(TooLong)
      else if !(Prefix(kind) <= text) then Err(InvalidPrefix)
      else if UnsafeEnvelope(policy, text) then Err(UnsafeMarker)
      else
        var body := text[|Prefix(kind)|..];
        if body == "" then Err(Empty)
        else if JsLength(body) > MAX_REF_BODY_LENGTH then Err(TooLong)
        else if UnsafeBody(policy, body) then Err(UnsafeMarker)
        else if !SafeBody(body) then Err(InvalidFormat)
        else Ok(text)
  }

  function ReadTimestamp(value: Raw): Result<string, Code> {
    if !value.Text? then Err(NotString)
    else if JsLength(value.text) > MAX_TIMESTAMP_LENGTH || !SafeTimestamp(value.text) then Err(InvalidFormat)
    else Ok(value.text)
  }

  function BoundedSummary(policy: TextPolicy, value: Raw): Result<string, Code> {
    if !value.Text? then Err(NotString)
    else
      var trimmed := TrimText(value.text);
      if trimmed == "" then Err(Empty)
      else if JsLength(trimmed) > MAX_SUMMARY_LENGTH then Err(TooLong)
      else if UnsafeText(policy, trimmed) then Err(UnsafeMarker)
      else Ok(trimmed)
  }

  /** What a summary is read as, and when. */
  lemma SummaryExactly(policy: TextPolicy, value: Raw, text: string)
    ensures BoundedSummary(policy, value) == Ok(text) <==>
            value.Text? && text == TrimText(value.text) && 1 <= |text| && JsLength(text) <= 240 && !UnsafeText(policy, text)
  {
    hide TrimText, UnsafeText;
  }

  /** The texts that stand for the derived statuses, and for the one state no transition leads to. */
  lemma StatusTextsRead(text: string, s: Status)
    ensures Parse(text, STATUSES, StatusText) == Some(s) <==>
            || (text == "healthy" && s == Healthy) || (text == "degraded" && s == Degraded)
            || (text == "blocked" && s == Blocked) || (text == "stale" && s == Stale)
            || (text == "terminal" && s == Terminal)
    ensures Parse("planned", STATES, StateText) == Some(Planned)
  {
    StatusTextParses(s);
    ParseFinds(text, STATUSES, StatusText);
    StateTextParses(Planned);
    hide Parse;
    assert StateText(Planned) == "planned";
    match s
    case Healthy =>
    case Degraded =>
    case Blocked =>
    case Stale =>
    case Terminal =>
  }

  // ----- readers: the value read, and the issues raised -----

  datatype Read<+T> = Read(value: Option<T>, issues: seq<Issue>)

  function Checked(result: Result<string, Code>, key: Key, refKind: Option<RefKind>): Read<string> {
    match result
    case Ok(text) => Read(Some(text), [])
    case Err(code) => Read(None, [Issue(code, key, refKind)])
  }

  function ReadRequiredRef(policy: TextPolicy, m: map<Key, Raw>, key: Key, kind: RefKind): Read<string> {
    if key !in m then Read(None, [Issue(MissingField, key, None)])
    else Checked(ValidateRef(policy, kind, m[key]), key, Some(kind))
  }

  function FieldKind(f: Field): Option<RefKind> {
    match f
    case RepoRef => Some(RepoKind)
    case WorktreeRef => Some(WorktreeKind)
    case BranchRef => Some(BranchKind)
    case WorkspaceRef => Some(WorkspaceKind)
    case AgentRef => Some(AgentKind)
    case ActorRef => Some(ActorKind)
    case ProfileRef => Some(ProfileKind)
    case CorrelationRef => Some(CorrelationKind)
    case IdempotencyRef => Some(IdempotencyKind)
    case _ => None
  }

  function FieldValue(policy: TextPolicy, f: Field, value: Raw): Result<string, Code> {
    if FieldKind(f).Some? then ValidateRef(policy, FieldKind(f).value, value)
    else if f == Summary then BoundedSummary(policy, value)
    else ReadTimestamp(value)
  }

  function ReadField(policy: TextPolicy, m: map<Key, Raw>, f: Field): Read<string> {
    if Optional(f) !in m then Read(None, [])
    else Checked(FieldValue(policy, f, m[Optional(f)]), Optional(f), FieldKind(f))
  }

  function ReadState(m: map<Key, Raw>): Read<State> {
    if LifecycleState !in m then Read(None, [Issue(MissingField, LifecycleState, None)])
    else
      var value := m[LifecycleState];
      var state := if value.Text? then Parse(value.text, STATES, StateText) else None;
      if state.None? then Read(None, [Issue(InvalidState, LifecycleState, None)]) else Read(state, [])
  }

  function ReadStatus(m: map<Key, Raw>, state: Option<State>): Read<Status> {
    if state.None? then Read(None, [])
    else
      var expected := Derive(state.value, NO_FLAGS);
      if DerivedStatus !in m then Read(Some(expected), [])
      else
        var value := m[DerivedStatus];
        var status := if value.Text? then Parse(value.text, STATUSES, StatusText) else None;
        if status.None? then Read(None, [Issue(InvalidStatus, DerivedStatus, None)])
        else if status.value != expected then Read(None, [Issue(StatusMismatch, DerivedStatus, None)])
        else Read(status, [])
  }

  function ListKind(l: ListField): RefKind {
    match l
    case OutputRefs => OutputKind
    case LogRefs => LogKind
    case DiffRefs => DiffKind
    case ArtifactRefs => ArtifactKind
    case ReviewRefs => ReviewKind
  }

  /** The valid items in order, and one issue for every other item. */
  function Items(policy: TextPolicy, l: ListField, items: seq<Raw>): (seq<string>, seq<Issue>) {
    if items == [] then ([], [])
    else
      var before := Items(policy, l, items[..|items| - 1]);
      match ValidateRef(policy, ListKind(l), items[|items| - 1])
      case Ok(text) => (before.0 + [text], before.1)
      case Err(_) => (before.0, before.1 + [Issue(InvalidItem, RefList(l), None)])
  }

  function ReadList(policy: TextPolicy, m: map<Key, Raw>, l: ListField): (seq<string>, seq<Issue>) {
    if RefList(l) !in m then ([], [])
    else if !m[RefList(l)].List? then ([], [Issue(NotArray, RefList(l), None)])
    else if |m[RefList(l)].items| > MAX_REF_LIST_LENGTH then ([], [Issue(TooLong, RefList(l), None)])
    else Items(policy, l, m[RefList(l)].items)
  }

  method ReadRefArray(policy: TextPolicy, m: map<Key, Raw>, l: ListField, pending: seq<Issue>)
    returns (refs: seq<string>, issues: seq<Issue>)
    ensures refs == ReadList(policy, m, l).0
    ensures issues == pending + ReadList(policy, m, l).1
  {
    hide ValidateRef, ListKind;
    refs, issues := [], pending;
    if RefList(l) !in m { return; }
    var value := m[RefList(l)];
    if !value.List? {
      issues := issues + [Issue(NotArray, RefList(l), None)];
      return;
    }
    if |value.items| > MAX_REF_LIST_LENGTH {
      issues := issues + [Issue(TooLong, RefList(l), None)];
      return;
    }
    for i := 0 to |value.items|
      invariant refs == Items(policy, l, value.items[..i]).0
      invariant issues == pending + Items(policy, l, value.items[..i]).1
    {
      assert value.items[..i + 1][..i] == value.items[..i];
      var result := ValidateRef(policy, ListKind(l), value.items[i]);
      if result.Err? {
        issues := issues + [Issue(InvalidItem, RefList(l), None)];
        continue;
      }
      refs := refs + [result.value];
    }
    assert value.items[..|value.items|] == value.items;
  }

  function ReadPublicIssue(policy: TextPolicy, item: Raw): Option<PublicIssue> {
    if !item.Record? then None
    else
      var m := item.fields;
      if IssueCode !in m || !m[IssueCode].Text? || JsLength(m[IssueCode].text) > MAX_ISSUE_CODE_LENGTH ||
         !SafeIssueCode(m[IssueCode].text) || policy.marker(m[IssueCode].text) then None
      else
        match BoundedSummary(policy, if IssueSummary in m then m[IssueSummary] else Undefined)
        case Err(_) => None
        case Ok(summary) =>
          if IssueRef !in m then Some(PublicIssue(m[IssueCode].text, summary, None))
          else
            match ValidateRef(policy, CorrelationKind, m[IssueRef])
            case Err(_) => None
            case Ok(ref) => Some(PublicIssue(m[IssueCode].text, summary, Some(ref)))
  }

  function PublicItems(policy: TextPolicy, items: seq<Raw>): (seq<PublicIssue>, seq<Issue>) {
    if items == [] then ([], [])
    else
      var before := PublicItems(policy, items[..|items| - 1]);
      match ReadPublicIssue(policy, items[|items| - 1])
      case Some(issue) => (before.0 + [issue], before.1)
      case None => (before.0, before.1 + [Issue(InvalidItem, Issues, None)])
  }

  function ReadIssues(policy: TextPolicy, m: map<Key, Raw>): (seq<PublicIssue>, seq<Issue>) {
    if Issues !in m then ([], [])
    else if !m[Issues].List? then ([], [Issue(NotArray, Issues, None)])
    else if |m[Issues].items| > MAX_PUBLIC_ISSUES then ([], [Issue(TooLong, Issues, None)])
    else PublicItems(policy, m[Issues].items)
  }

  method ReadPublicIssues(policy: TextPolicy, m: map<Key, Raw>, pending: seq<Issue>)
    returns (found: seq<PublicIssue>, issues: seq<Issue>)
    ensures found == ReadIssues(policy, m).0
    ensures issues == pending + ReadIssues(policy, m).1
  {
    hide ReadPublicIssue;
    found, issues := [], pending;
    if Issues !in m { return; }
    var value := m[Issues];
    if !value.List? {
      issues := issues + [Issue(NotArray, Issues, None)];
      return;
    }
    if |value.items| > MAX_PUBLIC_ISSUES {
      issues := issues + [Issue(TooLong, Issues, None)];
      return;
    }
    for i := 0 to |value.items|
      invariant found == PublicItems(policy, value.items[..i]).0
      invariant issues == pending + PublicItems(policy, value.items[..i]).1
    {
      assert value.items[..i + 1][..i] == value.items[..i];
      var item := ReadPublicIssue(policy, value.items[i]);
      if item.Some? {
        found := found + [item.value];
        continue;
      }
      issues := issues + [Issue(InvalidItem, Issues, None)];
    }
    assert value.items[..|value.items|] == value.items;
  }

  // ----- the normaliser -----

  function FieldIssues(policy: TextPolicy, m: map<Key, Raw>, fields: seq<Field>): seq<Issue> {
    if fields == [] then [] else ReadField(policy, m, fields[0]).issues + FieldIssues(policy, m, fields[1..])
  }

  function ListIssues(policy: TextPolicy, m: map<Key, Raw>, lists: seq<ListField>): seq<Issue> {
    if lists == [] then [] else ReadList(policy, m, lists[0]).1 + ListIssues(policy, m, lists[1..])
  }

  predicate SafeString(policy: TextPolicy, s: string) {
    JsLength(s) <= MAX_PUBLIC_STRING_LENGTH && !UnsafeText(policy, s)
  }

  predicate SafeStrings(policy: TextPolicy, texts: seq<string>) {
    forall i | 0 <= i < |texts| :: SafeString(policy, texts[i])
  }

  predicate SafePublicIssue(policy: TextPolicy, issue: PublicIssue) {
    SafeString(policy, issue.code) && SafeString(policy, issue.summary) &&
    (issue.ref.Some? ==> SafeString(policy, issue.ref.value))
  }

  /** The last check: every string in the finished record is short and safe. */
  predicate SafeJson(policy: TextPolicy, s: Session) {
    && SafeString(policy, s.sessionRef) && SafeString(policy, s.taskRef)
    && SafeString(policy, StateText(s.lifecycleState)) && SafeString(policy, StatusText(s.derivedStatus))
    && (forall l | l in s.refs :: SafeStrings(policy, s.refs[l]))
    && (forall f | f in s.optional :: SafeString(policy, s.optional[f]))
    && (forall i | 0 <= i < |s.issues| :: SafePublicIssue(policy, s.issues[i]))
  }

  function FieldsRead(policy: TextPolicy, m: map<Key, Raw>): map<Field, string> {
    map f | f in FIELD_ORDER && ReadField(policy, m, f).value.Some? :: ReadField(policy, m, f).value.value
  }

  function ListsRead(policy: TextPolicy, m: map<Key, Raw>): map<ListField, seq<string>> {
    map l | l in LIST_ORDER :: ReadList(policy, m, l).0
  }

  function AllIssues(policy: TextPolicy, m: map<Key, Raw>): seq<Issue> {
    ReadRequiredRef(policy, m, SessionRef, SessionKind).issues + ReadRequiredRef(policy, m, TaskRef, TaskKind).issues +
    ReadState(m).issues + ReadStatus(m, ReadState(m).value).issues +
    ListIssues(policy, m, LIST_ORDER) + FieldIssues(policy, m, FIELD_ORDER) + ReadIssues(policy, m).1
  }

  function Normalize(policy: TextPolicy, input: Raw): Result<Session, seq<Issue>> {
    if !input.Record? then Err([Issue(NotObject, Whole, None)])
    else
      var m := input.fields;
      var issues := AllIssues(policy, m);
      if issues != [] then Err(issues)
      else
        var session := Session(
          ReadRequiredRef(policy, m, SessionRef, SessionKind).value.value,
          ReadRequiredRef(policy, m, TaskRef, TaskKind).value.value,
          ReadState(m).value.value, ReadStatus(m, ReadState(m).value).value.value,
          ListsRead(policy, m), FieldsRead(policy, m), ReadIssues(policy, m).0);
        if SafeJson(policy, session) then Ok(session) else Err([Issue(UnsafeJson, Whole, None)])
  }
}
