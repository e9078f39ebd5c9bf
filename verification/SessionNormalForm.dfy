/** What the session normaliser accepts, and that its results are exactly the records it leaves alone. */
module SessionNormalForm {
  import opened Common
  import opened SessionModel

  ghost predicate AllLists(refs: map<ListField, seq<string>>) {
    forall l: ListField :: l in refs
  }

  function Texts(texts: seq<string>): seq<Raw> {
    seq(|texts|, i requires 0 <= i < |texts| => Text(texts[i]))
  }

  function EmbedIssue(issue: PublicIssue): Raw {
    var m := map[IssueCode := Text(issue.code), IssueSummary := Text(issue.summary)];
    Record(if issue.ref.Some? then m[IssueRef := Text(issue.ref.value)] else m)
  }

  function EmbedIssues(issues: seq<PublicIssue>): seq<Raw> {
    seq(|issues|, i requires 0 <= i < |issues| => EmbedIssue(issues[i]))
  }

  function EmbedLists(refs: map<ListField, seq<string>>): map<Key, Raw> {
    map l | l in refs :: RefList(l) := List(Texts(refs[l]))
  }

  function EmbedFields(optional: map<Field, string>): map<Key, Raw> {
    map f | f in optional :: Optional(f) := Text(optional[f])
  }

  function EmbedCore(s: Session): map<Key, Raw> {
    map[SessionRef := Text(s.sessionRef), TaskRef := Text(s.taskRef),
        LifecycleState := Text(StateText(s.lifecycleState)), DerivedStatus := Text(StatusText(s.derivedStatus)),
        Issues := List(EmbedIssues(s.issues))]
  }

  /** A session as the plain object it is. */
  function Embed(s: Session): map<Key, Raw> {
    EmbedCore(s) + EmbedLists(s.refs) + EmbedFields(s.optional)
  }

  ghost predicate HoldsCore(m: map<Key, Raw>, s: Session) {
    && SessionRef in m && m[SessionRef] == Text(s.sessionRef)
    && TaskRef in m && m[TaskRef] == Text(s.taskRef)
    && LifecycleState in m && m[LifecycleState] == Text(StateText(s.lifecycleState))
    && DerivedStatus in m && m[DerivedStatus] == Text(StatusText(s.derivedStatus))
    && Issues in m && m[Issues] == List(EmbedIssues(s.issues))
  }

  lemma CoreHoldsCore(s: Session)
    ensures HoldsCore(EmbedCore(s), s)
  {
    hide StateText, StatusText, EmbedIssues;
  }

  lemma EmbedExtendsCore(s: Session)
    ensures forall k | k in EmbedCore(s) :: k in Embed(s) && Embed(s)[k] == EmbedCore(s)[k]
  {
    assert forall k | k in EmbedCore(s) :: !k.RefList? && !k.Optional?;
    assert forall k | k in EmbedLists(s.refs) :: k.RefList?;
    assert forall k | k in EmbedFields(s.optional) :: k.Optional?;
    hide EmbedLists, EmbedFields, EmbedCore;
  }

  lemma EmbedCoreAt(s: Session)
    ensures HoldsCore(Embed(s), s)
  {
    CoreHoldsCore(s);
    EmbedExtendsCore(s);
    hide Embed, EmbedCore, StateText, StatusText, EmbedIssues;
  }

  lemma EmbedListsAt(s: Session)
    ensures var m := Embed(s); forall l | l in s.refs :: RefList(l) in m && m[RefList(l)] == List(Texts(s.refs[l]))
  {
    hide EmbedCore, Texts;
    assert forall k | k in EmbedFields(s.optional) :: k.Optional?;
    hide EmbedFields;
    var lists := EmbedLists(s.refs);
    forall l | l in s.refs
      ensures RefList(l) in lists && lists[RefList(l)] == List(Texts(s.refs[l]))
    {}
    hide EmbedLists;
  }

  lemma EmbedFieldsAt(s: Session)
    ensures var m := Embed(s);
            && (forall f :: Optional(f) in m <==> f in s.optional)
            && (forall f | f in s.optional :: m[Optional(f)] == Text(s.optional[f]))
  {
    assert forall k | k in EmbedLists(s.refs) :: k.RefList?;
    assert forall k | k in EmbedCore(s) :: !k.Optional?;
    hide EmbedLists, EmbedCore;
    var fields := EmbedFields(s.optional);
    forall f
      ensures Optional(f) in fields <==> f in s.optional
      ensures f in s.optional ==> fields[Optional(f)] == Text(s.optional[f])
    {}
    hide EmbedFields;
  }

  // ----- every part is read, without an issue -----

  ghost predicate ReadsRefs(policy: TextPolicy, m: map<Key, Raw>, s: Session) {
    && ReadRequiredRef(policy, m, SessionRef, SessionKind) == Read(Some(s.sessionRef), [])
    && ReadRequiredRef(policy, m, TaskRef, TaskKind) == Read(Some(s.taskRef), [])
  }

  ghost predicate ReadsStatus(m: map<Key, Raw>, s: Session) {
    && ReadState(m) == Read(Some(s.lifecycleState), [])
    && ReadStatus(m, Some(s.lifecycleState)) == Read(Some(s.derivedStatus), [])
  }

  ghost predicate ReadsLists(policy: TextPolicy, m: map<Key, Raw>, s: Session) {
    AllLists(s.refs) && forall l | l in s.refs :: ReadList(policy, m, l) == (s.refs[l], [])
  }

  ghost predicate ReadsFields(policy: TextPolicy, m: map<Key, Raw>, s: Session) {
    forall f :: ReadField(policy, m, f) == Read(Lookup(s.optional, f), [])
  }

  ghost predicate Reads(policy: TextPolicy, m: map<Key, Raw>, s: Session) {
    && ReadsRefs(policy, m, s) && ReadsStatus(m, s) && ReadsLists(policy, m, s) && ReadsFields(policy, m, s)
    && ReadIssues(policy, m) == (s.issues, [])
  }

  lemma {:induction false} FieldIssuesEmpty(policy: TextPolicy, m: map<Key, Raw>, fields: seq<Field>)
    ensures FieldIssues(policy, m, fields) == [] <==> forall f | f in fields :: ReadField(policy, m, f).issues == []
  {
    if fields != [] {
      FieldIssuesEmpty(policy, m, fields[1..]);
      assert forall f :: f in fields <==> f == fields[0] || f in fields[1..];
    }
  }

  lemma {:induction false} ListIssuesEmpty(policy: TextPolicy, m: map<Key, Raw>, lists: seq<ListField>)
    ensures ListIssues(policy, m, lists) == [] <==> forall l | l in lists :: ReadList(policy, m, l).1 == []
  {
    if lists != [] {
      ListIssuesEmpty(policy, m, lists[1..]);
      assert forall l :: l in lists <==> l == lists[0] || l in lists[1..];
    }
  }

  lemma EveryFieldIsOrdered(f: Field)
    ensures f in FIELD_ORDER
  {
    assert f == FIELD_ORDER[0] || f == FIELD_ORDER[1] || f == FIELD_ORDER[2] || f == FIELD_ORDER[3] ||
           f == FIELD_ORDER[4] || f == FIELD_ORDER[5] || f == FIELD_ORDER[6] || f == FIELD_ORDER[7] ||
           f == FIELD_ORDER[8] || f == FIELD_ORDER[9] || f == FIELD_ORDER[10] || f == FIELD_ORDER[11];
  }

  lemma EveryListIsOrdered(l: ListField)
    ensures l in LIST_ORDER
  {
    assert l == LIST_ORDER[0] || l == LIST_ORDER[1] || l == LIST_ORDER[2] || l == LIST_ORDER[3] || l == LIST_ORDER[4];
  }

  lemma FieldsReadExactly(policy: TextPolicy, m: map<Key, Raw>, s: Session)
    ensures ReadsFields(policy, m, s) <==>
            FieldIssues(policy, m, FIELD_ORDER) == [] && FieldsRead(policy, m) == s.optional
  {
    forall f: Field
      ensures f in FIELD_ORDER
    {
      EveryFieldIsOrdered(f);
    }
    FieldIssuesEmpty(policy, m, FIELD_ORDER);
    hide ReadField, FieldIssues;
    if ReadsFields(policy, m, s) {
      assert forall f :: ReadField(policy, m, f).value == Lookup(s.optional, f);
      assert FieldsRead(policy, m) == s.optional;
    } else if FieldIssues(policy, m, FIELD_ORDER) == [] && FieldsRead(policy, m) == s.optional {
      forall f
        ensures ReadField(policy, m, f) == Read(Lookup(s.optional, f), [])
      {
        assert f in FIELD_ORDER;
        assert f in FieldsRead(policy, m) <==> f in s.optional;
      }
    }
  }

  lemma ListsReadExactly(policy: TextPolicy, m: map<Key, Raw>, s: Session)
    ensures ReadsLists(policy, m, s) <==>
            ListIssues(policy, m, LIST_ORDER) == [] && ListsRead(policy, m) == s.refs
  {
    forall l: ListField
      ensures l in LIST_ORDER
    {
      EveryListIsOrdered(l);
    }
    ListIssuesEmpty(policy, m, LIST_ORDER);
    hide ReadList, ListIssues;
    if ReadsLists(policy, m, s) {
      assert ListsRead(policy, m) == s.refs;
    }
  }

  lemma RefReadExactly(policy: TextPolicy, m: map<Key, Raw>, key: Key, kind: RefKind)
    ensures var r := ReadRequiredRef(policy, m, key, kind); r.value.Some? <==> r.issues == []
  {}

  lemma StatusReadExactly(m: map<Key, Raw>)
    ensures ReadState(m).value.Some? <==> ReadState(m).issues == []
    ensures ReadState(m).value.Some? ==>
              (ReadStatus(m, ReadState(m).value).value.Some? <==> ReadStatus(m, ReadState(m).value).issues == [])
  {
    hide Parse, Derive;
  }

  lemma NoIssuesAnywhere(a: seq<Issue>, b: seq<Issue>, c: seq<Issue>, d: seq<Issue>, e: seq<Issue>, f: seq<Issue>,
                         g: seq<Issue>)
    ensures a + b + c + d + e + f + g == [] <==> a == b == c == d == e == f == g == []
  {}

  /** Normalising gives this session exactly when every property is read as this session has it. */
  lemma NormalizesExactly(policy: TextPolicy, m: map<Key, Raw>, s: Session)
    ensures Normalize(policy, Record(m)) == Ok(s) <==> Reads(policy, m, s) && SafeJson(policy, s)
  {
    FieldsReadExactly(policy, m, s);
    ListsReadExactly(policy, m, s);
    RefReadExactly(policy, m, SessionRef, SessionKind);
    RefReadExactly(policy, m, TaskRef, TaskKind);
    StatusReadExactly(m);
    NoIssuesAnywhere(ReadRequiredRef(policy, m, SessionRef, SessionKind).issues,
                     ReadRequiredRef(policy, m, TaskRef, TaskKind).issues,
                     ReadState(m).issues, ReadStatus(m, ReadState(m).value).issues,
                     ListIssues(policy, m, LIST_ORDER), FieldIssues(policy, m, FIELD_ORDER), ReadIssues(policy, m).1);
    hide ReadsFields, ReadsLists, ReadRequiredRef, ReadState, ReadStatus, ListIssues, FieldIssues, ReadIssues,
         SafeJson, FieldsRead, ListsRead;
  }

  // ----- well-formed sessions -----

  ghost predicate ValidRef(policy: TextPolicy, kind: RefKind, text: string) {
    ValidateRef(policy, kind, Text(text)) == Ok(text)
  }

  ghost predicate ValidRefs(policy: TextPolicy, kind: RefKind, texts: seq<string>) {
    forall i | 0 <= i < |texts| :: ValidRef(policy, kind, texts[i])
  }

  ghost predicate ValidIssue(policy: TextPolicy, issue: PublicIssue) {
    ReadPublicIssue(policy, EmbedIssue(issue)) == Some(issue)
  }

  /** The sessions a store may hold; in particular the derived status is that of the state alone. */
  ghost predicate WellFormed(policy: TextPolicy, s: Session) {
    && ValidRef(policy, SessionKind, s.sessionRef) && ValidRef(policy, TaskKind, s.taskRef)
    && s.derivedStatus == Derive(s.lifecycleState, NO_FLAGS)
    && AllLists(s.refs)
    && (forall l | l in s.refs :: |s.refs[l]| <= MAX_REF_LIST_LENGTH && ValidRefs(policy, ListKind(l), s.refs[l]))
    && (forall f | f in s.optional :: FieldValue(policy, f, Text(s.optional[f])) == Ok(s.optional[f]))
    && |s.issues| <= MAX_PUBLIC_ISSUES && (forall i | 0 <= i < |s.issues| :: ValidIssue(policy, s.issues[i]))
    && SafeJson(policy, s)
  }

  ghost predicate AllBegin(texts: seq<string>, prefix: string) {
    forall i | 0 <= i < |texts| :: prefix < texts[i]
  }

  ghost predicate BeginsIf(s: Session, f: Field, prefix: string) {
    f in s.optional ==> prefix < s.optional[f]
  }

  /** Every ref that a stored session holds begins with the prefix of its own kind. */
  lemma StoredRefsNameTheirKinds(policy: TextPolicy, s: Session)
    requires WellFormed(policy, s)
    ensures "oca-session:" < s.sessionRef && "oca-task:" < s.taskRef && AllLists(s.refs)
    ensures AllBegin(s.refs[OutputRefs], "oca-output:") && AllBegin(s.refs[LogRefs], "oca-log:")
         && AllBegin(s.refs[DiffRefs], "oca-diff:") && AllBegin(s.refs[ArtifactRefs], "oca-artifact:")
         && AllBegin(s.refs[ReviewRefs], "oca-review:")
    ensures BeginsIf(s, RepoRef, "oca-repo:") && BeginsIf(s, WorktreeRef, "oca-worktree:")
         && BeginsIf(s, BranchRef, "oca-branch:") && BeginsIf(s, WorkspaceRef, "workspace:")
         && BeginsIf(s, AgentRef, "agent:") && BeginsIf(s, ActorRef, "actor:") && BeginsIf(s, ProfileRef, "profile:")
         && BeginsIf(s, CorrelationRef, "correlation:") && BeginsIf(s, IdempotencyRef, "idempotency:")
  {
    hide SafeJson, FieldValue, ValidIssue, Derive, Prefix, ListKind, FieldKind, ValidateRef, AllBegin;
    ListPrefixes();
    FieldPrefixes();
    MoreFieldPrefixes();
    ValidBegins(policy, SessionKind, s.sessionRef);
    ValidBegins(policy, TaskKind, s.taskRef);
    forall l | l in s.refs
      ensures AllBegin(s.refs[l], Prefix(ListKind(l)))
    {
      ListBegins(policy, s, l);
    }
    forall f | f in s.optional && FieldKind(f).Some?
      ensures Prefix(FieldKind(f).value) < s.optional[f]
    {
      FieldBegins(policy, s, f);
    }
    hide WellFormed;
  }

  lemma ListPrefixes()
    ensures Prefix(SessionKind) == "oca-session:" && Prefix(TaskKind) == "oca-task:"
    ensures Prefix(ListKind(OutputRefs)) == "oca-output:" && Prefix(ListKind(LogRefs)) == "oca-log:"
         && Prefix(ListKind(DiffRefs)) == "oca-diff:" && Prefix(ListKind(ArtifactRefs)) == "oca-artifact:"
         && Prefix(ListKind(ReviewRefs)) == "oca-review:"
  {}

  lemma FieldPrefixes()
    ensures forall f | f !in {CreatedAt, UpdatedAt, Summary} :: FieldKind(f).Some?
    ensures Prefix(FieldKind(RepoRef).value) == "oca-repo:" && Prefix(FieldKind(WorktreeRef).value) == "oca-worktree:"
         && Prefix(FieldKind(BranchRef).value) == "oca-branch:" && Prefix(FieldKind(WorkspaceRef).value) == "workspace:"
  {}

  lemma MoreFieldPrefixes()
    ensures forall f | f !in {CreatedAt, UpdatedAt, Summary} :: FieldKind(f).Some?
    ensures Prefix(FieldKind(AgentRef).value) == "agent:" && Prefix(FieldKind(ActorRef).value) == "actor:"
         && Prefix(FieldKind(ProfileRef).value) == "profile:"
         && Prefix(FieldKind(CorrelationRef).value) == "correlation:"
         && Prefix(FieldKind(IdempotencyRef).value) == "idempotency:"
  {}

  lemma FieldBegins(policy: TextPolicy, s: Session, f: Field)
    requires WellFormed(policy, s) && f in s.optional && FieldKind(f).Some?
    ensures Prefix(FieldKind(f).value) < s.optional[f]
  {
    hide SafeJson, ValidIssue, Derive, Prefix, ListKind, FieldKind, ValidateRef;
    ValidBegins(policy, FieldKind(f).value, s.optional[f]);
  }

  lemma ListBegins(policy: TextPolicy, s: Session, l: ListField)
    requires WellFormed(policy, s) && l in s.refs
    ensures AllBegin(s.refs[l], Prefix(ListKind(l)))
  {
    hide SafeJson, FieldValue, ValidIssue, Derive, Prefix, ListKind, ValidateRef;
    forall i | 0 <= i < |s.refs[l]|
      ensures Prefix(ListKind(l)) < s.refs[l][i]
    {
      ValidBegins(policy, ListKind(l), s.refs[l][i]);
    }
  }

  lemma ValidBegins(policy: TextPolicy, kind: RefKind, text: string)
    requires ValidateRef(policy, kind, Text(text)) == Ok(text)
    ensures Prefix(kind) < text
  {
    hide UnsafeText, UnsafeEnvelope, Prefix;
  }

  /** Every text of a stored session is at most 512 units long and holds nothing unsafe. */
  lemma StoredTextsAreSafe(policy: TextPolicy, s: Session, text: string)
    requires WellFormed(policy, s)
    requires || text in [s.sessionRef, s.taskRef, StateText(s.lifecycleState), StatusText(s.derivedStatus)]
             || (exists l :: l in s.refs && text in s.refs[l])
             || (exists f :: f in s.optional && s.optional[f] == text)
             || (exists i | 0 <= i < |s.issues| :: text == s.issues[i].code || text == s.issues[i].summary)
    ensures JsLength(text) <= 512 && !UnsafeText(policy, text)
  {
    hide ValidRef, ValidateRef, FieldValue, ValidIssue, Derive, StateText, StatusText, UnsafeText, JsLength;
    assert SafeJson(policy, s);
    if l :| l in s.refs && text in s.refs[l] {
      assert SafeStrings(policy, s.refs[l]);
    }
  }

  lemma ItemsStep(policy: TextPolicy, l: ListField, items: seq<Raw>, text: string)
    requires items != [] && ValidateRef(policy, ListKind(l), items[|items| - 1]) == Ok(text)
    ensures var before := Items(policy, l, items[..|items| - 1]);
            Items(policy, l, items) == (before.0 + [text], before.1)
  {
    hide ValidateRef;
  }

  lemma {:induction false} ItemsOfTexts(policy: TextPolicy, l: ListField, texts: seq<string>)
    requires ValidRefs(policy, ListKind(l), texts)
    ensures Items(policy, l, Texts(texts)) == (texts, [])
  {
    hide ValidateRef, ListKind;
    if texts != [] {
      var before, last := texts[..|texts| - 1], texts[|texts| - 1];
      assert forall i | 0 <= i < |before| :: ValidRef(policy, ListKind(l), before[i]);
      ItemsOfTexts(policy, l, before);
      var items := Texts(texts);
      assert items[..|items| - 1] == Texts(before);
      assert ValidRef(policy, ListKind(l), last);
      ItemsStep(policy, l, items, last);
      hide Items, ValidRef, Texts;
      assert before + [last] == texts;
    }
  }

  lemma {:induction false} ItemsAreValid(policy: TextPolicy, l: ListField, items: seq<Raw>)
    ensures ValidRefs(policy, ListKind(l), Items(policy, l, items).0)
    ensures |Items(policy, l, items).0| <= |items|
  {
    if items != [] {
      ItemsAreValid(policy, l, items[..|items| - 1]);
      if ValidateRef(policy, ListKind(l), items[|items| - 1]).Ok? {
        ValidationFixes(policy, ListKind(l), items[|items| - 1]);
      }
      hide ValidateRef, ValidRef;
    }
  }

  lemma ValidationFixes(policy: TextPolicy, kind: RefKind, value: Raw)
    requires ValidateRef(policy, kind, value).Ok?
    ensures value == Text(ValidateRef(policy, kind, value).value)
    ensures ValidRef(policy, kind, ValidateRef(policy, kind, value).value)
  {}

  lemma SummaryFixes(policy: TextPolicy, value: Raw)
    requires BoundedSummary(policy, value).Ok?
    ensures BoundedSummary(policy, Text(BoundedSummary(policy, value).value)) == BoundedSummary(policy, value)
  {
    TrimIsIdempotent(IsSpaceChar, value.text);
    hide UnsafeText, JsLength;
  }

  lemma FieldFixes(policy: TextPolicy, f: Field, value: Raw)
    requires FieldValue(policy, f, value).Ok?
    ensures FieldValue(policy, f, Text(FieldValue(policy, f, value).value)) == FieldValue(policy, f, value)
  {
    hide ValidateRef, BoundedSummary;
    if FieldKind(f).Some? {
      ValidationFixes(policy, FieldKind(f).value, value);
    } else if f == Summary {
      SummaryFixes(policy, value);
    }
  }

  lemma IssueFixes(policy: TextPolicy, item: Raw)
    requires ReadPublicIssue(policy, item).Some?
    ensures ValidIssue(policy, ReadPublicIssue(policy, item).value)
  {
    hide ValidateRef, BoundedSummary, SafeIssueCode, JsLength;
    var m := item.fields;
    SummaryFixes(policy, if IssueSummary in m then m[IssueSummary] else Undefined);
    if IssueRef in m {
      ValidationFixes(policy, CorrelationKind, m[IssueRef]);
    }
  }

  lemma {:induction false} PublicItemsAreValid(policy: TextPolicy, items: seq<Raw>)
    ensures forall i | 0 <= i < |PublicItems(policy, items).0| :: ValidIssue(policy, PublicItems(policy, items).0[i])
    ensures |PublicItems(policy, items).0| <= |items|
  {
    if items != [] {
      PublicItemsAreValid(policy, items[..|items| - 1]);
      var last := ReadPublicIssue(policy, items[|items| - 1]);
      if last.Some? {
        IssueFixes(policy, items[|items| - 1]);
      }
      hide ReadPublicIssue, ValidIssue;
    }
  }

  lemma PublicItemsStep(policy: TextPolicy, items: seq<Raw>, issue: PublicIssue)
    requires items != [] && ReadPublicIssue(policy, items[|items| - 1]) == Some(issue)
    ensures var before := PublicItems(policy, items[..|items| - 1]);
            PublicItems(policy, items) == (before.0 + [issue], before.1)
  {
    hide ReadPublicIssue;
  }

  lemma {:induction false} PublicItemsOfIssues(policy: TextPolicy, issues: seq<PublicIssue>)
    requires forall i | 0 <= i < |issues| :: ValidIssue(policy, issues[i])
    ensures PublicItems(policy, EmbedIssues(issues)) == (issues, [])
  {
    hide ReadPublicIssue, EmbedIssue;
    if issues != [] {
      var before, last := issues[..|issues| - 1], issues[|issues| - 1];
      PublicItemsOfIssues(policy, before);
      var items := EmbedIssues(issues);
      assert items[|items| - 1] == EmbedIssue(last);
      assert ValidIssue(policy, last);
      assert items[..|items| - 1] == EmbedIssues(before);
      PublicItemsStep(policy, items, last);
      hide PublicItems, ValidIssue, EmbedIssues;
      assert before + [last] == issues;
    }
  }

  /** Every normalised session is well formed. */
  lemma NormalizeGivesWellFormed(policy: TextPolicy, input: Raw)
    requires Normalize(policy, input).Ok?
    ensures WellFormed(policy, Normalize(policy, input).value)
  {
    var m, s := input.fields, Normalize(policy, input).value;
    NormalizesExactly(policy, m, s);
    ReadGivesValid(policy, m, s);
    ReadGivesStatus(m, s);
    ReadGivesLists(policy, m, s);
    ReadGivesFields(policy, m, s);
    ReadGivesIssues(policy, m, s);
    hide ValidRef, Derive, AllLists, ValidRefs, FieldValue, ValidIssue, SafeJson, Normalize, Reads;
  }

  lemma ReadGivesValid(policy: TextPolicy, m: map<Key, Raw>, s: Session)
    requires ReadsRefs(policy, m, s)
    ensures ValidRef(policy, SessionKind, s.sessionRef) && ValidRef(policy, TaskKind, s.taskRef)
  {
    ValidationFixes(policy, SessionKind, m[SessionRef]);
    ValidationFixes(policy, TaskKind, m[TaskRef]);
  }

  lemma ReadGivesStatus(m: map<Key, Raw>, s: Session)
    requires ReadsStatus(m, s)
    ensures s.derivedStatus == Derive(s.lifecycleState, NO_FLAGS)
  {
    hide Parse, Derive;
  }

  lemma ReadGivesLists(policy: TextPolicy, m: map<Key, Raw>, s: Session)
    requires ReadsLists(policy, m, s)
    ensures forall l | l in s.refs :: |s.refs[l]| <= MAX_REF_LIST_LENGTH && ValidRefs(policy, ListKind(l), s.refs[l])
  {
    hide ListKind, ValidRefs, Items;
    forall l | l in s.refs
      ensures |s.refs[l]| <= MAX_REF_LIST_LENGTH && ValidRefs(policy, ListKind(l), s.refs[l])
    {
      assert ReadList(policy, m, l) == (s.refs[l], []);
      if RefList(l) in m {
        ItemsAreValid(policy, l, m[RefList(l)].items);
      } else {
        EmptyIsValid(policy, ListKind(l));
      }
    }
  }

  lemma EmptyIsValid(policy: TextPolicy, kind: RefKind)
    ensures ValidRefs(policy, kind, [])
  {}

  lemma ReadGivesFields(policy: TextPolicy, m: map<Key, Raw>, s: Session)
    requires ReadsFields(policy, m, s)
    ensures forall f | f in s.optional :: FieldValue(policy, f, Text(s.optional[f])) == Ok(s.optional[f])
  {
    hide FieldValue, FieldKind;
    forall f | f in s.optional
      ensures FieldValue(policy, f, Text(s.optional[f])) == Ok(s.optional[f])
    {
      assert ReadField(policy, m, f) == Read(Lookup(s.optional, f), []);
      FieldFixes(policy, f, m[Optional(f)]);
    }
  }

  lemma ReadGivesIssues(policy: TextPolicy, m: map<Key, Raw>, s: Session)
    requires ReadIssues(policy, m) == (s.issues, [])
    ensures |s.issues| <= MAX_PUBLIC_ISSUES && (forall i | 0 <= i < |s.issues| :: ValidIssue(policy, s.issues[i]))
  {
    hide ValidIssue, PublicItems;
    if Issues in m {
      PublicItemsAreValid(policy, m[Issues].items);
    }
  }

  /** A well-formed session is read back from its own object. */
  lemma WellFormedReads(policy: TextPolicy, s: Session)
    requires WellFormed(policy, s)
    ensures Reads(policy, Embed(s), s)
  {
    var m := Embed(s);
    EmbedCoreAt(s);
    EmbedListsAt(s);
    EmbedFieldsAt(s);
    hide Embed, StateText, StatusText, Parse, Derive, ValidateRef, SafeJson, ValidIssue, ValidRefs, FieldValue, AllLists;
    StateTextParses(s.lifecycleState);
    StatusTextParses(s.derivedStatus);
    ListsReadBack(policy, m, s);
    FieldsReadBack(policy, m, s);
    IssuesReadBack(policy, m, s);
    hide ReadsLists, ReadsFields, ReadIssues, EmbedIssues, Texts;
  }

  lemma ListsReadBack(policy: TextPolicy, m: map<Key, Raw>, s: Session)
    requires AllLists(s.refs)
    requires forall l | l in s.refs :: |s.refs[l]| <= MAX_REF_LIST_LENGTH && ValidRefs(policy, ListKind(l), s.refs[l])
    requires forall l | l in s.refs :: RefList(l) in m && m[RefList(l)] == List(Texts(s.refs[l]))
    ensures ReadsLists(policy, m, s)
  {
    hide ValidRefs, Items, AllLists;
    forall l | l in s.refs
      ensures ReadList(policy, m, l) == (s.refs[l], [])
    {
      ItemsOfTexts(policy, l, s.refs[l]);
    }
  }

  lemma FieldsReadBack(policy: TextPolicy, m: map<Key, Raw>, s: Session)
    requires forall f | f in s.optional :: FieldValue(policy, f, Text(s.optional[f])) == Ok(s.optional[f])
    requires forall f :: Optional(f) in m <==> f in s.optional
    requires forall f | f in s.optional :: m[Optional(f)] == Text(s.optional[f])
    ensures ReadsFields(policy, m, s)
  {
    hide FieldValue;
  }

  lemma IssuesReadBack(policy: TextPolicy, m: map<Key, Raw>, s: Session)
    requires |s.issues| <= MAX_PUBLIC_ISSUES && forall i | 0 <= i < |s.issues| :: ValidIssue(policy, s.issues[i])
    requires Issues in m && m[Issues] == List(EmbedIssues(s.issues))
    ensures ReadIssues(policy, m) == (s.issues, [])
  {
    hide ValidIssue, PublicItems;
    PublicItemsOfIssues(policy, s.issues);
  }

  /** The normaliser leaves a session alone exactly when it is well formed. */
  lemma FixedExactlyWhenWellFormed(policy: TextPolicy, s: Session)
    ensures Normalize(policy, Record(Embed(s))) == Ok(s) <==> WellFormed(policy, s)
  {
    if WellFormed(policy, s) {
      WellFormedReads(policy, s);
      NormalizesExactly(policy, Embed(s), s);
      assert SafeJson(policy, s) by { hide SafeJson; }
      hide Reads, SafeJson, Normalize;
    } else if Normalize(policy, Record(Embed(s))) == Ok(s) {
      NormalizeGivesWellFormed(policy, Record(Embed(s)));
    }
  }

  /** Normalising twice is normalising once. */
  lemma NormalizeIsIdempotent(policy: TextPolicy, input: Raw)
    requires Normalize(policy, input).Ok?
    ensures Normalize(policy, Record(Embed(Normalize(policy, input).value))) == Normalize(policy, input)
  {
    hide Normalize, WellFormed, Embed;
    NormalizeGivesWellFormed(policy, input);
    FixedExactlyWhenWellFormed(policy, Normalize(policy, input).value);
  }

  // ----- which refs are valid -----

  /** The characters of valid refs. */
  predicate Tame(c: char) {
    IsInner(c) || c == ':'
  }

  predicate AllTame(s: string) {
    forall i | 0 <= i < |s| :: Tame(s[i])
  }

  lemma {:induction false} TameLength(s: string)
    requires AllTame(s)
    ensures JsLength(s) == |s|
  {
    if s != "" {
      assert Tame(s[0]);
      TameLength(s[1..]);
    }
  }

  lemma TameTextIsPlain(s: string)
    requires AllTame(s) && s != ""
    ensures TrimText(s) == s && !(exists i | 0 <= i < |s| :: IsSpaceChar(s[i])) && !HasChar(s, "\n\r\t/\\{}[]")
  {
    assert Tame(s[0]) && Tame(s[|s| - 1]);
    assert TrimStart(IsSpaceChar, s) == s && TrimEnd(IsSpaceChar, s) == s;
    forall i | 0 <= i < |s|
      ensures !IsSpaceChar(s[i]) && s[i] !in "\n\r\t/\\{}[]"
    {
      assert Tame(s[i]);
    }
  }

  /** Prefixes are made of small letters, dashes and a colon. */
  predicate PrefixText(p: string) {
    0 < |p| <= 25 && 'a' <= p[0] <= 'z' && forall i | 0 <= i < |p| :: 'a' <= p[i] <= 'z' || p[i] == '-' || p[i] == ':'
  }

  lemma PrefixIsTame(kind: RefKind)
    ensures PrefixText(Prefix(kind))
  {}

  lemma DotsInBody(p: string, body: string)
    requires PrefixText(p)
    ensures HasTwoDots(p + body) <==> HasTwoDots(body)
  {
    var s := p + body;
    if HasTwoDots(body) {
      var i :| 0 <= i < |body| - 1 && body[i] == '.' && body[i + 1] == '.';
      assert s[|p| + i] == '.' && s[|p| + i + 1] == '.';
    }
    if HasTwoDots(s) {
      var i :| 0 <= i < |s| - 1 && s[i] == '.' && s[i + 1] == '.';
      assert i >= |p|;
      assert body[i - |p|] == '.' && body[i - |p| + 1] == '.';
    }
  }

  /** What a prefix and a safe body make together passes every structural check. */
  lemma SafeBodyFacts(p: string, body: string)
    requires PrefixText(p) && SafeBody(body)
    ensures var text := p + body;
            && JsLength(text) <= MAX_REF_LENGTH && JsLength(body) <= MAX_REF_BODY_LENGTH
            && TrimText(text) == text && !(exists i | 0 <= i < |text| :: IsSpaceChar(text[i]))
            && !HasChar(text, "\n\r\t/\\{}[]") && !("." <= text) && !("~" <= text)
  {
    var text := p + body;
    assert AllTame(text) && AllTame(body);
    hide TrimText, IsSpaceChar, HasChar, AllTame, JsLength;
    TameLength(text);
    TameLength(body);
    TameTextIsPlain(text);
    assert text[0] == p[0];
  }

  /** Of the many checks, exactly these matter: the others are implied by the prefix and the body's pattern. */
  lemma ValidRefExactly(policy: TextPolicy, kind: RefKind, text: string)
    ensures ValidRef(policy, kind, text) <==>
            && Prefix(kind) <= text
            && var body := text[|Prefix(kind)|..];
               && SafeBody(body) && !HasTwoDots(body) && !(forall i | 0 <= i < |body| :: IsDigit(body[i]))
               && !policy.pattern(text) && !policy.marker(text) && !policy.marker(body)
  {
    hide Prefix, TrimText, IsSpaceChar, HasChar, HasTwoDots, JsLength, SafeBody, PrefixText, IsDigit;
    PrefixIsTame(kind);
    var p := Prefix(kind);
    if p <= text {
      var body := text[|p|..];
      assert text == p + body;
      DotsInBody(p, body);
      BodyIsNotEmpty(body);
      if SafeBody(body) {
        SafeBodyFacts(p, body);
      }
    }
  }

  lemma BodyIsNotEmpty(body: string)
    ensures SafeBody(body) ==> body != ""
  {}
}
