/** Callback token records: every transition checks the status and returns a new record or throws. */
module TokenRecords {
  import opened Common

  datatype Status = Issued | Verified | Consumed | PermissionDenied | Failed

  datatype Permission =
    | Allowed(decisionRef: Option<string>, detailsRef: Option<string>, correlationRef: Option<string>)
    | Denied(decisionRef: Option<string>, reasonRef: Option<string>, detailsRef: Option<string>,
             correlationRef: Option<string>)

  datatype Record = Record(
    recordRef: string, status: Status, tokenConsumed: bool, issuedAt: string,
    verifiedAt: Option<string>, consumedAt: Option<string>, deniedAt: Option<string>, failedAt: Option<string>,
    actionRef: Option<string>, permission: Option<Permission>, consumeAttempts: nat, duplicateConsumes: nat,
    detailsRef: Option<string>, correlationRef: Option<string>, failureRef: Option<string>)

  /** Ref normalisation, None where it throws. */
  type RefPolicy = string -> Option<string>

  function OptionalRef(policy: RefPolicy, ref: Option<string>): Option<Option<string>> {
    match ref
    case None => Some(None)
    case Some(text) => if policy(text).Some? then Some(policy(text)) else None
  }

  function OrElse(a: Option<string>, b: Option<string>): Option<string> {
    if a.Some? then a else b
  }

  function NormalizePermission(policy: RefPolicy, p: Permission): Option<Permission> {
    match (OptionalRef(policy, p.decisionRef), OptionalRef(policy, p.detailsRef), OptionalRef(policy, p.correlationRef))
    case (Some(decision), Some(details), Some(correlation)) =>
      if p.Allowed? then Some(Allowed(decision, details, correlation))
      else
        var reason := OptionalRef(policy, p.reasonRef);
        if reason.Some? then Some(Denied(decision, reason.value, details, correlation)) else None
    case _ => None
  }

  datatype IssueInput = IssueInput(
    tokenHandle: string, recordRef: string, issuedAt: string, actionRef: Option<string>,
    detailsRef: Option<string>, correlationRef: Option<string>)

  function CreateIssued(policy: RefPolicy, input: IssueInput): Option<Record> {
    match (policy(input.tokenHandle), policy(input.recordRef), policy(input.issuedAt),
           OptionalRef(policy, input.actionRef), OptionalRef(policy, input.detailsRef),
           OptionalRef(policy, input.correlationRef))
    case (Some(_), Some(recordRef), Some(issuedAt), Some(action), Some(details), Some(correlation)) =>
      Some(Record(recordRef, Issued, false, issuedAt, None, None, None, None, action, None, 0, 0,
                  details, correlation, None))
    case _ => None
  }

  /** A request to one of the four transitions; `at` is its timestamp. */
  datatype Mark =
    | Verify(tokenHandle: string, at: string, detailsRef: Option<string>, correlationRef: Option<string>)
    | Consume(tokenHandle: string, at: string, permission: Permission,
              detailsRef: Option<string>, correlationRef: Option<string>)
    | Deny(tokenHandle: string, at: string, permission: Permission,
           detailsRef: Option<string>, correlationRef: Option<string>)
    | Fail(tokenHandle: string, at: string, failureRef: Option<string>,
           detailsRef: Option<string>, correlationRef: Option<string>)

  /** The refs every transition normalises before it looks at the status. */
  datatype Refs = Refs(details: Option<string>, correlation: Option<string>)

  function MarkRefs(policy: RefPolicy, r: Record, mark: Mark): Option<Refs> {
    match (policy(mark.tokenHandle), OptionalRef(policy, OrElse(mark.detailsRef, r.detailsRef)),
           OptionalRef(policy, OrElse(mark.correlationRef, r.correlationRef)))
    case (Some(_), Some(details), Some(correlation)) => Some(Refs(details, correlation))
    case _ => None
  }

  function MarkVerified(policy: RefPolicy, r: Record, mark: Mark): Option<Record>
    requires mark.Verify?
  {
    var refs := MarkRefs(policy, r, mark);
    if refs.None? then None
    else if r.status == Consumed || r.status == Verified then Some(r)
    else if r.status != Issued || policy(mark.at).None? then None
    else
      Some(r.(status := Verified, verifiedAt := policy(mark.at),
              detailsRef := refs.value.details, correlationRef := refs.value.correlation))
  }

  function MarkConsumed(policy: RefPolicy, r: Record, mark: Mark): Option<Record>
    requires mark.Consume?
  {
    var refs, permission := MarkRefs(policy, r, mark), NormalizePermission(policy, mark.permission);
    if refs.None? || permission.None? || !permission.value.Allowed? then None
    else if r.status == Consumed then
      Some(r.(consumeAttempts := r.consumeAttempts + 1, duplicateConsumes := r.duplicateConsumes + 1))
    else if r.status != Verified || policy(mark.at).None? then None
    else
      Some(r.(status := Consumed, tokenConsumed := true, consumedAt := policy(mark.at), permission := permission,
              consumeAttempts := r.consumeAttempts + 1,
              detailsRef := refs.value.details, correlationRef := refs.value.correlation))
  }

  function MarkDenied(policy: RefPolicy, r: Record, mark: Mark): Option<Record>
    requires mark.Deny?
  {
    var refs, permission := MarkRefs(policy, r, mark), NormalizePermission(policy, mark.permission);
    if refs.None? || permission.None? || !permission.value.Denied? || r.status == Consumed then None
    else if r.status == PermissionDenied then Some(r)
    else if policy(mark.at).None? then None
    else
      Some(r.(status := PermissionDenied, tokenConsumed := false, deniedAt := policy(mark.at),
              permission := permission,
              detailsRef := refs.value.details, correlationRef := refs.value.correlation))
  }

  function MarkFailed(policy: RefPolicy, r: Record, mark: Mark): Option<Record>
    requires mark.Fail?
  {
    var refs, failure := MarkRefs(policy, r, mark), OptionalRef(policy, mark.failureRef);
    if refs.None? || failure.None? || r.status == Consumed || policy(mark.at).None? then None
    else
      Some(r.(status := Failed, tokenConsumed := false, failedAt := policy(mark.at),
              failureRef := OrElse(failure.value, r.failureRef),
              detailsRef := refs.value.details, correlationRef := refs.value.correlation))
  }

  function Apply(policy: RefPolicy, r: Record, mark: Mark): Option<Record> {
    match mark
    case Verify(_, _, _, _) => MarkVerified(policy, r, mark)
    case Consume(_, _, _, _, _) => MarkConsumed(policy, r, mark)
    case Deny(_, _, _, _, _) => MarkDenied(policy, r, mark)
    case Fail(_, _, _, _, _) => MarkFailed(policy, r, mark)
  }

  /** A run of transitions; one that throws leaves the record as it was. */
  function Run(policy: RefPolicy, r: Record, marks: seq<Mark>): Record
    decreases |marks|
  {
    if marks == [] then r
    else
      var next := Apply(policy, r, marks[0]);
      Run(policy, if next.Some? then next.value else r, marks[1..])
  }

  /** What holds of a record at every moment of its life. */
  ghost predicate Coherent(r: Record) {
    && (r.tokenConsumed <==> r.status == Consumed)
    && r.consumeAttempts == r.duplicateConsumes + (if r.status == Consumed then 1 else 0)
    && (r.status == Consumed ==>
          r.permission.Some? && r.permission.value.Allowed? && r.verifiedAt.Some? && r.consumedAt.Some? &&
          r.deniedAt.None? && r.failedAt.None?)
    && (r.status != Consumed ==> r.duplicateConsumes == 0 && r.consumedAt.None?)
    && (r.status == Issued ==> r.verifiedAt.None?)
    && (r.status == Verified ==> r.verifiedAt.Some?)
    && (r.status in {Issued, Verified} ==> r.permission.None? && r.deniedAt.None? && r.failedAt.None?)
    && (r.status == PermissionDenied ==> r.permission.Some? && r.permission.value.Denied? && r.deniedAt.Some?)
    && (r.status == Failed ==> r.failedAt.Some?)
    && (r.permission.Some? && r.permission.value.Allowed? ==> r.status == Consumed)
  }

  ghost predicate SameIdentity(r: Record, s: Record) {
    r.recordRef == s.recordRef && r.issuedAt == s.issuedAt && r.actionRef == s.actionRef
  }

  /** The statuses a record may still reach from each status. */
  ghost predicate MayFollow(before: Status, after: Status) {
    match before
    case Issued => true
    case Verified => after != Issued
    case Consumed => after == Consumed
    case PermissionDenied => after in {PermissionDenied, Failed}
    case Failed => after in {PermissionDenied, Failed}
  }

  /** One transition: what it keeps, and that only verified-to-consumed consumes. */
  lemma ApplyKeeps(policy: RefPolicy, r: Record, mark: Mark)
    requires Coherent(r) && Apply(policy, r, mark).Some?
    ensures var s := Apply(policy, r, mark).value;
            Coherent(s) && SameIdentity(r, s) && MayFollow(r.status, s.status) &&
            (r.status != Consumed && s.status == Consumed ==> r.status == Verified && mark.Consume?) &&
            (r.status == Consumed ==>
               s.consumedAt == r.consumedAt && s.permission == r.permission &&
               s.duplicateConsumes - r.duplicateConsumes == if mark.Consume? then 1 else 0)
  {}

  ghost predicate Usable(policy: RefPolicy, ref: Option<string>) {
    ref.Some? ==> policy(ref.value).Some?
  }

  ghost function Clean(policy: RefPolicy, ref: Option<string>): Option<string> {
    if ref.Some? then policy(ref.value) else None
  }

  ghost predicate PermissionUsable(policy: RefPolicy, p: Permission) {
    && Usable(policy, p.decisionRef) && Usable(policy, p.detailsRef) && Usable(policy, p.correlationRef)
    && (p.Denied? ==> Usable(policy, p.reasonRef))
  }

  ghost predicate PermissionCleaned(policy: RefPolicy, p: Permission, noted: Option<Permission>) {
    && noted.Some? && (noted.value.Denied? <==> p.Denied?)
    && noted.value.decisionRef == Clean(policy, p.decisionRef) && noted.value.detailsRef == Clean(policy, p.detailsRef)
    && noted.value.correlationRef == Clean(policy, p.correlationRef)
    && (p.Denied? ==> noted.value.reasonRef == Clean(policy, p.reasonRef))
  }

  /** The refs of the mark, or else those of the record, as they are noted. */
  ghost predicate RefsNoted(policy: RefPolicy, r: Record, mark: Mark, s: Record) {
    && s.detailsRef == Clean(policy, if mark.detailsRef.Some? then mark.detailsRef else r.detailsRef)
    && s.correlationRef == Clean(policy, if mark.correlationRef.Some? then mark.correlationRef else r.correlationRef)
  }

  /** What a transition does to the status, when it is possible at all, and which time it notes. */
  ghost predicate Moves(policy: RefPolicy, r: Record, mark: Mark, s: Record) {
    match mark
    case Verify(_, at, _, _) =>
      if r.status == Issued then s.status == Verified && s.verifiedAt.Some? && s.verifiedAt == policy(at) &&
        RefsNoted(policy, r, mark, s)
      else r.status in {Verified, Consumed} && s == r
    case Consume(_, at, permission, _, _) =>
      && s.consumeAttempts == r.consumeAttempts + 1 && s.permission.Some? && s.permission.value.Allowed?
      && if r.status == Verified then
           s.status == Consumed && s.tokenConsumed && s.consumedAt == policy(at) &&
           PermissionCleaned(policy, permission, s.permission) && RefsNoted(policy, r, mark, s)
         else r.status == Consumed == s.status && s.duplicateConsumes == r.duplicateConsumes + 1
    case Deny(_, at, permission, _, _) =>
      && r.status != Consumed && s.status == PermissionDenied && s.permission.Some? && s.permission.value.Denied?
      && if r.status == PermissionDenied then s == r
         else
           s.deniedAt == policy(at) && PermissionCleaned(policy, permission, s.permission) && RefsNoted(policy, r, mark, s)
    case Fail(_, at, failureRef, _, _) =>
      && r.status != Consumed && s.status == Failed && s.failedAt.Some? && s.failedAt == policy(at)
      && s.failureRef == (if failureRef.Some? then policy(failureRef.value) else r.failureRef)
      && RefsNoted(policy, r, mark, s)
  }

  /** The statuses in which a mark is refused; a mark that changes the record also needs a valid time. */
  ghost predicate Refused(policy: RefPolicy, r: Record, mark: Mark) {
    match mark
    case Verify(_, at, _, _) => r.status in {PermissionDenied, Failed} || (r.status == Issued && policy(at).None?)
    case Consume(_, at, _, _, _) =>
      r.status in {Issued, PermissionDenied, Failed} || (r.status == Verified && policy(at).None?)
    case Deny(_, at, _, _, _) => r.status == Consumed || (r.status != PermissionDenied && policy(at).None?)
    case Fail(_, at, _, _, _) => r.status == Consumed || policy(at).None?
  }

  /** The refs and the permission that a mark brings can be normalised, and the permission is of the right kind. */
  ghost predicate Readable(policy: RefPolicy, r: Record, mark: Mark) {
    && policy(mark.tokenHandle).Some?
    && Usable(policy, if mark.detailsRef.Some? then mark.detailsRef else r.detailsRef)
    && Usable(policy, if mark.correlationRef.Some? then mark.correlationRef else r.correlationRef)
    && (mark.Consume? ==> mark.permission.Allowed? && PermissionUsable(policy, mark.permission))
    && (mark.Deny? ==> mark.permission.Denied? && PermissionUsable(policy, mark.permission))
    && (mark.Fail? ==> Usable(policy, mark.failureRef))
  }

  /** When each transition is made, and the move it then makes. */
  lemma ApplyExactly(policy: RefPolicy, r: Record, mark: Mark)
    requires Coherent(r)
    ensures Apply(policy, r, mark).Some? <==> Readable(policy, r, mark) && !Refused(policy, r, mark)
    ensures Apply(policy, r, mark).Some? ==> Moves(policy, r, mark, Apply(policy, r, mark).value)
  {
    MarkRefsExactly(policy, r, mark);
    if mark.Consume? || mark.Deny? {
      PermissionExactly(policy, mark.permission);
    }
    hide MarkRefs, NormalizePermission, PermissionCleaned, PermissionUsable;
  }

  lemma MarkRefsExactly(policy: RefPolicy, r: Record, mark: Mark)
    ensures var details := if mark.detailsRef.Some? then mark.detailsRef else r.detailsRef;
            var correlation := if mark.correlationRef.Some? then mark.correlationRef else r.correlationRef;
            && (MarkRefs(policy, r, mark).Some? <==>
                  policy(mark.tokenHandle).Some? && Usable(policy, details) && Usable(policy, correlation))
            && (MarkRefs(policy, r, mark).Some? ==>
                  MarkRefs(policy, r, mark).value == Refs(Clean(policy, details), Clean(policy, correlation)))
  {}

  lemma PermissionExactly(policy: RefPolicy, p: Permission)
    ensures NormalizePermission(policy, p).Some? <==> PermissionUsable(policy, p)
    ensures NormalizePermission(policy, p).Some? ==> PermissionCleaned(policy, p, NormalizePermission(policy, p))
  {}

  /** When a token can be issued, and the record it then gets. */
  lemma IssuedExactly(policy: RefPolicy, input: IssueInput)
    ensures CreateIssued(policy, input).Some? <==>
            && policy(input.tokenHandle).Some? && policy(input.recordRef).Some? && policy(input.issuedAt).Some?
            && Usable(policy, input.actionRef) && Usable(policy, input.detailsRef) && Usable(policy, input.correlationRef)
    ensures CreateIssued(policy, input).Some? ==>
              var r := CreateIssued(policy, input).value;
              && Coherent(r) && r.status == Issued && Some(r.recordRef) == policy(input.recordRef)
              && Some(r.issuedAt) == policy(input.issuedAt) && r.actionRef == Clean(policy, input.actionRef)
              && r.detailsRef == Clean(policy, input.detailsRef)
              && r.correlationRef == Clean(policy, input.correlationRef) && r.failureRef.None?
  {}

  lemma TwoMarks(policy: RefPolicy, r: Record, first: Mark, second: Mark)
    requires Apply(policy, r, first).Some? && Apply(policy, Apply(policy, r, first).value, second).Some?
    ensures Run(policy, r, [first, second]) == Apply(policy, Apply(policy, r, first).value, second).value
  {
    hide Apply;
    assert [first, second][1..] == [second] && [second][1..] == [];
    assert Run(policy, Apply(policy, r, first).value, [second]) ==
           Run(policy, Apply(policy, Apply(policy, r, first).value, second).value, []);
  }

  /** The way through: an issued record, verified and then consumed. */
  lemma IssuedCanBeConsumed(policy: RefPolicy, r: Record, verify: Mark, consume: Mark)
    requires Coherent(r) && r.status == Issued && verify.Verify? && consume.Consume?
    requires Readable(policy, r, verify) && policy(verify.at).Some?
    requires var mid := MarkVerified(policy, r, verify);
             mid.Some? && Readable(policy, mid.value, consume) && policy(consume.at).Some?
    ensures var end := Run(policy, r, [verify, consume]);
            && end.status == Consumed && end.tokenConsumed && end.consumeAttempts == 1 && end.duplicateConsumes == 0
            && end.verifiedAt == policy(verify.at) && end.consumedAt == policy(consume.at)
  {
    hide Readable, MarkRefs, NormalizePermission;
    ApplyExactly(policy, r, verify);
    var mid := Apply(policy, r, verify).value;
    ApplyKeeps(policy, r, verify);
    ApplyExactly(policy, mid, consume);
    var end := Apply(policy, mid, consume).value;
    ApplyKeeps(policy, mid, consume);
    TwoMarks(policy, r, verify, consume);
    assert end.verifiedAt == mid.verifiedAt;
    hide Apply, Run;
  }

  lemma {:induction false} RunKeeps(policy: RefPolicy, r: Record, marks: seq<Mark>)
    requires Coherent(r)
    ensures var s := Run(policy, r, marks);
            Coherent(s) && SameIdentity(r, s) && MayFollow(r.status, s.status) &&
            (r.status == Consumed ==> s.consumedAt == r.consumedAt && s.permission == r.permission)
    decreases |marks|
  {
    if marks != [] {
      hide Coherent, MayFollow, Apply;
      var next := Apply(policy, r, marks[0]);
      if next.Some? {
        ApplyKeeps(policy, r, marks[0]);
        RunKeeps(policy, next.value, marks[1..]);
        MayFollowChains(r.status, next.value.status, Run(policy, r, marks).status);
      } else {
        RunKeeps(policy, r, marks[1..]);
      }
      ConsumedIsFinal(r.status, if next.Some? then next.value.status else r.status);
    }
    MayFollowItself(r.status);
  }

  lemma MayFollowItself(s: Status)
    ensures MayFollow(s, s)
  {}

  lemma MayFollowChains(a: Status, b: Status, c: Status)
    ensures MayFollow(a, b) && MayFollow(b, c) ==> MayFollow(a, c)
  {}

  lemma ConsumedIsFinal(a: Status, b: Status)
    ensures a == Consumed && MayFollow(a, b) ==> b == Consumed
  {}

  /** The life of an issued record, whatever is asked of it. */
  lemma IssuedRunIsCoherent(policy: RefPolicy, input: IssueInput, marks: seq<Mark>)
    requires CreateIssued(policy, input).Some?
    ensures Coherent(Run(policy, CreateIssued(policy, input).value, marks))
    ensures SameIdentity(CreateIssued(policy, input).value, Run(policy, CreateIssued(policy, input).value, marks))
  {
    RunKeeps(policy, CreateIssued(policy, input).value, marks);
  }

  lemma {:induction false} RunSplits(policy: RefPolicy, r: Record, first: seq<Mark>, more: seq<Mark>)
    ensures Run(policy, r, first + more) == Run(policy, Run(policy, r, first), more)
    decreases |first|
  {
    if first == [] {
      assert first + more == more;
    } else {
      assert (first + more)[1..] == first[1..] + more;
      var next := Apply(policy, r, first[0]);
      RunSplits(policy, if next.Some? then next.value else r, first[1..], more);
    }
  }

  /** Once denied or failed a token is never consumed; once consumed it keeps its first consumption. */
  lemma LaterRunsRespectOutcome(policy: RefPolicy, r: Record, first: seq<Mark>, more: seq<Mark>)
    requires Coherent(r)
    ensures var mid, end := Run(policy, r, first), Run(policy, r, first + more);
            (mid.status in {PermissionDenied, Failed} ==> !end.tokenConsumed) &&
            (mid.tokenConsumed ==>
               end.tokenConsumed && end.consumedAt == mid.consumedAt && end.permission == mid.permission)
  {
    RunSplits(policy, r, first, more);
    RunKeeps(policy, r, first);
    RunKeeps(policy, Run(policy, r, first), more);
  }
}
