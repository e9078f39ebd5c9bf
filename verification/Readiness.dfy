/**
 Readiness aggregation: which components count as required, what is missing, and the one status that
 comes out.  Kinds, statuses and profiles outside the published lists are `None` on the way in.
 */
module Readiness {
  import opened Common

  datatype Profile = Test | DryRun | EmbeddedCore | SidecarCore | RealSmoke | Production

  datatype Kind = PluginLifecycle | CoreFacade | AdapterFoundation | Transport | Capability | Config | Stores | Tools

  datatype Status = Ready | Degraded | NotReady | Disabled | Failed | Unknown | Missing

  /** The published aggregate status 'unknown' is never produced. */
  datatype AggregateStatus = AllReady | SomeDegraded | SomeNotReady | PluginDisabled | SomeFailed

  datatype Component = Component(componentRef: string, kind: Option<Kind>, status: Option<Status>, required: bool)

  datatype Report = Report(componentRef: string, kind: Kind, status: Status, required: bool)

  datatype Input = Input(
    profile: Option<Profile>, components: seq<Component>, requiredKinds: seq<Option<Kind>>,
    disabled: bool, externalConnectivityEnabled: bool, willCallRemote: bool)

  datatype Aggregate = Aggregate(
    status: AggregateStatus, profile: Profile, components: seq<Report>,
    missingRequired: seq<string>, degradedOptional: seq<string>, disabledOptional: seq<string>,
    externalConnectivityEnabled: bool, willCallRemote: bool)

  function ProfileRequiredKinds(profile: Profile): seq<Kind> {
    match profile
    case Test => [PluginLifecycle, AdapterFoundation, CoreFacade, Stores, Transport, Config]
    case DryRun => [PluginLifecycle, AdapterFoundation, CoreFacade, Stores, Transport, Config]
    case EmbeddedCore => [PluginLifecycle, CoreFacade, AdapterFoundation, Stores, Transport, Tools, Config]
    case SidecarCore => [PluginLifecycle, CoreFacade, AdapterFoundation, Stores, Transport, Tools, Config]
    case RealSmoke => [PluginLifecycle, CoreFacade, AdapterFoundation, Transport, Config]
    case Production =>
      [PluginLifecycle, CoreFacade, AdapterFoundation, Transport, Capability, Config, Stores, Tools]
  }

  function KindText(kind: Kind): string {
    match kind
    case PluginLifecycle => "plugin-lifecycle"
    case CoreFacade => "core-facade"
    case AdapterFoundation => "adapter-foundation"
    case Transport => "transport"
    case Capability => "capability"
    case Config => "config"
    case Stores => "stores"
    case Tools => "tools"
  }

  // ----- required kinds: a Set in insertion order -----

  function Added<T(==)>(values: seq<T>, value: T): seq<T> {
    if value in values then values else values + [value]
  }

  function Merged(base: seq<Kind>, kinds: seq<Option<Kind>>): seq<Kind> {
    if kinds == [] then base
    else Added(Merged(base, kinds[..|kinds| - 1]), Or(kinds[|kinds| - 1], Config))
  }

  method MergeRequiredKinds(profile: Profile, kinds: seq<Option<Kind>>) returns (merged: seq<Kind>)
    ensures merged == Merged(ProfileRequiredKinds(profile), kinds)
  {
    hide ProfileRequiredKinds;
    merged := ProfileRequiredKinds(profile);
    for i := 0 to |kinds|
      invariant merged == Merged(ProfileRequiredKinds(profile), kinds[..i])
    {
      assert kinds[..i + 1][..i] == kinds[..i];
      merged := Added(merged, Or(kinds[i], Config));
    }
    assert kinds[..|kinds|] == kinds;
  }

  /** The required kinds are the profile's and the explicit ones, an unlisted name standing for 'config'. */
  lemma {:induction false} MergedHolds(base: seq<Kind>, kinds: seq<Option<Kind>>, kind: Kind)
    ensures kind in Merged(base, kinds) <==>
            kind in base || Some(kind) in kinds || (kind == Config && None in kinds)
  {
    if kinds != [] {
      var last, before := kinds[|kinds| - 1], kinds[..|kinds| - 1];
      MergedHolds(base, before, kind);
      assert kinds == before + [last];
    }
  }

  // ----- reports -----

  function Normalized(refOf: string -> string, c: Component, required: seq<Kind>): Report {
    var kind := Or(c.kind, Config);
    Report(refOf(c.componentRef), kind, Or(c.status, Unknown), c.required || kind in required)
  }

  function NormalizedAll(refOf: string -> string, components: seq<Component>, required: seq<Kind>): seq<Report> {
    seq(|components|, i requires 0 <= i < |components| => Normalized(refOf, components[i], required))
  }

  function MissingReport(kind: Kind): Report {
    Report("component:" + KindText(kind), kind, Missing, true)
  }

  predicate HasKind(reports: seq<Report>, kind: Kind) {
    exists i | 0 <= i < |reports| :: reports[i].kind == kind
  }

  function MissingReports(reports: seq<Report>, required: seq<Kind>): seq<Report> {
    if required == [] then []
    else
      var last := required[|required| - 1];
      MissingReports(reports, required[..|required| - 1]) + if HasKind(reports, last) then [] else [MissingReport(last)]
  }

  method AppendMissingRequiredReports(reports: seq<Report>, required: seq<Kind>) returns (all: seq<Report>)
    ensures all == reports + MissingReports(reports, required)
  {
    hide MissingReport, HasKind;
    var missing := [];
    for i := 0 to |required|
      invariant missing == MissingReports(reports, required[..i])
    {
      assert required[..i + 1][..i] == required[..i];
      if !HasKind(reports, required[i]) {
        missing := missing + [MissingReport(required[i])];
      }
    }
    assert required[..|required|] == required;
    all := reports + missing;
  }

  predicate IsRequiredUnavailable(r: Report) {
    r.required && r.status in {Missing, NotReady, Disabled, Unknown}
  }

  predicate IsRequiredFailed(r: Report) {
    r.required && r.status == Failed
  }

  predicate IsOptionalDegraded(r: Report) {
    !r.required && r.status in {Degraded, Missing, NotReady, Failed, Unknown}
  }

  predicate IsOptionalDisabled(r: Report) {
    !r.required && r.status == Disabled
  }

  predicate Any(reports: seq<Report>, test: Report -> bool) {
    exists i | 0 <= i < |reports| :: test(reports[i])
  }

  function AggregateStatusOf(reports: seq<Report>, disabled: bool): AggregateStatus {
    if disabled then PluginDisabled
    else if Any(reports, IsRequiredFailed) then SomeFailed
    else if Any(reports, IsRequiredUnavailable) then SomeNotReady
    else if Any(reports, IsOptionalDegraded) then SomeDegraded
    else AllReady
  }

  /** The refs of the reports that pass a test, in order. */
  function RefsOf(reports: seq<Report>, test: Report -> bool): seq<string> {
    if reports == [] then []
    else (if test(reports[0]) then [reports[0].componentRef] else []) + RefsOf(reports[1..], test)
  }

  lemma {:induction false} RefsOfIsEmpty(reports: seq<Report>, test: Report -> bool)
    ensures RefsOf(reports, test) == [] <==> !Any(reports, test)
  {
    if reports != [] {
      RefsOfIsEmpty(reports[1..], test);
      if Any(reports[1..], test) {
        var i :| 0 <= i < |reports| - 1 && test(reports[1..][i]);
        assert test(reports[i + 1]);
      }
      if Any(reports, test) && !test(reports[0]) {
        var i :| 0 <= i < |reports| && test(reports[i]);
        assert reports[1..][i - 1] == reports[i];
      }
    }
  }

  lemma {:induction false} RefsOfHold(reports: seq<Report>, test: Report -> bool, ref: string)
    ensures ref in RefsOf(reports, test) <==> exists r :: r in reports && test(r) && r.componentRef == ref
  {
    if reports != [] {
      RefsOfHold(reports[1..], test, ref);
      assert forall r :: r in reports <==> r == reports[0] || r in reports[1..];
    }
  }

  predicate IsLocalProfile(profile: Profile) {
    profile == Test || profile == DryRun
  }

  function RequiredOf(input: Input): seq<Kind> {
    Merged(ProfileRequiredKinds(Or(input.profile, Test)), input.requiredKinds)
  }

  function Reports(refOf: string -> string, input: Input): seq<Report> {
    var normalized := NormalizedAll(refOf, input.components, RequiredOf(input));
    normalized + MissingReports(normalized, RequiredOf(input))
  }

  function Aggregated(refOf: string -> string, input: Input): Aggregate {
    var profile := Or(input.profile, Test);
    var reports := Reports(refOf, input);
    Aggregate(AggregateStatusOf(reports, input.disabled), profile, reports,
              RefsOf(reports, IsRequiredUnavailable), RefsOf(reports, IsOptionalDegraded),
              RefsOf(reports, IsOptionalDisabled),
              !IsLocalProfile(profile) && input.externalConnectivityEnabled,
              !IsLocalProfile(profile) && profile != RealSmoke &&
              input.externalConnectivityEnabled && input.willCallRemote)
  }

  method AggregatePluginReadiness(refOf: string -> string, input: Input) returns (result: Aggregate)
    ensures result == Aggregated(refOf, input)
  {
    var profile := Or(input.profile, Test);
    var required := MergeRequiredKinds(profile, input.requiredKinds);
    var reports := AppendMissingRequiredReports(NormalizedAll(refOf, input.components, required), required);
    var external := !IsLocalProfile(profile) && input.externalConnectivityEnabled;
    result := Aggregate(
      AggregateStatusOf(reports, input.disabled), profile, reports, RefsOf(reports, IsRequiredUnavailable),
      RefsOf(reports, IsOptionalDegraded), RefsOf(reports, IsOptionalDisabled), external,
      external && profile != RealSmoke && input.willCallRemote);
  }

  // ----- the status, in terms of the input alone -----

  predicate Required(input: Input, kind: Kind) {
    || kind in ProfileRequiredKinds(Or(input.profile, Test)) || Some(kind) in input.requiredKinds
    || (kind == Config && None in input.requiredKinds)
  }

  predicate Counts(input: Input, c: Component) {
    c.required || Required(input, Or(c.kind, Config))
  }

  predicate Supplied(input: Input, kind: Kind) {
    exists i | 0 <= i < |input.components| :: Or(input.components[i].kind, Config) == kind
  }

  predicate SomeComponent(input: Input, required: bool, statuses: set<Status>) {
    exists i | 0 <= i < |input.components| ::
      Counts(input, input.components[i]) == required && Or(input.components[i].status, Unknown) in statuses
  }

  predicate LacksRequired(input: Input) {
    exists kind :: Required(input, kind) && !Supplied(input, kind)
  }

  lemma {:induction false} MissingReportsExactly(reports: seq<Report>, required: seq<Kind>, r: Report)
    ensures r in MissingReports(reports, required) <==>
            exists kind :: kind in required && !HasKind(reports, kind) && r == MissingReport(kind)
  {
    hide MissingReport, HasKind;
    if required != [] {
      var last, before := required[|required| - 1], required[..|required| - 1];
      MissingReportsExactly(reports, before, r);
      assert forall kind :: kind in required <==> kind in before || kind == last;
    }
  }

  lemma AnyMember(reports: seq<Report>, test: Report -> bool)
    ensures Any(reports, test) <==> exists r :: r in reports && test(r)
  {
    if Any(reports, test) {
      var i :| 0 <= i < |reports| && test(reports[i]);
      assert reports[i] in reports;
    }
  }

  lemma AnyOfConcatenation(a: seq<Report>, b: seq<Report>, test: Report -> bool)
    ensures Any(a + b, test) <==> Any(a, test) || Any(b, test)
  {
    AnyMember(a, test);
    AnyMember(b, test);
    AnyMember(a + b, test);
    hide Any;
  }

  lemma AnyNormalized(refOf: string -> string, input: Input, test: Report -> bool, required: bool, statuses: set<Status>)
    requires forall r: Report :: test(r) <==> r.required == required && r.status in statuses
    ensures Any(NormalizedAll(refOf, input.components, RequiredOf(input)), test) <==>
            SomeComponent(input, required, statuses)
  {
    var reports := NormalizedAll(refOf, input.components, RequiredOf(input));
    forall i | 0 <= i < |input.components|
      ensures reports[i].required == Counts(input, input.components[i])
      ensures reports[i].status == Or(input.components[i].status, Unknown)
    {
      MergedHolds(ProfileRequiredKinds(Or(input.profile, Test)), input.requiredKinds, Or(input.components[i].kind, Config));
    }
    hide Counts, NormalizedAll;
    if SomeComponent(input, required, statuses) {
      var i :| 0 <= i < |input.components| && Counts(input, input.components[i]) == required &&
               Or(input.components[i].status, Unknown) in statuses;
      assert test(reports[i]);
    }
  }

  lemma SuppliedExactly(refOf: string -> string, input: Input, kind: Kind)
    ensures HasKind(NormalizedAll(refOf, input.components, RequiredOf(input)), kind) <==> Supplied(input, kind)
  {
    var reports := NormalizedAll(refOf, input.components, RequiredOf(input));
    assert forall i | 0 <= i < |reports| :: reports[i].kind == Or(input.components[i].kind, Config);
    hide NormalizedAll;
    if Supplied(input, kind) {
      var i :| 0 <= i < |input.components| && Or(input.components[i].kind, Config) == kind;
      assert reports[i].kind == kind;
    }
  }

  lemma AnyMissing(refOf: string -> string, input: Input, test: Report -> bool)
    ensures var reports := NormalizedAll(refOf, input.components, RequiredOf(input));
            Any(MissingReports(reports, RequiredOf(input)), test) <==>
            exists kind :: Required(input, kind) && !Supplied(input, kind) && test(MissingReport(kind))
  {
    var reports := NormalizedAll(refOf, input.components, RequiredOf(input));
    AnyMember(MissingReports(reports, RequiredOf(input)), test);
    forall kind
      ensures kind in RequiredOf(input) && !HasKind(reports, kind) <==> Required(input, kind) && !Supplied(input, kind)
    {
      MergedHolds(ProfileRequiredKinds(Or(input.profile, Test)), input.requiredKinds, kind);
      SuppliedExactly(refOf, input, kind);
    }
    forall r
      ensures r in MissingReports(reports, RequiredOf(input)) <==>
              exists kind :: kind in RequiredOf(input) && !HasKind(reports, kind) && r == MissingReport(kind)
    {
      MissingReportsExactly(reports, RequiredOf(input), r);
    }
    hide Any, MissingReports, HasKind, Required, Supplied, RequiredOf, NormalizedAll, MissingReport;
    if kind :| Required(input, kind) && !Supplied(input, kind) && test(MissingReport(kind)) {
      assert MissingReport(kind) in MissingReports(reports, RequiredOf(input));
    }
  }

  lemma AnyReport(refOf: string -> string, input: Input, test: Report -> bool, required: bool, statuses: set<Status>)
    requires forall r: Report :: test(r) <==> r.required == required && r.status in statuses
    ensures Any(Reports(refOf, input), test) <==>
            SomeComponent(input, required, statuses) || (required && Missing in statuses && LacksRequired(input))
  {
    var reports := NormalizedAll(refOf, input.components, RequiredOf(input));
    AnyNormalized(refOf, input, test, required, statuses);
    AnyMissing(refOf, input, test);
    AnyOfConcatenation(reports, MissingReports(reports, RequiredOf(input)), test);
    assert forall kind :: test(MissingReport(kind)) <==> required && Missing in statuses;
    hide Any, MissingReports, Required, Supplied, RequiredOf, NormalizedAll, SomeComponent, MissingReport;
  }

  /** The status and the missing list, read off the components and the required kinds. */
  lemma AggregateExactly(refOf: string -> string, input: Input)
    ensures var failed := SomeComponent(input, true, {Failed});
            var unavailable := LacksRequired(input) || SomeComponent(input, true, {Missing, NotReady, Disabled, Unknown});
            var degraded := SomeComponent(input, false, {Degraded, Missing, NotReady, Failed, Unknown});
            && Aggregated(refOf, input).status ==
               (if input.disabled then PluginDisabled else if failed then SomeFailed
                else if unavailable then SomeNotReady else if degraded then SomeDegraded else AllReady)
            && (Aggregated(refOf, input).missingRequired == [] <==> !unavailable)
  {
    AnyReport(refOf, input, IsRequiredFailed, true, {Failed});
    AnyReport(refOf, input, IsRequiredUnavailable, true, {Missing, NotReady, Disabled, Unknown});
    AnyReport(refOf, input, IsOptionalDegraded, false, {Degraded, Missing, NotReady, Failed, Unknown});
    RefsOfIsEmpty(Reports(refOf, input), IsRequiredUnavailable);
    hide Any, Reports, RefsOf, SomeComponent, LacksRequired;
  }

  lemma TestsMean(r: Report)
    ensures IsRequiredUnavailable(r) <==> r.required && r.status !in {Ready, Degraded, Failed}
    ensures IsOptionalDegraded(r) <==> !r.required && r.status !in {Ready, Disabled}
  {
    match r.status
    case Ready | Degraded | NotReady | Disabled | Failed | Unknown | Missing =>
  }

  /** Which profile needs which kind. */
  lemma ProfileNeedsExactly(profile: Profile, kind: Kind)
    ensures kind in ProfileRequiredKinds(profile) <==>
            || kind in {PluginLifecycle, CoreFacade, AdapterFoundation, Transport, Config}
            || (kind == Stores && profile != RealSmoke)
            || (kind == Tools && profile in {EmbeddedCore, SidecarCore, Production})
            || (kind == Capability && profile == Production)
  {}

  /** A component that counts as required and is not available is named in the missing list. */
  lemma UnavailableIsNamed(refOf: string -> string, input: Input, i: nat)
    requires i < |input.components| && Counts(input, input.components[i])
    requires Or(input.components[i].status, Unknown) !in {Ready, Degraded, Failed}
    ensures refOf(input.components[i].componentRef) in Aggregated(refOf, input).missingRequired
  {
    var reports := NormalizedAll(refOf, input.components, RequiredOf(input));
    MergedHolds(ProfileRequiredKinds(Or(input.profile, Test)), input.requiredKinds, Or(input.components[i].kind, Config));
    var r := reports[i];
    assert r.componentRef == refOf(input.components[i].componentRef) && r.required && r.status !in {Ready, Degraded, Failed};
    assert r in Reports(refOf, input);
    assert Aggregated(refOf, input).components == Reports(refOf, input);
    hide Aggregated, Reports, NormalizedAll, Counts;
    ListsExactly(refOf, input, r.componentRef);
  }

  lemma MissingIsReported(refOf: string -> string, input: Input, kind: Kind)
    requires Required(input, kind) && !Supplied(input, kind)
    ensures MissingReport(kind) in Reports(refOf, input)
  {
    var reports := NormalizedAll(refOf, input.components, RequiredOf(input));
    MergedHolds(ProfileRequiredKinds(Or(input.profile, Test)), input.requiredKinds, kind);
    SuppliedExactly(refOf, input, kind);
    MissingReportsExactly(reports, RequiredOf(input), MissingReport(kind));
    assert kind in RequiredOf(input) && !HasKind(reports, kind);
    assert Reports(refOf, input) == reports + MissingReports(reports, RequiredOf(input));
  }

  /** A required kind that no component supplies is named in the missing list. */
  lemma MissingKindIsNamed(refOf: string -> string, input: Input, kind: Kind)
    requires Required(input, kind) && !Supplied(input, kind)
    ensures var name := match kind
                        case PluginLifecycle => "plugin-lifecycle"
                        case CoreFacade => "core-facade"
                        case AdapterFoundation => "adapter-foundation"
                        case Transport => "transport"
                        case Capability => "capability"
                        case Config => "config"
                        case Stores => "stores"
                        case Tools => "tools";
            "component:" + name in Aggregated(refOf, input).missingRequired
  {
    hide Required, Supplied, Aggregated, MissingReport;
    MissingIsListed(refOf, input, kind);
    assert MissingReport(kind).componentRef == "component:" + KindText(kind) by { ReportRef(kind); }
  }

  lemma ReportRef(kind: Kind)
    ensures MissingReport(kind).componentRef == "component:" + KindText(kind)
  {
    hide KindText;
  }

  lemma MissingIsListed(refOf: string -> string, input: Input, kind: Kind)
    requires Required(input, kind) && !Supplied(input, kind)
    ensures MissingReport(kind).componentRef in Aggregated(refOf, input).missingRequired
  {
    assert MissingReport(kind).required && MissingReport(kind).status == Missing;
    assert Aggregated(refOf, input).components == Reports(refOf, input);
    hide Required, Supplied, Reports, Aggregated, MissingReport;
    MissingIsReported(refOf, input, kind);
    ListsExactly(refOf, input, MissingReport(kind).componentRef);
  }

  /** What the three lists name. */
  lemma ListsExactly(refOf: string -> string, input: Input, ref: string)
    ensures var a := Aggregated(refOf, input);
            && (ref in a.missingRequired <==> exists r :: r in a.components && r.componentRef == ref && r.required &&
                                                          r.status !in {Ready, Degraded, Failed})
            && (ref in a.degradedOptional <==> exists r :: r in a.components && r.componentRef == ref && !r.required &&
                                                           r.status !in {Ready, Disabled})
            && (ref in a.disabledOptional <==> exists r :: r in a.components && r.componentRef == ref && !r.required &&
                                                           r.status == Disabled)
  {
    var reports := Reports(refOf, input);
    RefsOfHold(reports, IsRequiredUnavailable, ref);
    RefsOfHold(reports, IsOptionalDegraded, ref);
    RefsOfHold(reports, IsOptionalDisabled, ref);
    forall r: Report
      ensures IsRequiredUnavailable(r) <==> r.required && r.status !in {Ready, Degraded, Failed}
      ensures IsOptionalDegraded(r) <==> !r.required && r.status !in {Ready, Disabled}
    {
      TestsMean(r);
    }
    hide Reports, RefsOf, AggregateStatusOf, IsRequiredUnavailable, IsOptionalDegraded;
  }

  /** Remote work is announced only when both switches ask for it and the profile is neither local nor a smoke. */
  lemma RemoteOnlyWhenAsked(refOf: string -> string, input: Input)
    ensures var a := Aggregated(refOf, input);
            && (a.willCallRemote <==> a.externalConnectivityEnabled && input.willCallRemote && a.profile != RealSmoke)
            && (a.externalConnectivityEnabled <==>
                  input.externalConnectivityEnabled && input.profile.Some? && a.profile !in {Test, DryRun})
  {
    hide Reports, RefsOf, AggregateStatusOf;
  }
}
