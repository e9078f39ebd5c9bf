/** Composition of the plugin runtime: from bindings and snapshots to one readiness verdict. */
module Composition {
  import opened Common
  import R = Readiness
  import Lifecycle
  import StableSort

  datatype Profile = Fake | DryRun | SecretGatedSmoke | RealEdge | ProductionCandidate

  datatype BindingKind =
    | CoreFacade | AdapterFoundation | Transport | StoreBinding | Config | ApprovalToken | Observability
    | CredentialResolver | FakeEvidence | NoLeakEvidence | OptionalOverlay

  datatype BindingStatus = Ready | NotReady | Disabled | Blocked | Degraded | FailedSafe

  datatype ReadinessStatus =
    FakeReady | DryRunReady | StatusNotReady | StatusBlocked | StatusDegraded | StatusFailedSafe | ProfileGated

  datatype BlockedReason =
    | MissingRequiredBinding | RuntimeValueGateClosed | RealNetworkGateClosed | RealEdgeNotImplemented
    | ProductionRuntimeNotImplemented | ReadinessAggregateNotReady | ReadinessAggregateFailed

  datatype NextStep =
    ProvideRequiredBindings | KeepSecretGatedEdgeBlocked | DeferRealEdge | DeferProduction | ContinueFakeEvidence

  datatype BindingInput = BindingInput(
    bindingRef: string, kind: Option<BindingKind>, status: Option<BindingStatus>, required: bool,
    readinessRef: Option<string>)

  datatype Binding = Binding(
    bindingRef: string, kind: BindingKind, status: BindingStatus, required: bool, readinessRef: Option<string>)

  /** No lifecycle, a snapshot, or the `acceptsWork` flag of a description. */
  datatype LifecycleInput = NoLifecycle | Snapshot(snapshot: Lifecycle.Snapshot) | Described(acceptsWork: bool)

  /** `toolsNotReady` is None and `capabilities` empty when no registry snapshot is given. */
  datatype Input = Input(
    profile: Option<Profile>, lifecycle: LifecycleInput,
    toolsNotReady: Option<bool>, capabilityBlocking: seq<bool>, bindings: seq<BindingInput>,
    realNetworkGateOpen: bool, runtimeValueGateOpen: bool)

  /** The two ref sanitisers and the collation of binding refs. */
  datatype Texts = Texts(bindingRef: string -> string, reportRef: string -> string, compare: (string, string) -> int)

  datatype Descriptor = Descriptor(
    profile: Profile, profileReasons: seq<BlockedReason>, fakeE2eCompatible: bool, bindings: seq<Binding>,
    aggregate: R.Aggregate, status: ReadinessStatus, blockedReasons: seq<BlockedReason>, nextSteps: seq<NextStep>)

  // ----- profiles -----

  function ProfileReasons(profile: Profile, realNetworkGateOpen: bool, runtimeValueGateOpen: bool): seq<BlockedReason> {
    match profile
    case Fake => []
    case DryRun => []
    case SecretGatedSmoke =>
      (if runtimeValueGateOpen then [] else [RuntimeValueGateClosed]) +
      (if realNetworkGateOpen then [] else [RealNetworkGateClosed])
    case RealEdge => [RealEdgeNotImplemented]
    case ProductionCandidate => [ProductionRuntimeNotImplemented]
  }

  function RequiredBindingKinds(profile: Profile): set<BindingKind> {
    match profile
    case Fake => {CoreFacade, AdapterFoundation, Transport, StoreBinding, Config}
    case DryRun => {CoreFacade, AdapterFoundation, Transport, StoreBinding, Config}
    case SecretGatedSmoke => {CoreFacade, AdapterFoundation, Transport, Config, CredentialResolver}
    case _ => {CoreFacade, AdapterFoundation, Transport, StoreBinding, Config, CredentialResolver}
  }

  function ReadinessProfile(profile: Profile): R.Profile {
    match profile
    case Fake => R.Test
    case DryRun => R.DryRun
    case SecretGatedSmoke => R.RealSmoke
    case RealEdge => R.RealSmoke
    case ProductionCandidate => R.Production
  }

  // ----- bindings -----

  function NormalizeBinding(t: Texts, input: BindingInput, required: set<BindingKind>): Binding {
    var kind := Or(input.kind, OptionalOverlay);
    Binding(t.bindingRef(input.bindingRef), kind, Or(input.status, NotReady), input.required || kind in required,
            if input.readinessRef.Some? then Some(t.bindingRef(input.readinessRef.value)) else None)
  }

  function NormalizeEach(t: Texts, inputs: seq<BindingInput>, required: set<BindingKind>): seq<Binding> {
    seq(|inputs|, i requires 0 <= i < |inputs| => NormalizeBinding(t, inputs[i], required))
  }

  function NormalizeBindings(t: Texts, inputs: seq<BindingInput>, required: set<BindingKind>): seq<Binding> {
    StableSort.Sort((a: Binding, b: Binding) => t.compare(a.bindingRef, b.bindingRef), NormalizeEach(t, inputs, required))
  }

  function ComponentKind(kind: BindingKind): Option<R.Kind> {
    match kind
    case CoreFacade => Some(R.CoreFacade)
    case AdapterFoundation => Some(R.AdapterFoundation)
    case Transport => Some(R.Transport)
    case StoreBinding => Some(R.Stores)
    case Config => Some(R.Config)
    case CredentialResolver => Some(R.Config)
    case FakeEvidence => Some(R.AdapterFoundation)
    case NoLeakEvidence => Some(R.AdapterFoundation)
    case ApprovalToken => None
    case Observability => None
    case OptionalOverlay => None
  }

  function ComponentStatus(status: BindingStatus): R.Status {
    match status
    case Ready => R.Ready
    case Disabled => R.Disabled
    case Degraded => R.Degraded
    case FailedSafe => R.Failed
    case Blocked => R.NotReady
    case NotReady => R.NotReady
  }

  // ----- components -----

  function AcceptsWork(lifecycle: LifecycleInput): bool {
    match lifecycle
    case NoLifecycle => Lifecycle.Describe(Lifecycle.INITIAL).acceptsWork
    case Snapshot(s) => Lifecycle.Describe(s).acceptsWork
    case Described(accepts) => accepts
  }

  function ToolsNotReady(input: Input): bool {
    Or(input.toolsNotReady, true)
  }

  function ReadyIf(ready: bool): Option<R.Status> {
    Some(if ready then R.Ready else R.NotReady)
  }

  function FixedComponents(input: Input): seq<R.Component> {
    [R.Component("component:plugin-lifecycle", Some(R.PluginLifecycle), ReadyIf(AcceptsWork(input.lifecycle)), true),
     R.Component("component:tools", Some(R.Tools), ReadyIf(!ToolsNotReady(input)), false),
     R.Component("component:capability", Some(R.Capability), ReadyIf(true !in input.capabilityBlocking), false)]
  }

  function BindingComponent(b: Binding): R.Component
    requires ComponentKind(b.kind).Some?
  {
    var kind := ComponentKind(b.kind).value;
    R.Component(if b.readinessRef.Some? then b.readinessRef.value else "component:" + R.KindText(kind),
                Some(kind), Some(ComponentStatus(b.status)), b.required)
  }

  /** One component for each binding whose kind has one, in order. */
  function BindingComponents(bindings: seq<Binding>): seq<R.Component> {
    if bindings == [] then []
    else
      var last := bindings[|bindings| - 1];
      BindingComponents(bindings[..|bindings| - 1]) +
      if ComponentKind(last.kind).Some? then [BindingComponent(last)] else []
  }

  method CompositionReadinessComponents(input: Input, bindings: seq<Binding>) returns (components: seq<R.Component>)
    ensures components == FixedComponents(input) + BindingComponents(bindings)
  {
    hide FixedComponents, BindingComponent, ComponentKind;
    components := FixedComponents(input);
    for i := 0 to |bindings|
      invariant components == FixedComponents(input) + BindingComponents(bindings[..i])
    {
      assert bindings[..i + 1][..i] == bindings[..i];
      if ComponentKind(bindings[i].kind).None? { continue; }
      components := components + [BindingComponent(bindings[i])];
    }
    assert bindings[..|bindings|] == bindings;
  }

  // ----- the verdict -----

  function ReadinessReasons(profileReasons: seq<BlockedReason>, a: R.Aggregate): seq<BlockedReason> {
    profileReasons + (if a.missingRequired != [] then [MissingRequiredBinding] else []) +
    (if a.status == R.SomeFailed then [ReadinessAggregateFailed]
     else if a.status == R.SomeNotReady then [ReadinessAggregateNotReady] else [])
  }

  /** First occurrences only. */
  function Unique<T(==)>(values: seq<T>): seq<T> {
    if values == [] then [] else R.Added(Unique(values[..|values| - 1]), values[|values| - 1])
  }

  function StatusOf(profile: Profile, a: R.Aggregate, reasons: seq<BlockedReason>): ReadinessStatus {
    if a.status == R.SomeFailed then StatusFailedSafe
    else if RealEdgeNotImplemented in reasons || ProductionRuntimeNotImplemented in reasons then StatusBlocked
    else if reasons != [] then if profile == SecretGatedSmoke then ProfileGated else StatusNotReady
    else if a.status == R.SomeDegraded then StatusDegraded
    else if a.status != R.AllReady then StatusNotReady
    else if profile == DryRun then DryRunReady
    else FakeReady
  }

  function NextStepsFor(reasons: seq<BlockedReason>, missingRequired: seq<string>): seq<NextStep> {
    var steps :=
      (if missingRequired != [] || MissingRequiredBinding in reasons then [ProvideRequiredBindings] else []) +
      (if RuntimeValueGateClosed in reasons || RealNetworkGateClosed in reasons then [KeepSecretGatedEdgeBlocked] else []) +
      (if RealEdgeNotImplemented in reasons then [DeferRealEdge] else []) +
      (if ProductionRuntimeNotImplemented in reasons then [DeferProduction] else []);
    if steps == [] then [ContinueFakeEvidence] else steps
  }

  function AggregateInput(profile: Profile, components: seq<R.Component>): R.Input {
    R.Input(Some(ReadinessProfile(profile)), components, [], false, false, false)
  }

  function Composed(t: Texts, input: Input): Descriptor {
    var profile := Or(input.profile, Fake);
    var profileReasons := ProfileReasons(profile, input.realNetworkGateOpen, input.runtimeValueGateOpen);
    var bindings := NormalizeBindings(t, input.bindings, RequiredBindingKinds(profile));
    var aggregate :=
      R.Aggregated(t.reportRef, AggregateInput(profile, FixedComponents(input) + BindingComponents(bindings)));
    var readinessReasons := Unique(ReadinessReasons(profileReasons, aggregate));
    var status := StatusOf(profile, aggregate, readinessReasons);
    var reasons := Unique(profileReasons + readinessReasons);
    Descriptor(profile, profileReasons, profile == Fake && status == FakeReady && reasons == [], bindings,
               aggregate, status, reasons, NextStepsFor(reasons, aggregate.missingRequired))
  }

  method ComposeOpenClawRuntime(t: Texts, input: Input) returns (d: Descriptor)
    ensures d == Composed(t, input)
  {
    hide FixedComponents, BindingComponents, NormalizeBindings, R.Aggregated, ReadinessReasons, Unique, StatusOf, NextStepsFor,
         ProfileReasons, RequiredBindingKinds, ReadinessProfile;
    var profile := Or(input.profile, Fake);
    var profileReasons := ProfileReasons(profile, input.realNetworkGateOpen, input.runtimeValueGateOpen);
    var bindings := NormalizeBindings(t, input.bindings, RequiredBindingKinds(profile));
    var components := CompositionReadinessComponents(input, bindings);
    var aggregate := R.AggregatePluginReadiness(t.reportRef, AggregateInput(profile, components));
    var readinessReasons := Unique(ReadinessReasons(profileReasons, aggregate));
    var status := StatusOf(profile, aggregate, readinessReasons);
    var reasons := Unique(profileReasons + readinessReasons);
    d := Descriptor(profile, profileReasons, profile == Fake && status == FakeReady && reasons == [], bindings,
                    aggregate, status, reasons, NextStepsFor(reasons, aggregate.missingRequired));
  }
}
