/** What the composed verdict says about the bindings and snapshots that went in. */
module CompositionVerdict {
  import opened Common
  import opened Composition
  import R = Readiness
  import StableSort
  import Lifecycle

  function MappedKind(b: BindingInput): Option<R.Kind> {
    ComponentKind(Or(b.kind, OptionalOverlay))
  }

  /** The binding kinds that supply each readiness kind; three binding kinds supply none. */
  ghost predicate Supplies(b: BindingInput, kind: R.Kind) {
    && b.kind.Some?
    && match b.kind.value
       case CoreFacade => kind == R.CoreFacade
       case AdapterFoundation | FakeEvidence | NoLeakEvidence => kind == R.AdapterFoundation
       case Transport => kind == R.Transport
       case StoreBinding => kind == R.Stores
       case Config | CredentialResolver => kind == R.Config
       case ApprovalToken | Observability | OptionalOverlay => false
  }

  lemma MappedExactly(b: BindingInput, kind: R.Kind)
    ensures MappedKind(b) == Some(kind) <==> Supplies(b, kind)
  {}

  /** A plugin accepts work when it is described so, or its snapshot is ready or degraded. */
  lemma AcceptsWorkExactly(input: Input)
    ensures AcceptsWork(input.lifecycle) <==>
            || input.lifecycle == Described(true)
            || (input.lifecycle.Snapshot? && input.lifecycle.snapshot.state in {Lifecycle.Ready, Lifecycle.Degraded})
  {}

  function StatusIn(b: BindingInput): BindingStatus {
    Or(b.status, NotReady)
  }

  // ----- components, by membership -----

  lemma {:induction false} BindingComponentsHold(bindings: seq<Binding>, c: R.Component)
    ensures c in BindingComponents(bindings) <==>
            exists b :: b in bindings && ComponentKind(b.kind).Some? && c == BindingComponent(b)
  {
    hide ComponentKind, ComponentStatus;
    if bindings != [] {
      var last, before := bindings[|bindings| - 1], bindings[..|bindings| - 1];
      BindingComponentsHold(before, c);
      assert forall b :: b in bindings <==> b in before || b == last;
      hide BindingComponent;
      assert c in BindingComponents(bindings) <==>
             c in BindingComponents(before) || (ComponentKind(last.kind).Some? && c == BindingComponent(last));
    }
  }

  lemma SortedHold(t: Texts, inputs: seq<BindingInput>, required: set<BindingKind>, b: Binding)
    ensures b in NormalizeBindings(t, inputs, required) <==>
            exists i :: i in inputs && b == NormalizeBinding(t, i, required)
  {
    var each := NormalizeEach(t, inputs, required);
    var compare := (a: Binding, b: Binding) => t.compare(a.bindingRef, b.bindingRef);
    StableSort.SortKeeps(compare, each);
    var sorted := NormalizeBindings(t, inputs, required);
    assert sorted == StableSort.Sort(compare, each);
    assert multiset(sorted) == multiset(each);
    assert b in sorted <==> b in multiset(sorted);
    assert b in each <==> b in multiset(each);
    hide NormalizeBindings, StableSort.Sort, NormalizeBinding;
    if b in each {
      var k :| 0 <= k < |each| && each[k] == b;
      assert inputs[k] in inputs;
    }
    if i :| i in inputs && b == NormalizeBinding(t, i, required) {
      var k :| 0 <= k < |inputs| && inputs[k] == i;
      assert each[k] == b;
    }
  }

  /** The components of a composition, as a set: the three fixed ones and one for each mapped binding. */
  function Components(t: Texts, input: Input): seq<R.Component> {
    FixedComponents(input) +
    BindingComponents(NormalizeBindings(t, input.bindings, RequiredBindingKinds(Or(input.profile, Fake))))
  }

  function ComponentOf(t: Texts, profile: Profile, b: BindingInput): R.Component
    requires MappedKind(b).Some?
  {
    BindingComponent(NormalizeBinding(t, b, RequiredBindingKinds(profile)))
  }

  lemma ComponentsHold(t: Texts, input: Input, c: R.Component)
    ensures c in Components(t, input) <==>
            c in FixedComponents(input) ||
            exists b :: b in input.bindings && MappedKind(b).Some? && c == ComponentOf(t, Or(input.profile, Fake), b)
  {
    var required := RequiredBindingKinds(Or(input.profile, Fake));
    var bindings := NormalizeBindings(t, input.bindings, required);
    BindingComponentsHold(bindings, c);
    forall b
      ensures b in bindings <==> exists i :: i in input.bindings && b == NormalizeBinding(t, i, required)
    {
      SortedHold(t, input.bindings, required, b);
    }
    hide NormalizeBindings, BindingComponents, BindingComponent, RequiredBindingKinds, FixedComponents, ComponentKind;
    if c in BindingComponents(bindings) {
      var b :| b in bindings && ComponentKind(b.kind).Some? && c == BindingComponent(b);
      var i :| i in input.bindings && b == NormalizeBinding(t, i, required);
      assert MappedKind(i).Some? && c == ComponentOf(t, Or(input.profile, Fake), i);
    }
    if i :| i in input.bindings && MappedKind(i).Some? && c == ComponentOf(t, Or(input.profile, Fake), i) {
      assert NormalizeBinding(t, i, required) in bindings;
    }
  }

  // ----- conditions on the input -----

  function ProfileOf(input: Input): Profile {
    Or(input.profile, Fake)
  }

  /** The kinds that some binding must supply. */
  predicate NeedsBinding(profile: Profile, kind: R.Kind) {
    || kind in {R.CoreFacade, R.AdapterFoundation, R.Transport, R.Config}
    || (kind == R.Stores && profile != SecretGatedSmoke && profile != RealEdge)
  }

  /** Every mapped binding counts as required, except an unmarked store under the secret-gated profile. */
  predicate BindingIsRequired(profile: Profile, b: BindingInput) {
    b.required || profile != SecretGatedSmoke || MappedKind(b) != Some(R.Stores)
  }

  /** Tools and capabilities are required of a production candidate only. */
  predicate RegistriesAreRequired(profile: Profile) {
    profile == ProductionCandidate
  }

  predicate RegistriesNotReady(input: Input) {
    input.toolsNotReady != Some(false) || true in input.capabilityBlocking
  }

  ghost predicate HasBindingFor(input: Input, kind: R.Kind) {
    exists b :: b in input.bindings && MappedKind(b) == Some(kind)
  }

  ghost predicate LacksBinding(input: Input) {
    exists kind :: NeedsBinding(ProfileOf(input), kind) && !HasBindingFor(input, kind)
  }

  /** Some mapped binding, required or not, has one of these statuses. */
  ghost predicate SomeBinding(input: Input, required: bool, statuses: set<BindingStatus>) {
    exists b :: b in input.bindings && MappedKind(b).Some? && BindingIsRequired(ProfileOf(input), b) == required &&
                StatusIn(b) in statuses
  }

  ghost predicate Failing(input: Input) {
    SomeBinding(input, true, {FailedSafe})
  }

  ghost predicate Unavailable(input: Input) {
    || !AcceptsWork(input.lifecycle)
    || (RegistriesAreRequired(ProfileOf(input)) && RegistriesNotReady(input))
    || LacksBinding(input)
    || SomeBinding(input, true, {NotReady, Blocked, Disabled})
  }

  ghost predicate Degrading(input: Input) {
    || (!RegistriesAreRequired(ProfileOf(input)) && RegistriesNotReady(input))
    || SomeBinding(input, false, {Degraded, NotReady, Blocked, FailedSafe})
  }

  predicate GatesOpen(input: Input) {
    match ProfileOf(input)
    case Fake | DryRun => true
    case SecretGatedSmoke => input.runtimeValueGateOpen && input.realNetworkGateOpen
    case RealEdge | ProductionCandidate => false
  }

  // ----- which components count as required -----

  function AggregateInputOf(t: Texts, input: Input): R.Input {
    AggregateInput(ProfileOf(input), Components(t, input))
  }

  lemma RequiredKindsAre(profile: Profile, components: seq<R.Component>, kind: R.Kind)
    ensures R.Required(AggregateInput(profile, components), kind) <==>
            || kind == R.PluginLifecycle || NeedsBinding(profile, kind)
            || (RegistriesAreRequired(profile) && (kind == R.Tools || kind == R.Capability))
  {
    match kind
    case PluginLifecycle | CoreFacade | AdapterFoundation | Transport | Capability | Config | Stores | Tools =>
  }

  lemma BindingKindsAreRequired(profile: Profile, b: BindingInput)
    requires MappedKind(b).Some?
    ensures BindingIsRequired(profile, b) <==>
            || b.required || Or(b.kind, OptionalOverlay) in RequiredBindingKinds(profile)
            || NeedsBinding(profile, MappedKind(b).value)
    ensures MappedKind(b).value !in {R.PluginLifecycle, R.Tools, R.Capability}
  {
    match profile
    case Fake | DryRun | SecretGatedSmoke | RealEdge | ProductionCandidate =>
  }

  lemma ComponentFacts(t: Texts, profile: Profile, b: BindingInput)
    requires MappedKind(b).Some?
    ensures var c := ComponentOf(t, profile, b);
            && c.kind == MappedKind(b) && c.status == Some(ComponentStatus(StatusIn(b)))
            && c.required == (b.required || Or(b.kind, OptionalOverlay) in RequiredBindingKinds(profile))
  {
    hide RequiredBindingKinds;
  }

  lemma BindingCounts(t: Texts, profile: Profile, components: seq<R.Component>, b: BindingInput)
    requires MappedKind(b).Some?
    ensures R.Counts(AggregateInput(profile, components), ComponentOf(t, profile, b)) <==> BindingIsRequired(profile, b)
  {
    hide BindingIsRequired, RequiredBindingKinds, NeedsBinding, R.Required, MappedKind, ComponentOf, RegistriesAreRequired;
    BindingKindsAreRequired(profile, b);
    ComponentFacts(t, profile, b);
    RequiredKindsAre(profile, components, MappedKind(b).value);
  }

  lemma FixedCount(input: Input, components: seq<R.Component>)
    ensures var a, fixed := AggregateInput(ProfileOf(input), components), FixedComponents(input);
            && R.Counts(a, fixed[0]) && R.Counts(a, fixed[1]) == RegistriesAreRequired(ProfileOf(input))
            && R.Counts(a, fixed[2]) == RegistriesAreRequired(ProfileOf(input))
  {
    var profile := ProfileOf(input);
    hide R.Required, AcceptsWork, ToolsNotReady, RegistriesAreRequired, ProfileOf;
    RequiredKindsAre(profile, components, R.Tools);
    RequiredKindsAre(profile, components, R.Capability);
    RegistriesNeedNoBinding(profile);
    hide NeedsBinding;
  }

  lemma RegistriesNeedNoBinding(profile: Profile)
    ensures !NeedsBinding(profile, R.Tools) && !NeedsBinding(profile, R.Capability) &&
            !NeedsBinding(profile, R.PluginLifecycle)
  {}

  lemma SomeComponentMember(a: R.Input, required: bool, statuses: set<R.Status>)
    ensures R.SomeComponent(a, required, statuses) <==>
            exists c :: c in a.components && R.Counts(a, c) == required && Or(c.status, R.Unknown) in statuses
  {
    hide R.Counts;
    if R.SomeComponent(a, required, statuses) {
      var i :| 0 <= i < |a.components| && R.Counts(a, a.components[i]) == required &&
               Or(a.components[i].status, R.Unknown) in statuses;
      assert a.components[i] in a.components;
    }
  }

  // ----- some component, in terms of the input -----

  predicate FixedStatus(input: Input, required: bool, statuses: set<R.Status>) {
    || (required && ReadyIf(AcceptsWork(input.lifecycle)).value in statuses)
    || (required == RegistriesAreRequired(ProfileOf(input)) &&
        (ReadyIf(!ToolsNotReady(input)).value in statuses || ReadyIf(true !in input.capabilityBlocking).value in statuses))
  }

  ghost predicate BindingStatusIn(input: Input, required: bool, statuses: set<R.Status>) {
    exists b :: b in input.bindings && MappedKind(b).Some? && BindingIsRequired(ProfileOf(input), b) == required &&
                ComponentStatus(StatusIn(b)) in statuses
  }

  ghost predicate Matches(a: R.Input, c: R.Component, required: bool, statuses: set<R.Status>) {
    R.Counts(a, c) == required && Or(c.status, R.Unknown) in statuses
  }

  lemma FixedMatch(t: Texts, input: Input, required: bool, statuses: set<R.Status>)
    ensures FixedStatus(input, required, statuses) <==>
            exists c :: c in FixedComponents(input) && Matches(AggregateInputOf(t, input), c, required, statuses)
  {
    var a, fixed := AggregateInputOf(t, input), FixedComponents(input);
    FixedCount(input, Components(t, input));
    hide R.Counts, AcceptsWork, ToolsNotReady, RegistriesAreRequired, ProfileOf, Components;
    assert fixed[0] in fixed && fixed[1] in fixed && fixed[2] in fixed;
    assert FixedStatus(input, required, statuses) <==>
           Matches(a, fixed[0], required, statuses) || Matches(a, fixed[1], required, statuses) ||
           Matches(a, fixed[2], required, statuses);
    assert forall c | c in fixed :: c == fixed[0] || c == fixed[1] || c == fixed[2];
    hide Matches, FixedStatus, FixedComponents;
  }

  lemma BindingMatches(t: Texts, input: Input, b: BindingInput, required: bool, statuses: set<R.Status>)
    requires MappedKind(b).Some?
    ensures Matches(AggregateInputOf(t, input), ComponentOf(t, ProfileOf(input), b), required, statuses) <==>
            BindingIsRequired(ProfileOf(input), b) == required && ComponentStatus(StatusIn(b)) in statuses
  {
    hide R.Counts, ComponentOf, MappedKind, Components, BindingIsRequired, ComponentStatus, StatusIn, ProfileOf;
    ComponentFacts(t, ProfileOf(input), b);
    BindingCounts(t, ProfileOf(input), Components(t, input), b);
  }

  lemma SomeComponentOnInput(t: Texts, input: Input, required: bool, statuses: set<R.Status>)
    ensures R.SomeComponent(AggregateInputOf(t, input), required, statuses) <==>
            FixedStatus(input, required, statuses) || BindingStatusIn(input, required, statuses)
  {
    hide FixedStatus, FixedComponents, ComponentOf, MappedKind, Components, BindingIsRequired, ComponentStatus, StatusIn,
         R.Counts, R.SomeComponent;
    var a := AggregateInputOf(t, input);
    SomeComponentMember(a, required, statuses);
    FixedMatch(t, input, required, statuses);
    forall c
      ensures c in a.components <==>
              c in FixedComponents(input) ||
              exists b :: b in input.bindings && MappedKind(b).Some? && c == ComponentOf(t, ProfileOf(input), b)
    {
      ComponentsHold(t, input, c);
    }
    forall b | b in input.bindings && MappedKind(b).Some?
      ensures ComponentOf(t, ProfileOf(input), b) in a.components
      ensures Matches(a, ComponentOf(t, ProfileOf(input), b), required, statuses) <==>
              BindingIsRequired(ProfileOf(input), b) == required && ComponentStatus(StatusIn(b)) in statuses
    {
      BindingMatches(t, input, b, required, statuses);
    }
    assert R.SomeComponent(a, required, statuses) <==> exists c :: c in a.components && Matches(a, c, required, statuses);
    hide Matches, ProfileOf;
    if BindingStatusIn(input, required, statuses) {
      var b :| b in input.bindings && MappedKind(b).Some? && BindingIsRequired(ProfileOf(input), b) == required &&
               ComponentStatus(StatusIn(b)) in statuses;
      assert Matches(a, ComponentOf(t, ProfileOf(input), b), required, statuses);
    }
  }

  lemma BindingStatuses(input: Input, required: bool, statuses: set<R.Status>, from: set<BindingStatus>)
    requires forall s :: ComponentStatus(s) in statuses <==> s in from
    ensures BindingStatusIn(input, required, statuses) <==> SomeBinding(input, required, from)
  {
    hide MappedKind, StatusIn, BindingIsRequired, ProfileOf, ComponentStatus;
  }

  // ----- required kinds without a component -----

  lemma SuppliedMember(a: R.Input, kind: R.Kind)
    ensures R.Supplied(a, kind) <==> exists c :: c in a.components && Or(c.kind, R.Config) == kind
  {
    if R.Supplied(a, kind) {
      var i :| 0 <= i < |a.components| && Or(a.components[i].kind, R.Config) == kind;
      assert a.components[i] in a.components;
    }
  }

  lemma FixedKinds(input: Input, kind: R.Kind)
    ensures (exists c :: c in FixedComponents(input) && Or(c.kind, R.Config) == kind) <==>
            kind in {R.PluginLifecycle, R.Tools, R.Capability}
  {
    hide AcceptsWork, ToolsNotReady;
    var fixed := FixedComponents(input);
    assert fixed[0] in fixed && fixed[1] in fixed && fixed[2] in fixed;
  }

  lemma SuppliedOnInput(t: Texts, input: Input, kind: R.Kind)
    ensures R.Supplied(AggregateInputOf(t, input), kind) <==>
            kind in {R.PluginLifecycle, R.Tools, R.Capability} || HasBindingFor(input, kind)
  {
    hide R.Supplied, Components, ComponentOf, MappedKind, FixedComponents;
    var a := AggregateInputOf(t, input);
    SuppliedMember(a, kind);
    FixedKinds(input, kind);
    forall c
      ensures c in a.components <==>
              c in FixedComponents(input) ||
              exists b :: b in input.bindings && MappedKind(b).Some? && c == ComponentOf(t, ProfileOf(input), b)
    {
      ComponentsHold(t, input, c);
    }
    forall b | b in input.bindings && MappedKind(b).Some?
      ensures ComponentOf(t, ProfileOf(input), b) in a.components
      ensures ComponentOf(t, ProfileOf(input), b).kind == MappedKind(b)
    {
      ComponentFacts(t, ProfileOf(input), b);
    }
  }

  lemma LacksOnInput(t: Texts, input: Input)
    ensures R.LacksRequired(AggregateInputOf(t, input)) <==> LacksBinding(input)
  {
    hide R.Required, R.Supplied, HasBindingFor, NeedsBinding, Components, RegistriesAreRequired;
    RegistriesNeedNoBinding(ProfileOf(input));
    forall kind
      ensures R.Required(AggregateInputOf(t, input), kind) && !R.Supplied(AggregateInputOf(t, input), kind) <==>
              NeedsBinding(ProfileOf(input), kind) && !HasBindingFor(input, kind)
    {
      RequiredKindsAre(ProfileOf(input), Components(t, input), kind);
      SuppliedOnInput(t, input, kind);
    }
  }

  // ----- the aggregate, on the input -----

  lemma ComponentStatuses()
    ensures forall s :: ComponentStatus(s) in {R.Failed} <==> s in {FailedSafe}
    ensures forall s :: ComponentStatus(s) in {R.Missing, R.NotReady, R.Disabled, R.Unknown} <==>
                        s in {NotReady, Blocked, Disabled}
    ensures forall s :: ComponentStatus(s) in {R.Degraded, R.Missing, R.NotReady, R.Failed, R.Unknown} <==>
                        s in {Degraded, NotReady, Blocked, FailedSafe}
  {}

  lemma FixedStatuses(input: Input)
    ensures !FixedStatus(input, true, {R.Failed})
    ensures FixedStatus(input, true, {R.Missing, R.NotReady, R.Disabled, R.Unknown}) <==>
            !AcceptsWork(input.lifecycle) || (RegistriesAreRequired(ProfileOf(input)) && RegistriesNotReady(input))
    ensures FixedStatus(input, false, {R.Degraded, R.Missing, R.NotReady, R.Failed, R.Unknown}) <==>
            !RegistriesAreRequired(ProfileOf(input)) && RegistriesNotReady(input)
  {
    assert ToolsNotReady(input) <==> input.toolsNotReady != Some(false);
    hide AcceptsWork, ToolsNotReady, RegistriesAreRequired, ProfileOf;
  }

  lemma FailingOnInput(t: Texts, input: Input)
    ensures R.SomeComponent(AggregateInputOf(t, input), true, {R.Failed}) <==> Failing(input)
  {
    hide R.SomeComponent, SomeBinding, BindingStatusIn, FixedStatus, Components, ComponentStatus;
    SomeComponentOnInput(t, input, true, {R.Failed});
    ComponentStatuses();
    BindingStatuses(input, true, {R.Failed}, {FailedSafe});
    FixedStatuses(input);
  }

  lemma UnavailableOnInput(t: Texts, input: Input)
    ensures R.LacksRequired(AggregateInputOf(t, input)) ||
            R.SomeComponent(AggregateInputOf(t, input), true, {R.Missing, R.NotReady, R.Disabled, R.Unknown}) <==>
            Unavailable(input)
  {
    hide R.SomeComponent, R.LacksRequired, SomeBinding, BindingStatusIn, FixedStatus, LacksBinding, Components,
         ComponentStatus, AcceptsWork, RegistriesNotReady, RegistriesAreRequired;
    SomeComponentOnInput(t, input, true, {R.Missing, R.NotReady, R.Disabled, R.Unknown});
    ComponentStatuses();
    BindingStatuses(input, true, {R.Missing, R.NotReady, R.Disabled, R.Unknown}, {NotReady, Blocked, Disabled});
    FixedStatuses(input);
    LacksOnInput(t, input);
  }

  lemma DegradingOnInput(t: Texts, input: Input)
    ensures R.SomeComponent(AggregateInputOf(t, input), false, {R.Degraded, R.Missing, R.NotReady, R.Failed, R.Unknown}) <==>
            Degrading(input)
  {
    hide R.SomeComponent, SomeBinding, BindingStatusIn, FixedStatus, Components, ComponentStatus, RegistriesNotReady,
         RegistriesAreRequired;
    SomeComponentOnInput(t, input, false, {R.Degraded, R.Missing, R.NotReady, R.Failed, R.Unknown});
    ComponentStatuses();
    BindingStatuses(input, false, {R.Degraded, R.Missing, R.NotReady, R.Failed, R.Unknown},
                    {Degraded, NotReady, Blocked, FailedSafe});
    FixedStatuses(input);
  }

  lemma AggregateIs(t: Texts, input: Input)
    ensures Composed(t, input).aggregate == R.Aggregated(t.reportRef, AggregateInputOf(t, input))
    ensures !AggregateInputOf(t, input).disabled
  {
    hide R.Aggregated, NormalizeBindings, BindingComponents, FixedComponents, Unique, StatusOf, NextStepsFor;
  }

  /** The aggregate status, and whether anything is listed as missing, read off the input, for every profile. */
  lemma AggregateOnInput(t: Texts, input: Input)
    ensures var a := Composed(t, input).aggregate;
            && a.status == (if Failing(input) then R.SomeFailed else if Unavailable(input) then R.SomeNotReady
                            else if Degrading(input) then R.SomeDegraded else R.AllReady)
            && (a.missingRequired == [] <==> !Unavailable(input))
  {
    hide *;
    AggregateIs(t, input);
    R.AggregateExactly(t.reportRef, AggregateInputOf(t, input));
    FailingOnInput(t, input);
    UnavailableOnInput(t, input);
    DegradingOnInput(t, input);
  }

  // ----- the verdict, on the input -----

  lemma {:induction false} UniqueHolds<T>(values: seq<T>)
    ensures forall x :: x in Unique(values) <==> x in values
    ensures forall i, j | 0 <= i < j < |Unique(values)| :: Unique(values)[i] != Unique(values)[j]
    ensures Unique(values) == [] <==> values == []
  {
    if values != [] {
      UniqueHolds(values[..|values| - 1]);
      assert values == values[..|values| - 1] + [values[|values| - 1]];
    }
  }

  lemma ReasonsOfProfile(profile: Profile, realNetworkGateOpen: bool, runtimeValueGateOpen: bool)
    ensures var rs := ProfileReasons(profile, realNetworkGateOpen, runtimeValueGateOpen);
            && (RuntimeValueGateClosed in rs <==> profile == SecretGatedSmoke && !runtimeValueGateOpen)
            && (RealNetworkGateClosed in rs <==> profile == SecretGatedSmoke && !realNetworkGateOpen)
            && (RealEdgeNotImplemented in rs <==> profile == RealEdge)
            && (ProductionRuntimeNotImplemented in rs <==> profile == ProductionCandidate)
            && MissingRequiredBinding !in rs && ReadinessAggregateFailed !in rs && ReadinessAggregateNotReady !in rs
  {}

  lemma ReasonsOfAggregate(profileReasons: seq<BlockedReason>, a: R.Aggregate)
    ensures forall r :: r in ReadinessReasons(profileReasons, a) <==>
              || r in profileReasons
              || (r == MissingRequiredBinding && a.missingRequired != [])
              || (r == ReadinessAggregateFailed && a.status == R.SomeFailed)
              || (r == ReadinessAggregateNotReady && a.status == R.SomeNotReady)
  {}

  lemma ReasonsExactly(t: Texts, input: Input)
    ensures var d := Composed(t, input);
            && (forall rs | rs in {d.blockedReasons, Unique(ReadinessReasons(d.profileReasons, d.aggregate))} ::
                  && (RuntimeValueGateClosed in rs <==> d.profile == SecretGatedSmoke && !input.runtimeValueGateOpen)
                  && (RealNetworkGateClosed in rs <==> d.profile == SecretGatedSmoke && !input.realNetworkGateOpen)
                  && (RealEdgeNotImplemented in rs <==> d.profile == RealEdge)
                  && (ProductionRuntimeNotImplemented in rs <==> d.profile == ProductionCandidate)
                  && (MissingRequiredBinding in rs <==> d.aggregate.missingRequired != [])
                  && (ReadinessAggregateFailed in rs <==> d.aggregate.status == R.SomeFailed)
                  && (ReadinessAggregateNotReady in rs <==> d.aggregate.status == R.SomeNotReady))
            && (forall i, j | 0 <= i < j < |d.blockedReasons| :: d.blockedReasons[i] != d.blockedReasons[j])
  {
    hide R.Aggregated, FixedComponents, BindingComponents, NormalizeBindings, Unique, StatusOf, RequiredBindingKinds,
         ReadinessProfile, NextStepsFor, ReadinessReasons, ProfileReasons;
    var d := Composed(t, input);
    ReasonsOfProfile(d.profile, input.realNetworkGateOpen, input.runtimeValueGateOpen);
    ReasonsOfAggregate(d.profileReasons, d.aggregate);
    UniqueHolds(ReadinessReasons(d.profileReasons, d.aggregate));
    UniqueHolds(d.profileReasons + Unique(ReadinessReasons(d.profileReasons, d.aggregate)));
  }

  lemma StepsExactly(reasons: seq<BlockedReason>, missing: seq<string>)
    ensures var steps := NextStepsFor(reasons, missing);
            && (ProvideRequiredBindings in steps <==> missing != [] || MissingRequiredBinding in reasons)
            && (KeepSecretGatedEdgeBlocked in steps <==>
                  RuntimeValueGateClosed in reasons || RealNetworkGateClosed in reasons)
            && (DeferRealEdge in steps <==> RealEdgeNotImplemented in reasons)
            && (DeferProduction in steps <==> ProductionRuntimeNotImplemented in reasons)
            && (ContinueFakeEvidence in steps <==>
                  ProvideRequiredBindings !in steps && KeepSecretGatedEdgeBlocked !in steps && DeferRealEdge !in steps &&
                  DeferProduction !in steps)
  {
    var provide := if missing != [] || MissingRequiredBinding in reasons then [ProvideRequiredBindings] else [];
    var keep := if RuntimeValueGateClosed in reasons || RealNetworkGateClosed in reasons
                then [KeepSecretGatedEdgeBlocked] else [];
    var edge := if RealEdgeNotImplemented in reasons then [DeferRealEdge] else [];
    var production := if ProductionRuntimeNotImplemented in reasons then [DeferProduction] else [];
    StepsHold(provide, keep, edge, production, NextStepsFor(reasons, missing));
  }

  lemma StepsHold(provide: seq<NextStep>, keep: seq<NextStep>, edge: seq<NextStep>, production: seq<NextStep>,
                  steps: seq<NextStep>)
    requires steps == if provide + keep + edge + production == [] then [ContinueFakeEvidence]
                      else provide + keep + edge + production
    ensures provide + keep + edge + production == [] <==> provide == keep == edge == production == []
    ensures forall s :: s in steps <==>
              || s in provide || s in keep || s in edge || s in production
              || (s == ContinueFakeEvidence && provide == keep == edge == production == [])
  {}

  /** Each blocked reason is listed once, and reasons and next steps exactly under their own conditions on the input. */
  lemma BlockedReasonsExactly(t: Texts, input: Input)
    ensures var d := Composed(t, input);
            var rs := d.blockedReasons;
            && (forall i, j | 0 <= i < j < |rs| :: rs[i] != rs[j])
            && (RuntimeValueGateClosed in rs <==> ProfileOf(input) == SecretGatedSmoke && !input.runtimeValueGateOpen)
            && (RealNetworkGateClosed in rs <==> ProfileOf(input) == SecretGatedSmoke && !input.realNetworkGateOpen)
            && (RealEdgeNotImplemented in rs <==> ProfileOf(input) == RealEdge)
            && (ProductionRuntimeNotImplemented in rs <==> ProfileOf(input) == ProductionCandidate)
            && (MissingRequiredBinding in rs <==> Unavailable(input))
            && (ReadinessAggregateFailed in rs <==> Failing(input))
            && (ReadinessAggregateNotReady in rs <==> !Failing(input) && Unavailable(input))
            && (ProvideRequiredBindings in d.nextSteps <==> Unavailable(input))
            && (KeepSecretGatedEdgeBlocked in d.nextSteps <==>
                  ProfileOf(input) == SecretGatedSmoke && !(input.realNetworkGateOpen && input.runtimeValueGateOpen))
            && (DeferRealEdge in d.nextSteps <==> ProfileOf(input) == RealEdge)
            && (DeferProduction in d.nextSteps <==> ProfileOf(input) == ProductionCandidate)
            && (ContinueFakeEvidence in d.nextSteps <==> GatesOpen(input) && !Unavailable(input))
  {
    AggregateOnInput(t, input);
    ReasonsExactly(t, input);
    var d := Composed(t, input);
    assert d.profile == ProfileOf(input) && d.nextSteps == NextStepsFor(d.blockedReasons, d.aggregate.missingRequired) by {
      hide R.Aggregated, NormalizeBindings, BindingComponents, FixedComponents, Unique, StatusOf, NextStepsFor;
    }
    hide Composed, Failing, Unavailable, Degrading, NextStepsFor;
    StepsExactly(d.blockedReasons, d.aggregate.missingRequired);
  }

  /** The binding kinds that a profile marks as required, whatever the input says. */
  ghost predicate Marks(profile: Profile, kind: BindingKind) {
    || kind in {CoreFacade, AdapterFoundation, Transport, Config}
    || (kind == StoreBinding && profile != SecretGatedSmoke)
    || (kind == CredentialResolver && profile !in {Fake, DryRun})
  }

  lemma MarksExactly(profile: Profile, kind: BindingKind)
    ensures kind in RequiredBindingKinds(profile) <==> Marks(profile, kind)
  {}

  /** The published bindings are those of the input, with the source's defaults and the marks of the profile. */
  lemma BindingsReadOff(t: Texts, input: Input, b: Binding)
    ensures b in Composed(t, input).bindings <==>
            exists i :: i in input.bindings &&
              b == Binding(t.bindingRef(i.bindingRef), Or(i.kind, OptionalOverlay), Or(i.status, NotReady),
                           i.required || Marks(ProfileOf(input), Or(i.kind, OptionalOverlay)),
                           if i.readinessRef.Some? then Some(t.bindingRef(i.readinessRef.value)) else None)
  {
    var required := RequiredBindingKinds(ProfileOf(input));
    SortedHold(t, input.bindings, required, b);
    forall i: BindingInput
      ensures Or(i.kind, OptionalOverlay) in required <==> Marks(ProfileOf(input), Or(i.kind, OptionalOverlay))
    {
      MarksExactly(ProfileOf(input), Or(i.kind, OptionalOverlay));
    }
    hide NormalizeBindings, R.Aggregated, BindingComponents, FixedComponents, Unique, StatusOf, NextStepsFor, Marks,
         RequiredBindingKinds;
  }

  /** The readiness profile that a composition is aggregated under; it never announces remote work. */
  lemma AggregatedUnder(t: Texts, input: Input)
    ensures Composed(t, input).aggregate.profile ==
            match ProfileOf(input)
            case Fake => R.Test
            case DryRun => R.DryRun
            case SecretGatedSmoke | RealEdge => R.RealSmoke
            case ProductionCandidate => R.Production
    ensures !Composed(t, input).aggregate.externalConnectivityEnabled && !Composed(t, input).aggregate.willCallRemote
  {
    hide NormalizeBindings, BindingComponents, FixedComponents, Unique, StatusOf, NextStepsFor, R.Reports, R.RefsOf,
         R.AggregateStatusOf;
  }

  /** A lifecycle that does not accept work is named in the missing list, under every profile. */
  lemma IdleLifecycleIsNamed(t: Texts, input: Input)
    requires !AcceptsWork(input.lifecycle)
    ensures t.reportRef("component:plugin-lifecycle") in Composed(t, input).aggregate.missingRequired
  {
    var bindings := NormalizeBindings(t, input.bindings, RequiredBindingKinds(Or(input.profile, Fake)));
    var all := AggregateInput(Or(input.profile, Fake), FixedComponents(input) + BindingComponents(bindings));
    assert all.components[0] == FixedComponents(input)[0];
    assert Composed(t, input).aggregate == R.Aggregated(t.reportRef, all) by {
      hide R.Aggregated, NormalizeBindings, BindingComponents, FixedComponents, Unique, StatusOf, NextStepsFor;
    }
    hide Composed, R.Aggregated, NormalizeBindings, BindingComponents, R.Required;
    R.UnavailableIsNamed(t.reportRef, all, 0);
  }

  /** The published status of a composition, read off the input, for every profile. */
  lemma StatusExactly(t: Texts, input: Input)
    ensures Composed(t, input).status ==
            if Failing(input) then StatusFailedSafe
            else if ProfileOf(input) in {RealEdge, ProductionCandidate} then StatusBlocked
            else if !GatesOpen(input) || Unavailable(input) then
              if ProfileOf(input) == SecretGatedSmoke then ProfileGated else StatusNotReady
            else if Degrading(input) then StatusDegraded
            else if ProfileOf(input) == DryRun then DryRunReady
            else FakeReady
  {
    AggregateOnInput(t, input);
    ReasonsExactly(t, input);
    var d := Composed(t, input);
    var rs := Unique(ReadinessReasons(d.profileReasons, d.aggregate));
    assert d.profile == ProfileOf(input) && d.status == StatusOf(d.profile, d.aggregate, rs) by {
      hide R.Aggregated, NormalizeBindings, BindingComponents, FixedComponents, Unique, StatusOf, NextStepsFor;
    }
    hide Composed, Failing, Unavailable, Degrading, Unique, ReadinessReasons;
    NoReasonsExactly(rs);
  }

  lemma NoReasonsExactly(rs: seq<BlockedReason>)
    ensures rs == [] <==>
            && RuntimeValueGateClosed !in rs && RealNetworkGateClosed !in rs && RealEdgeNotImplemented !in rs
            && ProductionRuntimeNotImplemented !in rs && MissingRequiredBinding !in rs
            && ReadinessAggregateFailed !in rs && ReadinessAggregateNotReady !in rs
  {
    if rs != [] {
      assert rs[0] in rs;
      match rs[0]
      case MissingRequiredBinding | RuntimeValueGateClosed | RealNetworkGateClosed | RealEdgeNotImplemented
         | ProductionRuntimeNotImplemented | ReadinessAggregateNotReady | ReadinessAggregateFailed =>
    }
  }

  /** When nothing on the input stands in the way. */
  ghost predicate ReadyInput(input: Input) {
    && GatesOpen(input) && AcceptsWork(input.lifecycle)
    && input.toolsNotReady == Some(false) && true !in input.capabilityBlocking
    && (forall kind | NeedsBinding(ProfileOf(input), kind) :: HasBindingFor(input, kind))
    && (forall b | b in input.bindings && MappedKind(b).Some? ::
          StatusIn(b) in if BindingIsRequired(ProfileOf(input), b) then {Ready, Degraded} else {Ready, Disabled})
  }

  lemma UsableExactly(s: BindingStatus)
    ensures s in {Ready, Degraded} <==> s !in {FailedSafe} && s !in {NotReady, Blocked, Disabled}
    ensures s in {Ready, Disabled} <==> s !in {Degraded, NotReady, Blocked, FailedSafe}
  {
    match s
    case Ready | NotReady | Disabled | Blocked | Degraded | FailedSafe =>
  }

  lemma ReadyInputExactly(input: Input)
    ensures ReadyInput(input) <==> GatesOpen(input) && !Failing(input) && !Unavailable(input) && !Degrading(input)
  {
    hide AcceptsWork, ToolsNotReady, MappedKind, BindingIsRequired, NeedsBinding, HasBindingFor, GatesOpen, StatusIn,
         RegistriesAreRequired, ProfileOf;
    forall b | b in input.bindings
      ensures StatusIn(b) in {Ready, Degraded} <==>
              StatusIn(b) !in {FailedSafe} && StatusIn(b) !in {NotReady, Blocked, Disabled}
      ensures StatusIn(b) in {Ready, Disabled} <==> StatusIn(b) !in {Degraded, NotReady, Blocked, FailedSafe}
    {
      UsableExactly(StatusIn(b));
    }
  }

  /** A composition reports itself ready exactly on a ready input, and then nothing blocks. */
  lemma ReadyStatusExactly(t: Texts, input: Input)
    ensures var d := Composed(t, input);
            && (d.status in {FakeReady, DryRunReady} <==> ReadyInput(input))
            && (d.status == DryRunReady <==> ReadyInput(input) && ProfileOf(input) == DryRun)
            && (ReadyInput(input) ==> d.blockedReasons == [])
  {
    StatusExactly(t, input);
    BlockedReasonsExactly(t, input);
    NoReasonsExactly(Composed(t, input).blockedReasons);
    ReadyInputExactly(input);
    hide Composed, Failing, Unavailable, Degrading, ReadyInput;
  }

  lemma FlagIs(t: Texts, input: Input)
    ensures var d := Composed(t, input);
            d.fakeE2eCompatible <==> ProfileOf(input) == Fake && d.status == FakeReady && d.blockedReasons == []
  {
    hide R.Aggregated, NormalizeBindings, BindingComponents, FixedComponents, Unique, StatusOf, NextStepsFor;
  }

  /** The end-to-end characterisation of `fakeE2eCompatible`. */
  lemma FakeE2eExactly(t: Texts, input: Input)
    ensures Composed(t, input).fakeE2eCompatible <==>
            && ProfileOf(input) == Fake
            && AcceptsWork(input.lifecycle) && input.toolsNotReady == Some(false) && true !in input.capabilityBlocking
            && (forall kind | kind in {R.CoreFacade, R.AdapterFoundation, R.Stores, R.Transport, R.Config} ::
                  HasBindingFor(input, kind))
            && (forall b | b in input.bindings && MappedKind(b).Some? :: StatusIn(b) in {Ready, Degraded})
  {
    hide Composed, AcceptsWork, ToolsNotReady, MappedKind, HasBindingFor, StatusIn;
    FlagIs(t, input);
    ReadyStatusExactly(t, input);
  }

  // ----- the secret-gated profile -----

  /** It reports 'fake-ready' exactly on a ready input with both gates open; only the end-to-end flag tells it apart. */
  lemma SmokeReportsFakeReady(t: Texts, input: Input)
    requires input.profile == Some(SecretGatedSmoke)
    ensures var d := Composed(t, input);
            && (d.status == FakeReady <==>
                  && input.realNetworkGateOpen && input.runtimeValueGateOpen
                  && AcceptsWork(input.lifecycle) && input.toolsNotReady == Some(false) && true !in input.capabilityBlocking
                  && (forall kind | kind in {R.CoreFacade, R.AdapterFoundation, R.Transport, R.Config} ::
                        HasBindingFor(input, kind))
                  && (forall b | b in input.bindings && MappedKind(b).Some? ::
                        StatusIn(b) in if b.required || MappedKind(b) != Some(R.Stores) then {Ready, Degraded}
                                       else {Ready, Disabled}))
            && !d.fakeE2eCompatible
  {
    hide Composed, AcceptsWork, ToolsNotReady, MappedKind, HasBindingFor, StatusIn;
    FlagIs(t, input);
    ReadyStatusExactly(t, input);
  }

  function ReadyBinding(kind: BindingKind): BindingInput {
    BindingInput("binding", Some(kind), Some(Ready), false, None)
  }

  const SMOKE_WITHOUT_RESOLVER := Input(
    Some(SecretGatedSmoke), Described(true), Some(false), [],
    [ReadyBinding(CoreFacade), ReadyBinding(AdapterFoundation), ReadyBinding(Transport), ReadyBinding(Config)],
    true, true)

  lemma ReadyBindingSupplies(input: Input, i: nat, kind: BindingKind)
    requires i < |input.bindings| && input.bindings[i] == ReadyBinding(kind) && ComponentKind(kind).Some?
    ensures HasBindingFor(input, ComponentKind(kind).value)
  {
    assert MappedKind(input.bindings[i]) == ComponentKind(kind);
  }

  lemma WitnessSupplies()
    ensures forall kind | kind in {R.CoreFacade, R.AdapterFoundation, R.Transport, R.Config} ::
              HasBindingFor(SMOKE_WITHOUT_RESOLVER, kind)
  {
    hide HasBindingFor;
    ReadyBindingSupplies(SMOKE_WITHOUT_RESOLVER, 0, CoreFacade);
    ReadyBindingSupplies(SMOKE_WITHOUT_RESOLVER, 1, AdapterFoundation);
    ReadyBindingSupplies(SMOKE_WITHOUT_RESOLVER, 2, Transport);
    ReadyBindingSupplies(SMOKE_WITHOUT_RESOLVER, 3, Config);
  }

  lemma WitnessIsReady(b: BindingInput)
    requires b in SMOKE_WITHOUT_RESOLVER.bindings
    ensures StatusIn(b) == Ready && b.kind != Some(CredentialResolver)
  {}

  /** The profile lists a credential resolver as required, yet reports 'fake-ready' without one. */
  lemma SmokeNeedsNoResolver(t: Texts)
    ensures CredentialResolver in RequiredBindingKinds(SecretGatedSmoke)
    ensures forall b | b in SMOKE_WITHOUT_RESOLVER.bindings :: b.kind != Some(CredentialResolver)
    ensures Composed(t, SMOKE_WITHOUT_RESOLVER).status == FakeReady
  {
    hide Composed, HasBindingFor, StatusIn, MappedKind, ReadyBinding;
    WitnessSupplies();
    forall b | b in SMOKE_WITHOUT_RESOLVER.bindings
      ensures StatusIn(b) == Ready && b.kind != Some(CredentialResolver)
    {
      WitnessIsReady(b);
    }
    SmokeReportsFakeReady(t, SMOKE_WITHOUT_RESOLVER);
  }

  // ----- order and repetition do not matter -----

  ghost predicate SameMembers<T(!new)>(a: seq<T>, b: seq<T>) {
    forall x :: x in a <==> x in b
  }

  lemma ConditionsIgnoreOrder(a: Input, b: Input)
    requires a == b.(bindings := a.bindings) && SameMembers(a.bindings, b.bindings)
    ensures Failing(a) == Failing(b) && Unavailable(a) == Unavailable(b) && Degrading(a) == Degrading(b)
  {
    hide MappedKind, StatusIn, BindingIsRequired, NeedsBinding, AcceptsWork, RegistriesAreRequired;
    assert ProfileOf(a) == ProfileOf(b) && RegistriesNotReady(a) == RegistriesNotReady(b);
    forall required: bool, statuses: set<BindingStatus>
      ensures SomeBinding(a, required, statuses) <==> SomeBinding(b, required, statuses)
    {}
    forall kind
      ensures HasBindingFor(a, kind) <==> HasBindingFor(b, kind)
    {}
    hide SomeBinding, HasBindingFor, ProfileOf, RegistriesNotReady, SameMembers;
  }

  lemma StepsIgnoreText(reasons: seq<BlockedReason>, a: seq<string>, b: seq<string>)
    requires a == [] <==> b == []
    ensures NextStepsFor(reasons, a) == NextStepsFor(reasons, b)
  {}

  lemma ReasonsIgnoreText(profileReasons: seq<BlockedReason>, a: R.Aggregate, b: R.Aggregate)
    requires a.status == b.status && (a.missingRequired == [] <==> b.missingRequired == [])
    ensures ReadinessReasons(profileReasons, a) == ReadinessReasons(profileReasons, b)
  {}

  lemma ComposedParts(t: Texts, input: Input)
    ensures var d := Composed(t, input);
            && d.profileReasons == ProfileReasons(ProfileOf(input), input.realNetworkGateOpen, input.runtimeValueGateOpen)
            && d.blockedReasons == Unique(d.profileReasons + Unique(ReadinessReasons(d.profileReasons, d.aggregate)))
            && d.nextSteps == NextStepsFor(d.blockedReasons, d.aggregate.missingRequired)
  {
    hide R.Aggregated, NormalizeBindings, BindingComponents, FixedComponents, Unique, StatusOf, NextStepsFor,
         ProfileReasons, ReadinessReasons;
  }

  /** Reordering or repeating bindings changes no part of the verdict. */
  lemma VerdictIgnoresOrder(t: Texts, a: Input, b: Input)
    requires a == b.(bindings := a.bindings) && SameMembers(a.bindings, b.bindings)
    ensures var c, d := Composed(t, a), Composed(t, b);
            && c.fakeE2eCompatible == d.fakeE2eCompatible && c.status == d.status
            && c.aggregate.status == d.aggregate.status
            && c.blockedReasons == d.blockedReasons && c.nextSteps == d.nextSteps
  {
    hide Composed, Failing, Unavailable, Degrading, Unique, NextStepsFor, ProfileReasons, ReadinessReasons, SameMembers;
    ConditionsIgnoreOrder(a, b);
    AggregateOnInput(t, a);
    AggregateOnInput(t, b);
    StatusExactly(t, a);
    StatusExactly(t, b);
    ComposedParts(t, a);
    ComposedParts(t, b);
    ReasonsIgnoreText(Composed(t, a).profileReasons, Composed(t, a).aggregate, Composed(t, b).aggregate);
    StepsIgnoreText(Composed(t, a).blockedReasons, Composed(t, a).aggregate.missingRequired,
                    Composed(t, b).aggregate.missingRequired);
    FlagIs(t, a);
    FlagIs(t, b);
  }
}
