/**
 The plugin lifecycle: an event-sourced snapshot.  The summary fields kept beside the history are
 shown to be determined by the history alone, over every run from the initial snapshot.
 */
module Lifecycle {
  import opened Common

  /** `ForeignState` and `ForeignEvent` stand for names outside the vocabulary. */
  datatype State =
    | Declared | Configured | Initialized | Started | Ready | Degraded | Stopping | Stopped | Failed
    | ForeignState

  datatype Event = Configure | Initialize | Start | MarkReady | Degrade | BeginStop | Stop | Fail | ForeignEvent

  datatype Reason = Reason(code: string, summary: string, category: string)

  /** Reason normalisation, after the defaults of degrading and failing have been merged in. */
  datatype Reasons = Reasons(degraded: Reason -> Reason, failed: Reason -> Reason)

  /** A requested event and the reason the caller gave (used by `Degrade` and `Fail` only). */
  datatype Transition = Transition(event: Event, given: Reason)

  datatype Entry = Entry(from: State, to: State, event: Event, reason: Option<Reason>)

  datatype Snapshot = Snapshot(
    state: State,
    revision: nat,
    history: seq<Entry>,
    lastDegradation: Option<Reason>,
    lastFailure: Option<Reason>)

  datatype RejectCode = InvalidSnapshot | InvalidTransition | AlreadyFailed | AlreadyStopped | UnknownEvent

  datatype Outcome =
    | Accepted(snapshot: Snapshot, from: State, to: State, event: Event, changed: bool)
    | Rejected(snapshot: Snapshot, code: RejectCode)

  const INITIAL := Snapshot(Declared, 0, [], None, None)

  function Apply(reasons: Reasons, s: Snapshot, t: Transition): Outcome {
    if s.state == ForeignState then Rejected(s, InvalidSnapshot)
    else
      match t.event
      case Configure => TransitionTo(s, t.event, if s.state == Declared then Some(Configured) else None, None)
      case Initialize => TransitionTo(s, t.event, if s.state == Configured then Some(Initialized) else None, None)
      case Start => TransitionTo(s, t.event, if s.state == Initialized then Some(Started) else None, None)
      case MarkReady =>
        TransitionTo(s, t.event, if s.state == Started || s.state == Degraded then Some(Ready) else None, None)
      case Degrade =>
        TransitionTo(s, t.event, if s.state == Started || s.state == Ready then Some(Degraded) else None,
                     Some(reasons.degraded(t.given)))
      case BeginStop =>
        if s.state == Stopped || s.state == Stopping then AcceptUnchanged(s, t.event)
        else TransitionTo(s, t.event, Some(Stopping), None)
      case Stop =>
        if s.state == Stopped then AcceptUnchanged(s, t.event)
        else TransitionTo(s, t.event, if s.state == Stopping then Some(Stopped) else None, None)
      case Fail =>
        if s.state == Failed then Rejected(s, AlreadyFailed)
        else if s.state == Stopped then Rejected(s, AlreadyStopped)
        else TransitionTo(s, t.event, Some(Failed), Some(reasons.failed(t.given)))
      case ForeignEvent => Rejected(s, UnknownEvent)
  }

  function TransitionTo(s: Snapshot, event: Event, target: Option<State>, reason: Option<Reason>): Outcome {
    if target.None? then Rejected(s, InvalidTransition)
    else if target.value == s.state then AcceptUnchanged(s, event)
    else
      var next := Snapshot(
        target.value,
        s.revision + 1,
        s.history + [Entry(s.state, target.value, event, reason)],
        if event == Degrade && reason.Some? then reason else if event != MarkReady then s.lastDegradation else None,
        if event == Fail && reason.Some? then reason else s.lastFailure);
      Accepted(next, s.state, target.value, event, true)
  }

  function AcceptUnchanged(s: Snapshot, event: Event): Outcome {
    Accepted(s, s.state, s.state, event, false)
  }

  datatype Description = Description(
    terminal: bool, acceptsWork: bool, canConfigure: bool, canInitialize: bool, canStart: bool,
    canBecomeReady: bool, canDegrade: bool, canBeginStop: bool, canStop: bool)

  function Describe(s: Snapshot): Description {
    Description(
      s.state == Stopped || s.state == Failed,
      s.state == Ready || s.state == Degraded,
      s.state == Declared,
      s.state == Configured,
      s.state == Initialized,
      s.state == Started || s.state == Degraded,
      s.state == Started || s.state == Ready,
      s.state != Stopping && s.state != Stopped,
      s.state == Stopping || s.state == Stopped)
  }

  function Run(reasons: Reasons, ts: seq<Transition>): Snapshot {
    Resume(reasons, INITIAL, ts)
  }

  function Resume(reasons: Reasons, s: Snapshot, ts: seq<Transition>): Snapshot
    decreases |ts|
  {
    if ts == [] then s else Resume(reasons, Apply(reasons, s, ts[0]).snapshot, ts[1..])
  }

  // ----- What a history means, without the summary fields -----

  /** The edges of the published state diagram. */
  ghost predicate LegalEdge(from: State, event: Event, to: State) {
    || (from, event, to) in {
         (Declared, Configure, Configured), (Configured, Initialize, Initialized), (Initialized, Start, Started),
         (Started, MarkReady, Ready), (Degraded, MarkReady, Ready),
         (Started, Degrade, Degraded), (Ready, Degrade, Degraded), (Stopping, Stop, Stopped) }
    || (event == BeginStop && to == Stopping && from !in {Stopping, Stopped, ForeignState})
    || (event == Fail && to == Failed && from !in {Failed, Stopped, ForeignState})
  }

  /** A chain of legal edges from `Declared` to `state`; exactly degrading and failing carry a reason. */
  ghost predicate LegalHistory(history: seq<Entry>, state: State) {
    && (forall i | 0 <= i < |history| :: LegalEntry(history[i], StateBefore(history, i)))
    && state == StateBefore(history, |history|)
  }

  ghost predicate LegalEntry(e: Entry, before: State) {
    e.from == before && LegalEdge(e.from, e.event, e.to) && (e.reason.Some? <==> e.event in {Degrade, Fail})
  }

  function StateBefore(history: seq<Entry>, i: nat): State
    requires i <= |history|
  {
    if i == 0 then Declared else history[i - 1].to
  }

  /** `r` is the reason of the last `set` entry that no later `set` or `cleared` entry supersedes. */
  ghost predicate InForce(history: seq<Entry>, setBy: Event, clearedBy: set<Event>, r: Option<Reason>) {
    if r.None? then
      forall i | 0 <= i < |history| && history[i].event == setBy ::
        exists j :: i < j < |history| && history[j].event in clearedBy
    else
      exists i :: 0 <= i < |history| && history[i].event == setBy && history[i].reason == r &&
                  forall j | i < j < |history| :: history[j].event != setBy && history[j].event !in clearedBy
  }

  ghost predicate Consistent(s: Snapshot) {
    && s.revision == |s.history|
    && LegalHistory(s.history, s.state)
    && InForce(s.history, Degrade, {MarkReady}, s.lastDegradation)
    && InForce(s.history, Fail, {}, s.lastFailure)
  }

  /** Appending one entry updates what is in force the way the code updates its summary field. */
  lemma InForceExtends(history: seq<Entry>, e: Entry, setBy: Event, clearedBy: set<Event>, r: Option<Reason>)
    requires InForce(history, setBy, clearedBy, r) && setBy !in clearedBy
    requires e.event == setBy ==> e.reason.Some?
    ensures InForce(history + [e], setBy, clearedBy,
                    if e.event == setBy then e.reason else if e.event in clearedBy then None else r)
  {
    var longer := history + [e];
    var n := |history|;
    assert longer[n] == e;
    if e.event == setBy {
      assert longer[n].reason == e.reason;
    } else if e.event in clearedBy {
      assert forall i | 0 <= i < |longer| && longer[i].event == setBy :: i < n < |longer|;
    } else if r.None? {
      forall i | 0 <= i < |longer| && longer[i].event == setBy
        ensures exists j :: i < j < |longer| && longer[j].event in clearedBy
      {
        assert history[i].event == setBy;
        var j :| i < j < |history| && history[j].event in clearedBy;
        assert longer[j] == history[j];
      }
    } else {
      var i :| 0 <= i < |history| && history[i].event == setBy && history[i].reason == r &&
               forall j | i < j < |history| :: history[j].event != setBy && history[j].event !in clearedBy;
      assert longer[i] == history[i];
      assert forall j | i < j < |longer| :: longer[j] == if j < n then history[j] else e;
    }
  }

  /** At most one reason is in force. */
  lemma InForceUnique(history: seq<Entry>, setBy: Event, clearedBy: set<Event>, r: Option<Reason>, q: Option<Reason>)
    requires InForce(history, setBy, clearedBy, r) && InForce(history, setBy, clearedBy, q)
    ensures r == q
  {}

  /** A transition either leaves the snapshot alone or appends one legal edge out of its state. */
  lemma ApplyAppendsEdge(reasons: Reasons, s: Snapshot, t: Transition) returns (e: Entry)
    ensures var outcome := Apply(reasons, s, t);
            if outcome.Accepted? && outcome.changed then
              LegalEntry(e, s.state) && e.event == t.event &&
              (t.event == Degrade ==> e.reason == Some(reasons.degraded(t.given))) &&
              (t.event == Fail ==> e.reason == Some(reasons.failed(t.given))) &&
              outcome.snapshot == Snapshot(
                e.to, s.revision + 1, s.history + [e],
                if e.event == Degrade then e.reason else if e.event == MarkReady then None else s.lastDegradation,
                if e.event == Fail then e.reason else s.lastFailure)
            else outcome.snapshot == s
  {
    var outcome := Apply(reasons, s, t);
    e := if outcome.Accepted? && outcome.changed then outcome.snapshot.history[|s.history|]
         else Entry(s.state, s.state, t.event, None);
  }

  /** Conversely, every legal edge out of the current state is taken by applying its event. */
  lemma LegalEdgeIsTaken(reasons: Reasons, s: Snapshot, t: Transition, to: State)
    requires LegalEdge(s.state, t.event, to)
    ensures var next := Apply(reasons, s, t).snapshot;
            next.state == to && |next.history| == |s.history| + 1 && next.history[..|s.history|] == s.history &&
            next.history[|s.history|].from == s.state && next.history[|s.history|].event == t.event &&
            next.history[|s.history|].to == to
  {}

  /** The outcome of every request: refused with its code, accepted without a change, or an edge with its reason. */
  lemma OutcomeExactly(reasons: Reasons, s: Snapshot, t: Transition)
    ensures var o := Apply(reasons, s, t);
            var moves := exists to :: LegalEdge(s.state, t.event, to);
            var idle := (t.event == BeginStop && s.state in {Stopping, Stopped}) || (t.event == Stop && s.state == Stopped);
            && (o.Accepted? <==> moves || idle)
            && (o.Accepted? ==> (o.changed <==> moves) && o.from == s.state && o.to == o.snapshot.state && o.event == t.event)
            && (o == Rejected(s, InvalidSnapshot) <==> s.state == ForeignState)
            && (o == Rejected(s, UnknownEvent) <==> s.state != ForeignState && t.event == ForeignEvent)
            && (o == Rejected(s, AlreadyFailed) <==> s.state == Failed && t.event == Fail)
            && (o == Rejected(s, AlreadyStopped) <==> s.state == Stopped && t.event == Fail)
            && (o.Rejected? ==> o.snapshot == s) && (idle ==> o.snapshot == s)
            && (moves ==> o.snapshot.history[|s.history|..] == [Entry(
                            s.state, o.snapshot.state, t.event,
                            if t.event == Degrade then Some(reasons.degraded(t.given))
                            else if t.event == Fail then Some(reasons.failed(t.given)) else None)])
  {
    forall to
      ensures LegalEdge(s.state, t.event, to) ==>
              Apply(reasons, s, t).Accepted? && Apply(reasons, s, t).changed && Apply(reasons, s, t).snapshot.state == to
    {}
    var o := Apply(reasons, s, t);
    if o.Accepted? && o.changed {
      assert LegalEdge(s.state, t.event, o.snapshot.state);
    }
  }

  lemma ReasonWhenNeeded(e: Entry, before: State)
    requires LegalEntry(e, before)
    ensures e.event in {Degrade, Fail} ==> e.reason.Some?
  {}

  lemma LegalHistoryExtends(history: seq<Entry>, state: State, e: Entry)
    requires LegalHistory(history, state) && LegalEntry(e, state)
    ensures LegalHistory(history + [e], e.to)
  {
    hide LegalEntry;
    var longer := history + [e];
    forall i | 0 <= i < |longer|
      ensures LegalEntry(longer[i], StateBefore(longer, i))
    {
      assert StateBefore(longer, i) == StateBefore(history, i);
      if i < |history| {
        assert LegalEntry(history[i], StateBefore(history, i));
      }
    }
  }

  lemma ApplyKeepsConsistent(reasons: Reasons, s: Snapshot, t: Transition)
    requires Consistent(s)
    ensures Consistent(Apply(reasons, s, t).snapshot)
  {
    hide LegalEntry, LegalHistory, InForce, Apply;
    var e := ApplyAppendsEdge(reasons, s, t);
    var outcome := Apply(reasons, s, t);
    if outcome.Accepted? && outcome.changed {
      LegalHistoryExtends(s.history, s.state, e);
      assert e.event in {Degrade, Fail} ==> e.reason.Some? by { ReasonWhenNeeded(e, s.state); }
      InForceExtends(s.history, e, Degrade, {MarkReady}, s.lastDegradation);
      InForceExtends(s.history, e, Fail, {}, s.lastFailure);
    }
  }

  lemma {:induction false} ResumeKeepsConsistent(reasons: Reasons, s: Snapshot, ts: seq<Transition>)
    requires Consistent(s)
    ensures Consistent(Resume(reasons, s, ts))
    decreases |ts|
  {
    if ts != [] {
      ApplyKeepsConsistent(reasons, s, ts[0]);
      ResumeKeepsConsistent(reasons, Apply(reasons, s, ts[0]).snapshot, ts[1..]);
    }
  }

  /** Every run: revision, chain of edges, last degradation and last failure all follow the history. */
  lemma RunIsConsistent(reasons: Reasons, ts: seq<Transition>)
    ensures Consistent(Run(reasons, ts))
  {
    ResumeKeepsConsistent(reasons, INITIAL, ts);
  }

  // ----- Replay -----

  /** The events a history records, with arbitrary reasons attached. */
  ghost predicate Records(history: seq<Entry>, ts: seq<Transition>) {
    |ts| == |history| && forall i | 0 <= i < |ts| :: ts[i].event == history[i].event
  }

  function Edges(history: seq<Entry>): seq<(State, Event, State)> {
    seq(|history|, i requires 0 <= i < |history| => (history[i].from, history[i].event, history[i].to))
  }

  lemma ReplayStep(reasons: Reasons, history: seq<Entry>, n: nat, s: Snapshot, t: Transition)
    requires n < |history| && LegalEntry(history[n], s.state) && t.event == history[n].event
    requires Edges(s.history) == Edges(history[..n])
    ensures var next := Apply(reasons, s, t).snapshot;
            next.state == history[n].to && Edges(next.history) == Edges(history[..n + 1])
  {
    hide Apply, LegalEdge;
    var e := history[n];
    LegalEdgeIsTaken(reasons, s, t, e.to);
    var next := Apply(reasons, s, t).snapshot;
    assert next.history == s.history + [next.history[|s.history|]];
    assert Edges(next.history) == Edges(s.history) + [(e.from, e.event, e.to)];
    assert Edges(history[..n + 1]) == Edges(history[..n]) + [(e.from, e.event, e.to)];
  }

  lemma {:induction false} ReplayFrom(reasons: Reasons, history: seq<Entry>, state: State, ts: seq<Transition>,
                                      n: nat, s: Snapshot)
    requires LegalHistory(history, state) && Records(history, ts) && n <= |ts|
    requires Edges(s.history) == Edges(history[..n]) && s.state == StateBefore(history, n)
    ensures Edges(Resume(reasons, s, ts[n..]).history) == Edges(history)
    ensures Resume(reasons, s, ts[n..]).state == state
    decreases |ts| - n
  {
    hide Apply, Edges, LegalEntry;
    if n == |ts| {
      assert history[..n] == history;
    } else {
      ReplayStep(reasons, history, n, s, ts[n]);
      assert ts[n..][1..] == ts[n + 1..];
      ReplayFrom(reasons, history, state, ts, n + 1, Apply(reasons, s, ts[n]).snapshot);
    }
  }

  /** Replaying the recorded events of any run, whatever reasons they carry, rebuilds state and edges. */
  lemma ReplayRebuilds(reasons: Reasons, ts: seq<Transition>, replay: seq<Transition>)
    requires Records(Run(reasons, ts).history, replay)
    ensures Run(reasons, replay).state == Run(reasons, ts).state
    ensures Edges(Run(reasons, replay).history) == Edges(Run(reasons, ts).history)
    ensures Run(reasons, replay).revision == Run(reasons, ts).revision
  {
    RunIsConsistent(reasons, ts);
    RunIsConsistent(reasons, replay);
    var s := Run(reasons, ts);
    assert replay[0..] == replay;
    ReplayFrom(reasons, s.history, s.state, replay, 0, INITIAL);
    assert |Edges(Run(reasons, replay).history)| == |Edges(s.history)|;
  }

  // ----- No work after shutdown has begun -----

  ghost predicate ShutDown(s: Snapshot) {
    s.state in {Stopping, Stopped, Failed}
  }

  lemma {:induction false} NoWorkAfterShutdown(reasons: Reasons, s: Snapshot, ts: seq<Transition>)
    requires ShutDown(s)
    ensures ShutDown(Resume(reasons, s, ts)) && !Describe(Resume(reasons, s, ts)).acceptsWork
    decreases |ts|
  {
    if ts != [] {
      NoWorkAfterShutdown(reasons, Apply(reasons, s, ts[0]).snapshot, ts[1..]);
    }
  }

  /** A stopped snapshot never changes again. */
  lemma {:induction false} StoppedIsFinal(reasons: Reasons, s: Snapshot, ts: seq<Transition>)
    requires s.state == Stopped
    ensures Resume(reasons, s, ts) == s
    decreases |ts|
  {
    if ts != [] {
      StoppedIsFinal(reasons, s, ts[1..]);
    }
  }

  // ----- The description agrees with what applying each event would do -----

  ghost predicate Changes(reasons: Reasons, s: Snapshot, event: Event, given: Reason) {
    var outcome := Apply(reasons, s, Transition(event, given));
    outcome.Accepted? && outcome.changed
  }

  /**
   Every `can` flag says exactly when its event would change the snapshot, except `canStop`, which is
   also set where stopping is accepted without a change.
   */
  lemma DescriptionPredictsApply(reasons: Reasons, s: Snapshot, given: Reason)
    requires s.state != ForeignState
    ensures Describe(s).canConfigure <==> Changes(reasons, s, Configure, given)
    ensures Describe(s).canInitialize <==> Changes(reasons, s, Initialize, given)
    ensures Describe(s).canStart <==> Changes(reasons, s, Start, given)
    ensures Describe(s).canBecomeReady <==> Changes(reasons, s, MarkReady, given)
    ensures Describe(s).canDegrade <==> Changes(reasons, s, Degrade, given)
    ensures Describe(s).canBeginStop <==> Changes(reasons, s, BeginStop, given)
    ensures Describe(s).canStop <==> Apply(reasons, s, Transition(Stop, given)).Accepted?
    ensures Describe(s).terminal <==> forall e | e !in {BeginStop, ForeignEvent} :: !Changes(reasons, s, e, given)
    ensures Describe(s).acceptsWork <==> s.state in {Ready, Degraded}
  {
    assert s.state !in {Failed, Stopped} ==> Changes(reasons, s, Fail, given);
  }
}
