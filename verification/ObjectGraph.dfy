/**
 The recursive walks over JavaScript values that may share objects and contain cycles.

 Each walk carries one mutable `seen` set through all of its recursive calls.  What a walk must find
 is stated independently of the traversal: a `Graph` records the entries of a finite set of objects
 closed under property access, and values are reached by following paths of any length in it.
 */
module ObjectGraph {
  import opened Common

  /** A JavaScript value; `Opaque` stands for undefined, bigint, function and symbol. */
  datatype Value =
    | Opaque
    | Null
    | Bool(flag: bool)
    | Number(finite: bool, amount: real)
    | Text(text: string)
    | Ref(target: JsObject)

  /** An array (whose entry names are ignored) or a record with its own enumerable properties. */
  class JsObject {
    const isArray: bool
    var entries: seq<(string, Value)>
    var frozen: bool
  }

  class SeenSet {
    var nodes: set<JsObject>

    constructor ()
      ensures nodes == {}
    {
      nodes := {};
    }
  }

  type Graph = map<JsObject, seq<(string, Value)>>

  ghost function Snapshot(heap: set<JsObject>): Graph
    reads heap`entries
  {
    map o | o in heap :: o.entries
  }

  ghost predicate Inside(nodes: set<JsObject>, v: Value) {
    v.Ref? ==> v.target in nodes
  }

  ghost predicate EntriesInside(entries: seq<(string, Value)>, nodes: set<JsObject>) {
    forall i | 0 <= i < |entries| :: Inside(nodes, entries[i].1)
  }

  ghost predicate Closed(g: Graph) {
    forall o | o in g :: EntriesInside(g[o], g.Keys)
  }

  /** The value reached from `v` by a path of entry positions, if there is one. */
  ghost function Follow(g: Graph, v: Value, path: seq<nat>): (r: Option<Value>)
    requires Closed(g) && Inside(g.Keys, v)
    ensures r.Some? ==> Inside(g.Keys, r.value)
    decreases |path|
  {
    if path == [] then Some(v)
    else if v.Ref? && path[0] < |g[v.target]| then Follow(g, g[v.target][path[0]].1, path[1..])
    else None
  }

  ghost predicate Reaches(g: Graph, v: Value, x: Value)
    requires Closed(g) && Inside(g.Keys, v)
  {
    exists path :: Follow(g, v, path) == Some(x)
  }

  lemma FollowThroughEntry(g: Graph, o: JsObject, i: nat, path: seq<nat>)
    requires Closed(g) && o in g && i < |g[o]|
    ensures Follow(g, Ref(o), [i] + path) == Follow(g, g[o][i].1, path)
  {
    assert ([i] + path)[1..] == path;
  }

  /** A set that holds the start and is closed under entries holds every reachable object. */
  lemma {:induction false} ClosedSetHoldsPath(g: Graph, nodes: set<JsObject>, v: Value, path: seq<nat>)
    requires Closed(g) && nodes <= g.Keys && Inside(nodes, v)
    requires forall o | o in nodes :: EntriesInside(g[o], nodes)
    ensures var r := Follow(g, v, path);
            r.Some? ==> Inside(nodes, r.value) &&
                        (r.value == v || exists o, i :: o in nodes && 0 <= i < |g[o]| && g[o][i].1 == r.value)
    decreases |path|
  {
    if path != [] && v.Ref? && path[0] < |g[v.target]| {
      ClosedSetHoldsPath(g, nodes, g[v.target][path[0]].1, path[1..]);
    }
  }

  // ----- rejectForbiddenPublicFields and its four siblings -----

  /** A record (not an array) that owns a forbidden field name. */
  ghost predicate HasForbiddenField(g: Graph, forbidden: string -> bool, v: Value) {
    v.Ref? && v.target in g && !v.target.isArray &&
    exists i :: 0 <= i < |g[v.target]| && forbidden(g[v.target][i].0)
  }

  ghost predicate ReachesForbiddenField(g: Graph, forbidden: string -> bool, v: Value)
    requires Closed(g) && Inside(g.Keys, v)
  {
    exists path ::
      Follow(g, v, path).Some? && HasForbiddenField(g, forbidden, Follow(g, v, path).value)
  }

  /** Objects whose own loop is over: no forbidden field, every entry already seen. */
  ghost predicate FieldsDone(g: Graph, forbidden: string -> bool, done: set<JsObject>, seen: set<JsObject>) {
    forall o | o in done :: o in g && !HasForbiddenField(g, forbidden, Ref(o)) && EntriesInside(g[o], seen)
  }

  lemma ForbiddenThroughEntry(g: Graph, forbidden: string -> bool, o: JsObject, i: nat)
    requires Closed(g) && o in g && i < |g[o]|
    requires ReachesForbiddenField(g, forbidden, g[o][i].1)
    ensures ReachesForbiddenField(g, forbidden, Ref(o))
  {
    var path :|
      Follow(g, g[o][i].1, path).Some? && HasForbiddenField(g, forbidden, Follow(g, g[o][i].1, path).value);
    FollowThroughEntry(g, o, i, path);
  }

  lemma NoForbiddenFieldWhenDone(g: Graph, forbidden: string -> bool, seen: set<JsObject>, v: Value)
    requires Closed(g) && Inside(g.Keys, v) && Inside(seen, v)
    requires FieldsDone(g, forbidden, seen, seen)
    ensures !ReachesForbiddenField(g, forbidden, v)
  {
    forall path | Follow(g, v, path).Some?
      ensures !HasForbiddenField(g, forbidden, Follow(g, v, path).value)
    {
      ClosedSetHoldsPath(g, seen, v, path);
    }
  }

  /**
   One call of the field-rejecting walk.  `active` holds the objects whose loops are still running in
   the callers; every other seen object is done.
   */
  method RejectFieldsFrom(ghost heap: set<JsObject>, ghost active: set<JsObject>,
                          forbidden: string -> bool, v: Value, seen: SeenSet)
    returns (rejected: bool)
    requires Closed(Snapshot(heap)) && Inside(heap, v)
    requires active <= seen.nodes <= heap
    requires FieldsDone(Snapshot(heap), forbidden, seen.nodes - active, seen.nodes)
    modifies seen
    ensures old(seen.nodes) <= seen.nodes <= heap
    ensures rejected ==> ReachesForbiddenField(Snapshot(heap), forbidden, v)
    ensures !rejected ==>
              Inside(seen.nodes, v) && FieldsDone(Snapshot(heap), forbidden, seen.nodes - active, seen.nodes)
    decreases heap - seen.nodes
  {
    if !v.Ref? || v.target in seen.nodes {
      return false;
    }
    ghost var g := Snapshot(heap);
    var o := v.target;
    seen.nodes := seen.nodes + {o};
    var i := 0;
    while i < |o.entries|
      invariant 0 <= i <= |o.entries|
      invariant Snapshot(heap) == g
      invariant old(seen.nodes) + {o} <= seen.nodes <= heap
      invariant !o.isArray ==> forall j: int | 0 <= j < i :: !forbidden(o.entries[j].0)
      invariant EntriesInside(g[o][..i], seen.nodes)
      invariant FieldsDone(g, forbidden, seen.nodes - (active + {o}), seen.nodes)
    {
      var (fieldName, child) := o.entries[i];
      if !o.isArray && forbidden(fieldName) {
        assert Follow(g, v, []) == Some(v) && HasForbiddenField(g, forbidden, v);
        return true;
      }
      assert Inside(heap, child) by { assert EntriesInside(g[o], g.Keys); }
      rejected := RejectFieldsFrom(heap, active + {o}, forbidden, child, seen);
      if rejected {
        ForbiddenThroughEntry(g, forbidden, o, i);
        return;
      }
      i := i + 1;
    }
    assert g[o][..i] == g[o];
    return false;
  }

  /** The walk started with a fresh `seen`: it throws exactly when a forbidden field is reachable. */
  method RejectForbiddenFields(ghost heap: set<JsObject>, forbidden: string -> bool, v: Value)
    returns (rejected: bool)
    requires Closed(Snapshot(heap)) && Inside(heap, v)
    ensures rejected <==> ReachesForbiddenField(Snapshot(heap), forbidden, v)
  {
    var seen := new SeenSet();
    rejected := RejectFieldsFrom(heap, {}, forbidden, v, seen);
    if !rejected {
      NoForbiddenFieldWhenDone(Snapshot(heap), forbidden, seen.nodes, v);
    }
  }

  // ----- rejectForbiddenPublicStringValues -----

  ghost predicate IsMatchingText(matches: string -> bool, v: Value) {
    v.Text? && matches(v.text)
  }

  ghost predicate ReachesMatchingText(g: Graph, matches: string -> bool, v: Value)
    requires Closed(g) && Inside(g.Keys, v)
  {
    exists path :: Follow(g, v, path).Some? && IsMatchingText(matches, Follow(g, v, path).value)
  }

  /** The values of these entries are settled: objects already seen, texts without a match. */
  ghost predicate TextsSettled(matches: string -> bool, entries: seq<(string, Value)>, seen: set<JsObject>) {
    forall i | 0 <= i < |entries| :: Inside(seen, entries[i].1) && !IsMatchingText(matches, entries[i].1)
  }

  ghost predicate TextsDone(g: Graph, matches: string -> bool, done: set<JsObject>, seen: set<JsObject>) {
    forall o | o in done :: o in g && TextsSettled(matches, g[o], seen)
  }

  lemma MatchingTextThroughEntry(g: Graph, matches: string -> bool, o: JsObject, i: nat)
    requires Closed(g) && o in g && i < |g[o]|
    requires ReachesMatchingText(g, matches, g[o][i].1)
    ensures ReachesMatchingText(g, matches, Ref(o))
  {
    var path :|
      Follow(g, g[o][i].1, path).Some? && IsMatchingText(matches, Follow(g, g[o][i].1, path).value);
    FollowThroughEntry(g, o, i, path);
  }

  lemma NoMatchingTextWhenDone(g: Graph, matches: string -> bool, seen: set<JsObject>, v: Value)
    requires Closed(g) && Inside(g.Keys, v) && Inside(seen, v) && !IsMatchingText(matches, v)
    requires TextsDone(g, matches, seen, seen)
    ensures !ReachesMatchingText(g, matches, v)
  {
    forall path | Follow(g, v, path).Some?
      ensures !IsMatchingText(matches, Follow(g, v, path).value)
    {
      assert forall o | o in seen :: EntriesInside(g[o], seen);
      ClosedSetHoldsPath(g, seen, v, path);
    }
  }

  method RejectTextsFrom(ghost heap: set<JsObject>, ghost active: set<JsObject>,
                         matches: string -> bool, v: Value, seen: SeenSet)
    returns (rejected: bool)
    requires Closed(Snapshot(heap)) && Inside(heap, v)
    requires active <= seen.nodes <= heap
    requires TextsDone(Snapshot(heap), matches, seen.nodes - active, seen.nodes)
    modifies seen
    ensures old(seen.nodes) <= seen.nodes <= heap
    ensures rejected ==> ReachesMatchingText(Snapshot(heap), matches, v)
    ensures !rejected ==>
              Inside(seen.nodes, v) && !IsMatchingText(matches, v) &&
              TextsDone(Snapshot(heap), matches, seen.nodes - active, seen.nodes)
    decreases heap - seen.nodes
  {
    ghost var g := Snapshot(heap);
    if v.Text? {
      assert Follow(g, v, []) == Some(v);
      return matches(v.text);
    }
    if !v.Ref? || v.target in seen.nodes {
      return false;
    }
    var o := v.target;
    seen.nodes := seen.nodes + {o};

    var i := 0;
    while i < |o.entries|
      invariant 0 <= i <= |o.entries|
      invariant Snapshot(heap) == g
      invariant old(seen.nodes) + {o} <= seen.nodes <= heap
      invariant TextsSettled(matches, g[o][..i], seen.nodes)
      invariant TextsDone(g, matches, seen.nodes - (active + {o}), seen.nodes)
    {
      assert Inside(heap, o.entries[i].1) by { assert EntriesInside(g[o], g.Keys); }
      rejected := RejectTextsFrom(heap, active + {o}, matches, o.entries[i].1, seen);
      if rejected {
        MatchingTextThroughEntry(g, matches, o, i);
        return;
      }
      i := i + 1;
    }
    assert g[o][..i] == g[o];
    return false;
  }

  /** Throws exactly when a text that matches is reachable, the input itself included. */
  method RejectForbiddenTexts(ghost heap: set<JsObject>, matches: string -> bool, v: Value)
    returns (rejected: bool)
    requires Closed(Snapshot(heap)) && Inside(heap, v)
    ensures rejected <==> ReachesMatchingText(Snapshot(heap), matches, v)
  {
    var seen := new SeenSet();
    rejected := RejectTextsFrom(heap, {}, matches, v, seen);
    if !rejected {
      NoMatchingTextWhenDone(Snapshot(heap), matches, seen.nodes, v);
    }
  }

  // ----- deepFreeze -----

  ghost predicate EntriesDone(g: Graph, done: set<JsObject>, seen: set<JsObject>) {
    forall o | o in done :: o in g && EntriesInside(g[o], seen)
  }

  ghost predicate AllReached(g: Graph, v: Value, nodes: set<JsObject>)
    requires Closed(g) && Inside(g.Keys, v)
  {
    forall o | o in nodes :: Reaches(g, v, Ref(o))
  }

  lemma AllReachedThroughEntry(g: Graph, o: JsObject, i: nat, nodes: set<JsObject>)
    requires Closed(g) && o in g && i < |g[o]|
    requires AllReached(g, g[o][i].1, nodes)
    ensures AllReached(g, Ref(o), nodes)
  {
    forall x | x in nodes
      ensures Reaches(g, Ref(o), Ref(x))
    {
      assert Reaches(g, g[o][i].1, Ref(x));
      var path :| Follow(g, g[o][i].1, path) == Some(Ref(x));
      FollowThroughEntry(g, o, i, path);
    }
  }

  lemma SeenHoldsReached(g: Graph, v: Value, seen: set<JsObject>, x: JsObject)
    requires Closed(g) && Inside(g.Keys, v) && Inside(seen, v)
    requires EntriesDone(g, seen, seen)
    requires Reaches(g, v, Ref(x))
    ensures x in seen
  {
    var path :| Follow(g, v, path) == Some(Ref(x));
    ClosedSetHoldsPath(g, seen, v, path);
  }

  method DeepFreezeFrom(ghost heap: set<JsObject>, ghost active: set<JsObject>, v: Value, seen: SeenSet)
    returns (same: Value)
    requires Closed(Snapshot(heap)) && Inside(heap, v)
    requires active <= seen.nodes <= heap
    requires EntriesDone(Snapshot(heap), seen.nodes - active, seen.nodes)
    modifies seen, heap`frozen
    ensures same == v
    ensures old(seen.nodes) <= seen.nodes <= heap
    ensures Snapshot(heap) == old(Snapshot(heap))
    ensures forall o | o in heap :: o.frozen <==> old(o.frozen) || o in seen.nodes - old(seen.nodes)
    ensures AllReached(Snapshot(heap), v, seen.nodes - old(seen.nodes))
    ensures Inside(seen.nodes, v) && EntriesDone(Snapshot(heap), seen.nodes - active, seen.nodes)
    decreases heap - seen.nodes
  {
    same := v;
    if !v.Ref? || v.target in seen.nodes {
      return;
    }
    ghost var g := Snapshot(heap);
    var o := v.target;
    seen.nodes := seen.nodes + {o};
    o.frozen := true;
    assert Follow(g, v, []) == Some(v);
    assert AllReached(g, v, {o});

    var i := 0;
    while i < |o.entries|
      invariant 0 <= i <= |o.entries|
      invariant Snapshot(heap) == g
      invariant old(seen.nodes) + {o} <= seen.nodes <= heap
      invariant forall x | x in heap :: x.frozen <==> old(x.frozen) || x in seen.nodes - old(seen.nodes)
      invariant AllReached(g, v, seen.nodes - old(seen.nodes))
      invariant EntriesInside(g[o][..i], seen.nodes)
      invariant EntriesDone(g, seen.nodes - (active + {o}), seen.nodes)
    {
      assert Inside(heap, o.entries[i].1) by { assert EntriesInside(g[o], g.Keys); }
      ghost var before := seen.nodes;
      var _ := DeepFreezeFrom(heap, active + {o}, o.entries[i].1, seen);
      AllReachedThroughEntry(g, o, i, seen.nodes - before);
      assert seen.nodes - old(seen.nodes) == (before - old(seen.nodes)) + (seen.nodes - before);
      i := i + 1;
    }
    assert g[o][..i] == g[o];
  }

  /** Freezes exactly the reachable objects, leaves every entry as it was, returns its input. */
  method DeepFreeze(ghost heap: set<JsObject>, v: Value)
    returns (same: Value)
    requires Closed(Snapshot(heap)) && Inside(heap, v)
    modifies heap`frozen
    ensures same == v
    ensures Snapshot(heap) == old(Snapshot(heap))
    ensures forall o | o in heap :: o.frozen <==> old(o.frozen) || Reaches(Snapshot(heap), v, Ref(o))
  {
    var seen := new SeenSet();
    same := DeepFreezeFrom(heap, {}, v, seen);
    ghost var g := Snapshot(heap);
    forall o | o in heap && Reaches(g, v, Ref(o))
      ensures o in seen.nodes
    {
      SeenHoldsReached(g, v, seen.nodes, o);
    }
    assert AllReached(g, v, seen.nodes - {});
    assert seen.nodes - {} == seen.nodes;
  }
}
