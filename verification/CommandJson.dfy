/**
 normalizeCommandJsonValue: turning an arbitrary object graph into bounded plain JSON.

 Acceptance is characterised by access paths alone: every value on every path is acceptable at its
 depth, and no container lies at the end of two paths, so shared references are refused like cycles.

 An own `__proto__` entry is assigned like any other, so it installs the frozen object as the prototype
 of the output; a later entry whose name that prototype holds cannot be assigned, and the call throws.
 */
module CommandJson {
  import opened Common
  import opened ObjectGraph
  import K = IdempotencyKeys

  const MAX_DEPTH := 8
  const MAX_KEYS := 80
  const MAX_NAME_LENGTH := 256

  /** The project's word lists: unsafe field names, and text normalisation (None when it throws). */
  datatype Policy = Policy(unsafeName: string -> bool, boundedText: string -> Option<string>)

  datatype Json =
    | JNull
    | JBool(flag: bool)
    | JNumber(amount: real)
    | JText(text: string)
    | JArray(items: seq<Json>)
    | JRecord(fields: seq<Field>, prototype: Option<Json>)

  datatype Field = Field(name: string, value: Json)

  predicate SafeName(policy: Policy, name: string) {
    0 < JsLength(name) <= MAX_NAME_LENGTH && !policy.unsafeName(name)
  }

  ghost predicate SafeNames(policy: Policy, entries: seq<(string, Value)>) {
    forall i | 0 <= i < |entries| :: SafeName(policy, entries[i].0)
  }

  // ----- names held by a prototype -----

  const PROTO := "__proto__"

  predicate IsIndexName(name: string, n: nat) {
    exists i | 0 <= i < n :: name == K.Decimal(i)
  }

  /** The own names of a frozen array: its indices and its length. */
  predicate ArrayOwns(name: string, n: nat) {
    name == "length" || IsIndexName(name, n)
  }

  /** A frozen array owns exactly the indices below its length, and the name of the length. */
  lemma ArrayOwnsExactly(i: nat, n: nat)
    ensures ArrayOwns(K.Decimal(i), n) <==> i < n
    ensures ArrayOwns("length", n)
  {
    K.DecimalReads(i);
    assert K.Decimal(i) != "length" by {
      DecimalIsNoWord(i);
    }
    forall j: nat | j < n && K.Decimal(j) == K.Decimal(i)
      ensures i == j
    {
      K.DecimalInjective(i, j);
    }
  }

  lemma {:induction false} DecimalIsNoWord(n: nat)
    ensures K.Decimal(n) != "" && '0' <= K.Decimal(n)[0] <= '9'
  {
    if n >= 10 {
      DecimalIsNoWord(n / 10);
    }
  }

  /** The value that assigning these entries in order leaves installed; Null when it is no object. */
  function InstalledBy(entries: seq<(string, Value)>): Value {
    if entries == [] then Null
    else
      var last := entries[|entries| - 1];
      if last.0 == PROTO && (last.1.Ref? || last.1.Null?) then last.1 else InstalledBy(entries[..|entries| - 1])
  }

  predicate HasName(entries: seq<(string, Value)>, name: string) {
    exists i | 0 <= i < |entries| :: entries[i].0 == name
  }

  ghost predicate OwnsHere(g: Graph, o: JsObject, name: string) {
    o in g &&
    if o.isArray then ArrayOwns(name, |g[o]|)
    else name != PROTO && HasName(g[o], name)
  }

  /** The `n`-th object on the prototype chain that normalising `v` builds. */
  ghost function Link(g: Graph, v: Value, n: nat): Value
    decreases n
  {
    if n == 0 then v
    else if v.Ref? && v.target in g && !v.target.isArray then Link(g, InstalledBy(g[v.target]), n - 1)
    else Null
  }

  ghost predicate OwnsAt(g: Graph, v: Value, name: string, n: nat) {
    Link(g, v, n).Ref? && OwnsHere(g, Link(g, v, n).target, name)
  }

  /** Some object on that chain holds the name, frozen. */
  ghost predicate Holds(g: Graph, v: Value, name: string) {
    exists n: nat :: OwnsAt(g, v, name, n)
  }

  /** None of the first `n` entries has a name held by what the entries before it installed. */
  ghost predicate Unshadowed(g: Graph, entries: seq<(string, Value)>, n: nat)
    requires n <= |entries|
  {
    forall j | 0 <= j < n && entries[j].0 != PROTO :: !Holds(g, InstalledBy(entries[..j]), entries[j].0)
  }

  // ----- acceptance -----

  ghost predicate AcceptableAt(g: Graph, policy: Policy, v: Value, depth: nat) {
    match v
    case Opaque => false
    case Null => true
    case Bool(_) => true
    case Number(finite, _) => finite
    case Text(text) => policy.boundedText(text).Some?
    case Ref(o) =>
      o in g && depth < MAX_DEPTH &&
      (!o.isArray ==> |g[o]| <= MAX_KEYS && SafeNames(policy, g[o]) && Unshadowed(g, g[o], |g[o]|))
  }

  ghost predicate Acceptable(g: Graph, policy: Policy, v: Value, depth: nat)
    requires Closed(g) && Inside(g.Keys, v)
  {
    forall path | Follow(g, v, path).Some? :: AcceptableAt(g, policy, Follow(g, v, path).value, depth + |path|)
  }

  /** No container lies at the end of two different paths. */
  ghost predicate Unshared(g: Graph, v: Value)
    requires Closed(g) && Inside(g.Keys, v)
  {
    forall p, q | Follow(g, v, p).Some? && Follow(g, v, p).value.Ref? && Follow(g, v, p) == Follow(g, v, q) :: p == q
  }

  ghost predicate Apart(g: Graph, v: Value, nodes: set<JsObject>)
    requires Closed(g) && Inside(g.Keys, v)
  {
    forall o | o in nodes :: !Reaches(g, v, Ref(o))
  }

  /** What a call at `depth` with `taken` already seen needs in order to succeed. */
  ghost predicate Succeeds(g: Graph, policy: Policy, v: Value, depth: nat, taken: set<JsObject>)
    requires Closed(g) && Inside(g.Keys, v)
  {
    Acceptable(g, policy, v, depth) && Unshared(g, v) && Apart(g, v, taken)
  }

  /** The entries that survive assignment to the output: `__proto__` never becomes an own property. */
  function Kept(entries: seq<(string, Value)>): seq<(string, Value)> {
    if entries == [] then []
    else
      var last := entries[|entries| - 1];
      Kept(entries[..|entries| - 1]) + if last.0 == PROTO then [] else [last]
  }

  /** `output[name] = t`, for a name not assigned before. */
  function Assign(fields: seq<Field>, name: string, t: Json): seq<Field> {
    if name == PROTO then fields else fields + [Field(name, t)]
  }

  /** The prototype after `output[name] = t`: the setter ignores everything but objects and null. */
  function Installed(prototype: Option<Json>, name: string, t: Json): Option<Json> {
    if name != PROTO then prototype
    else if t.JArray? || t.JRecord? then Some(t)
    else if t.JNull? then None
    else prototype
  }

  predicate HasField(fields: seq<Field>, name: string) {
    exists i | 0 <= i < |fields| :: fields[i].name == name
  }

  /** The names held by a frozen output and its prototypes. */
  predicate Owns(t: Json, name: string) {
    match t
    case JArray(items) => ArrayOwns(name, |items|)
    case JRecord(fields, prototype) =>
      HasField(fields, name) || (prototype.Some? && Owns(prototype.value, name))
    case _ => false
  }

  /** Assignment throws on a name that the installed prototype holds. */
  predicate Refuses(prototype: Option<Json>, name: string) {
    name != PROTO && prototype.Some? && Owns(prototype.value, name)
  }

  /** `t` has the shape of `v`, with each text replaced by its normalised form. */
  ghost predicate Mirrors(g: Graph, policy: Policy, v: Value, t: Json)
    decreases t
  {
    match t
    case JNull => v.Null?
    case JBool(b) => v == Bool(b)
    case JNumber(n) => v == Number(true, n)
    case JText(text) => v.Text? && policy.boundedText(v.text) == Some(text)
    case JArray(items) =>
      v.Ref? && v.target in g && v.target.isArray && MirrorsItems(g, policy, g[v.target], items)
    case JRecord(fields, prototype) =>
      v.Ref? && v.target in g && !v.target.isArray &&
      MirrorsFields(g, policy, Kept(g[v.target]), fields) &&
      MirrorsInstalled(g, policy, InstalledBy(g[v.target]), prototype)
  }

  ghost predicate MirrorsInstalled(g: Graph, policy: Policy, v: Value, prototype: Option<Json>)
    decreases prototype
  {
    if v.Ref? then prototype.Some? && Mirrors(g, policy, v, prototype.value) else prototype.None?
  }

  ghost predicate MirrorsItems(g: Graph, policy: Policy, entries: seq<(string, Value)>, items: seq<Json>)
    decreases items
  {
    |items| == |entries| && forall i | 0 <= i < |items| :: Mirrors(g, policy, entries[i].1, items[i])
  }

  ghost predicate MirrorsFields(g: Graph, policy: Policy, kept: seq<(string, Value)>, fields: seq<Field>)
    decreases fields
  {
    |fields| == |kept| &&
    forall i | 0 <= i < |fields| :: fields[i].name == kept[i].0 && Mirrors(g, policy, kept[i].1, fields[i].value)
  }

  // ----- the names an output holds are those its original holds -----

  lemma {:induction false} KeptNames(entries: seq<(string, Value)>, name: string)
    ensures HasName(Kept(entries), name) <==> name != PROTO && HasName(entries, name)
  {
    if entries != [] {
      var n := |entries| - 1;
      KeptNames(entries[..n], name);
      LastName(entries[..n], entries[n], name);
      LastName(Kept(entries[..n]), entries[n], name);
      assert entries[..n] + [entries[n]] == entries;
      assert Kept(entries[..n]) + [] == Kept(entries[..n]);
      hide HasName;
    }
  }

  lemma LastName(entries: seq<(string, Value)>, last: (string, Value), name: string)
    ensures HasName(entries + [last], name) <==> HasName(entries, name) || last.0 == name
  {
    var longer := entries + [last];
    if HasName(entries, name) {
      var i :| 0 <= i < |entries| && entries[i].0 == name;
      assert longer[i].0 == name;
    }
    assert longer[|entries|] == last;
  }

  lemma FieldNames(g: Graph, policy: Policy, kept: seq<(string, Value)>, fields: seq<Field>, name: string)
    requires MirrorsFields(g, policy, kept, fields)
    ensures HasField(fields, name) <==> HasName(kept, name)
  {
    if HasField(fields, name) {
      var i :| 0 <= i < |fields| && fields[i].name == name;
      assert kept[i].0 == name;
    }
    if HasName(kept, name) {
      var i :| 0 <= i < |kept| && kept[i].0 == name;
      assert fields[i].name == name;
    }
  }

  lemma HoldsUnfolds(g: Graph, v: Value, name: string)
    ensures Holds(g, v, name) <==>
            v.Ref? &&
            (OwnsHere(g, v.target, name) ||
             (v.target in g && !v.target.isArray && Holds(g, InstalledBy(g[v.target]), name)))
  {
    hide OwnsHere, InstalledBy;
    if v.Ref? && OwnsHere(g, v.target, name) {
      assert OwnsAt(g, v, name, 0);
    }
    if v.Ref? && v.target in g && !v.target.isArray {
      var next := InstalledBy(g[v.target]);
      if n: nat :| OwnsAt(g, next, name, n) {
        assert Link(g, v, n + 1) == Link(g, next, n);
        assert OwnsAt(g, v, name, n + 1);
      }
      if n: nat :| OwnsAt(g, v, name, n) {
        if n > 0 {
          assert OwnsAt(g, next, name, n - 1);
        }
      }
    }
  }

  lemma {:induction false} OwnsWhatIsHeld(g: Graph, policy: Policy, v: Value, t: Json, name: string)
    requires Mirrors(g, policy, v, t)
    ensures Owns(t, name) <==> Holds(g, v, name)
    decreases t
  {
    hide Holds, ArrayOwns, HasName, HasField, InstalledBy, Kept;
    HoldsUnfolds(g, v, name);
    match t
    case JRecord(fields, prototype) =>
      var entries := g[v.target];
      KeptNames(entries, name);
      FieldNames(g, policy, Kept(entries), fields, name);
      if prototype.Some? {
        OwnsWhatIsHeld(g, policy, InstalledBy(entries), prototype.value, name);
      } else {
        HoldsUnfolds(g, InstalledBy(entries), name);
      }
    case _ =>
  }

  /** Assignment of entry `i` is refused exactly when its name is shadowed. */
  lemma RefusedExactly(g: Graph, policy: Policy, entries: seq<(string, Value)>, i: nat, prototype: Option<Json>)
    requires i < |entries| && MirrorsInstalled(g, policy, InstalledBy(entries[..i]), prototype)
    ensures Unshadowed(g, entries, i) ==> (Unshadowed(g, entries, i + 1) <==> !Refuses(prototype, entries[i].0))
    ensures Refuses(prototype, entries[i].0) ==> !Unshadowed(g, entries, |entries|)
  {
    var v := InstalledBy(entries[..i]);
    HoldsUnfolds(g, v, entries[i].0);
    if v.Ref? {
      OwnsWhatIsHeld(g, policy, v, prototype.value, entries[i].0);
    }
    hide Holds, Owns, Mirrors;
  }

  lemma InstalledExtends(g: Graph, policy: Policy, entries: seq<(string, Value)>, i: nat, prototype: Option<Json>, t: Json)
    requires i < |entries| && MirrorsInstalled(g, policy, InstalledBy(entries[..i]), prototype)
    requires Mirrors(g, policy, entries[i].1, t)
    ensures MirrorsInstalled(g, policy, InstalledBy(entries[..i + 1]), Installed(prototype, entries[i].0, t))
  {
    assert entries[..i + 1][..i] == entries[..i];
  }

  /** What acceptance of a container says about one of its entries. */
  lemma EntryOfAcceptable(g: Graph, policy: Policy, o: JsObject, i: nat, depth: nat)
    requires Closed(g) && o in g && i < |g[o]| && Acceptable(g, policy, Ref(o), depth)
    ensures Acceptable(g, policy, g[o][i].1, depth + 1)
  {
    hide AcceptableAt;
    var child := g[o][i].1;
    forall path | Follow(g, child, path).Some?
      ensures AcceptableAt(g, policy, Follow(g, child, path).value, depth + 1 + |path|)
    {
      FollowThroughEntry(g, o, i, path);
      hide Follow;
      assert |[i] + path| == 1 + |path|;
    }
  }

  lemma EntryOfUnshared(g: Graph, o: JsObject, i: nat)
    requires Closed(g) && o in g && i < |g[o]| && Unshared(g, Ref(o))
    ensures Unshared(g, g[o][i].1) && !Reaches(g, g[o][i].1, Ref(o))
  {
    var child := g[o][i].1;
    forall p, q | Follow(g, child, p).Some? && Follow(g, child, p).value.Ref? && Follow(g, child, p) == Follow(g, child, q)
      ensures p == q
    {
      FollowThroughEntry(g, o, i, p);
      FollowThroughEntry(g, o, i, q);
      hide Follow;
      assert ([i] + p)[1..] == p && ([i] + q)[1..] == q;
    }
    assert Follow(g, Ref(o), []) == Some(Ref(o));
    forall p
      ensures Follow(g, child, p) != Some(Ref(o))
    {
      FollowThroughEntry(g, o, i, p);
      hide Follow;
      assert [i] + p != [];
    }
  }

  /** Two entries of an unshared container reach no common container. */
  lemma EntriesOfUnshared(g: Graph, o: JsObject, i: nat, j: nat, x: JsObject)
    requires Closed(g) && o in g && i < j < |g[o]| && Unshared(g, Ref(o))
    ensures !(Reaches(g, g[o][i].1, Ref(x)) && Reaches(g, g[o][j].1, Ref(x)))
  {
    if Reaches(g, g[o][i].1, Ref(x)) && Reaches(g, g[o][j].1, Ref(x)) {
      var p :| Follow(g, g[o][i].1, p) == Some(Ref(x));
      var q :| Follow(g, g[o][j].1, q) == Some(Ref(x));
      assert ([i] + p)[0] != ([j] + q)[0];
      FollowThroughEntry(g, o, i, p);
      FollowThroughEntry(g, o, j, q);
    }
  }

  lemma ApartEntry(g: Graph, o: JsObject, i: nat, nodes: set<JsObject>)
    requires Closed(g) && o in g && i < |g[o]| && Apart(g, Ref(o), nodes)
    ensures Apart(g, g[o][i].1, nodes)
  {
    forall x | x in nodes
      ensures !Reaches(g, g[o][i].1, Ref(x))
    {
      if Reaches(g, g[o][i].1, Ref(x)) {
        var p :| Follow(g, g[o][i].1, p) == Some(Ref(x));
        FollowThroughEntry(g, o, i, p);
      }
    }
  }

  ghost function ReachedBy(g: Graph, v: Value): set<JsObject>
    requires Closed(g) && Inside(g.Keys, v)
  {
    set x | x in g && Reaches(g, v, Ref(x))
  }

  ghost function ReachedByEntries(g: Graph, o: JsObject, n: nat): set<JsObject>
    requires Closed(g) && o in g && n <= |g[o]|
  {
    set x | x in g && exists i :: 0 <= i < n && Reaches(g, g[o][i].1, Ref(x))
  }

  /** The first `n` entries of `o`, normalised in order with `taken` already seen, all succeed. */
  ghost predicate EntriesAccepted(g: Graph, policy: Policy, o: JsObject, n: nat, depth: nat, taken: set<JsObject>)
    requires Closed(g) && o in g && n <= |g[o]|
  {
    forall i | 0 <= i < n ::
      Acceptable(g, policy, g[o][i].1, depth + 1) && Unshared(g, g[o][i].1) &&
      Apart(g, g[o][i].1, taken + {o} + ReachedByEntries(g, o, i))
  }

  lemma FollowIntoEntry(g: Graph, o: JsObject, path: seq<nat>, x: JsObject)
    requires Closed(g) && o in g && path != [] && Follow(g, Ref(o), path) == Some(Ref(x))
    ensures path[0] < |g[o]| && Follow(g, g[o][path[0]].1, path[1..]) == Some(Ref(x))
    ensures Reaches(g, g[o][path[0]].1, Ref(x))
    ensures forall n | path[0] < n <= |g[o]| :: x in ReachedByEntries(g, o, n)
  {
    var child := g[o][path[0]].1;
    assert Follow(g, child, path[1..]) == Some(Ref(x));
    assert Reaches(g, child, Ref(x));
  }

  lemma ReachedSplits(g: Graph, o: JsObject)
    requires Closed(g) && o in g
    ensures ReachedBy(g, Ref(o)) == {o} + ReachedByEntries(g, o, |g[o]|)
  {
    assert Follow(g, Ref(o), []) == Some(Ref(o));
    forall x | x in ReachedBy(g, Ref(o)) && x != o
      ensures x in ReachedByEntries(g, o, |g[o]|)
    {
      var path :| Follow(g, Ref(o), path) == Some(Ref(x));
      FollowIntoEntry(g, o, path, x);
    }
    forall x | x in ReachedByEntries(g, o, |g[o]|)
      ensures x in ReachedBy(g, Ref(o))
    {
      var i :| 0 <= i < |g[o]| && Reaches(g, g[o][i].1, Ref(x));
      var path :| Follow(g, g[o][i].1, path) == Some(Ref(x));
      FollowThroughEntry(g, o, i, path);
    }
  }

  lemma EntryIsNew(g: Graph, policy: Policy, o: JsObject, depth: nat, taken: set<JsObject>, path: seq<nat>, x: JsObject)
    requires Closed(g) && o in g && EntriesAccepted(g, policy, o, |g[o]|, depth, taken)
    requires path != [] && Follow(g, Ref(o), path) == Some(Ref(x))
    ensures x !in taken && x != o && path[0] < |g[o]| && x !in ReachedByEntries(g, o, path[0])
  {
    FollowIntoEntry(g, o, path, x);
    assert Apart(g, g[o][path[0]].1, taken + {o} + ReachedByEntries(g, o, path[0]));
  }

  lemma PathsAgree(g: Graph, policy: Policy, o: JsObject, depth: nat, taken: set<JsObject>,
                   p: seq<nat>, q: seq<nat>, x: JsObject)
    requires Closed(g) && o in g && EntriesAccepted(g, policy, o, |g[o]|, depth, taken)
    requires Follow(g, Ref(o), p) == Some(Ref(x)) == Follow(g, Ref(o), q)
    ensures p == q
  {
    if p != [] {
      EntryIsNew(g, policy, o, depth, taken, p, x);
      FollowIntoEntry(g, o, p, x);
    }
    if q != [] {
      EntryIsNew(g, policy, o, depth, taken, q, x);
      FollowIntoEntry(g, o, q, x);
    }
    if p != [] {
      assert p[0] == q[0] && Unshared(g, g[o][p[0]].1);
      assert p[1..] == q[1..];
      assert p == [p[0]] + p[1..] && q == [q[0]] + q[1..];
    }
  }

  /** A container whose entries are all accepted is accepted itself. */
  lemma ContainerAccepted(g: Graph, policy: Policy, o: JsObject, depth: nat, taken: set<JsObject>)
    requires Closed(g) && o in g && o !in taken
    requires AcceptableAt(g, policy, Ref(o), depth)
    requires EntriesAccepted(g, policy, o, |g[o]|, depth, taken)
    ensures Succeeds(g, policy, Ref(o), depth, taken)
  {
    var v := Ref(o);
    forall path | Follow(g, v, path).Some?
      ensures AcceptableAt(g, policy, Follow(g, v, path).value, depth + |path|)
    {
      if path != [] {
        assert Acceptable(g, policy, g[o][path[0]].1, depth + 1);
        assert Follow(g, g[o][path[0]].1, path[1..]) == Follow(g, v, path);
        assert depth + 1 + |path[1..]| == depth + |path|;
      }
    }
    forall p, q | Follow(g, v, p).Some? && Follow(g, v, p).value.Ref? && Follow(g, v, p) == Follow(g, v, q)
      ensures p == q
    {
      PathsAgree(g, policy, o, depth, taken, p, q, Follow(g, v, p).value.target);
    }
    forall x, path | Follow(g, v, path) == Some(Ref(x))
      ensures x !in taken
    {
      if path != [] {
        EntryIsNew(g, policy, o, depth, taken, path, x);
      }
    }
  }

  /** If the container would be accepted, so is its next entry once the earlier ones are seen. */
  lemma NextEntryAccepted(g: Graph, policy: Policy, o: JsObject, i: nat, depth: nat, taken: set<JsObject>)
    requires Closed(g) && o in g && i < |g[o]|
    requires Acceptable(g, policy, Ref(o), depth) && Unshared(g, Ref(o)) && Apart(g, Ref(o), taken)
    ensures Acceptable(g, policy, g[o][i].1, depth + 1) && Unshared(g, g[o][i].1)
    ensures Apart(g, g[o][i].1, taken + {o} + ReachedByEntries(g, o, i))
  {
    EntryOfAcceptable(g, policy, o, i, depth);
    EntryOfUnshared(g, o, i);
    ApartEntry(g, o, i, taken);
    forall x | x in ReachedByEntries(g, o, i)
      ensures !Reaches(g, g[o][i].1, Ref(x))
    {
      var j :| 0 <= j < i && Reaches(g, g[o][j].1, Ref(x));
      EntriesOfUnshared(g, o, j, i, x);
    }
  }

  /** A record the field walk rejects could not have been accepted. */
  lemma WalkRejectsOnlyUnacceptable(g: Graph, policy: Policy, v: Value, depth: nat)
    requires Closed(g) && Inside(g.Keys, v)
    requires ReachesForbiddenField(g, policy.unsafeName, v)
    ensures !Acceptable(g, policy, v, depth)
  {
    var path :|
      Follow(g, v, path).Some? && HasForbiddenField(g, policy.unsafeName, Follow(g, v, path).value);
    var x := Follow(g, v, path).value;
    var i :| 0 <= i < |g[x.target]| && policy.unsafeName(g[x.target][i].0);
    assert !SafeName(policy, g[x.target][i].0);
  }

  lemma FieldsExtend(g: Graph, policy: Policy, entries: seq<(string, Value)>, i: nat, fields: seq<Field>, t: Json)
    requires i < |entries|
    requires MirrorsFields(g, policy, Kept(entries[..i]), fields) && Mirrors(g, policy, entries[i].1, t)
    ensures MirrorsFields(g, policy, Kept(entries[..i + 1]), Assign(fields, entries[i].0, t))
  {
    assert entries[..i + 1][..i] == entries[..i];
  }

  /** Values without entries: null, booleans, numbers and texts, or a type error. */
  method NormalizeScalar(ghost g: Graph, policy: Policy, v: Value, depth: nat, ghost taken: set<JsObject>)
    returns (r: Option<Json>)
    requires Closed(g) && !v.Ref?
    ensures r.Some? <==> Succeeds(g, policy, v, depth, taken)
    ensures r.Some? ==> Mirrors(g, policy, v, r.value)
    ensures ReachedBy(g, v) == {}
  {
    assert Follow(g, v, []) == Some(v);
    match v
    case Null => r := Some(JNull);
    case Bool(b) => r := Some(JBool(b));
    case Number(finite, n) => r := if finite then Some(JNumber(n)) else None;
    case Text(text) =>
      var normalized := policy.boundedText(text);
      r := if normalized.Some? then Some(JText(normalized.value)) else None;
    case Opaque => r := None;
  }

  lemma NoEntryYet(g: Graph, policy: Policy, o: JsObject, depth: nat, taken: set<JsObject>)
    requires Closed(g) && o in g
    ensures EntriesAccepted(g, policy, o, 0, depth, taken) && ReachedByEntries(g, o, 0) == {}
  {}

  lemma NextEntryDone(g: Graph, policy: Policy, o: JsObject, i: nat, depth: nat, taken: set<JsObject>)
    requires Closed(g) && o in g && i < |g[o]|
    requires EntriesAccepted(g, policy, o, i, depth, taken)
    requires Succeeds(g, policy, g[o][i].1, depth + 1, taken + {o} + ReachedByEntries(g, o, i))
    ensures EntriesAccepted(g, policy, o, i + 1, depth, taken)
    ensures ReachedByEntries(g, o, i + 1) == ReachedByEntries(g, o, i) + ReachedBy(g, g[o][i].1)
  {}

  /** One recursive call, for the entry at `i` once the entries before it have succeeded. */
  method NormalizeEntry(ghost heap: set<JsObject>, policy: Policy, o: JsObject, i: nat, depth: nat,
                        ghost taken: set<JsObject>, seen: SeenSet)
    returns (t: Option<Json>)
    requires Closed(Snapshot(heap)) && o in heap && i < |o.entries| && depth < MAX_DEPTH
    requires EntriesAccepted(Snapshot(heap), policy, o, i, depth, taken)
    requires seen.nodes == taken + {o} + ReachedByEntries(Snapshot(heap), o, i) && seen.nodes <= heap
    modifies seen
    ensures seen.nodes <= heap
    ensures t.None? ==> !Succeeds(Snapshot(heap), policy, Ref(o), depth, taken)
    ensures t.Some? ==>
              Mirrors(Snapshot(heap), policy, o.entries[i].1, t.value) &&
              EntriesAccepted(Snapshot(heap), policy, o, i + 1, depth, taken) &&
              seen.nodes == taken + {o} + ReachedByEntries(Snapshot(heap), o, i + 1)
    decreases MAX_DEPTH - depth, 0
  {
    ghost var g := Snapshot(heap);
    var child := o.entries[i].1;
    assert Inside(heap, child) by { assert EntriesInside(g[o], g.Keys); }
    t := Normalize(heap, policy, child, depth + 1, seen);
    if t.None? {
      if Succeeds(g, policy, Ref(o), depth, taken) {
        NextEntryAccepted(g, policy, o, i, depth, taken);
      }
    } else {
      NextEntryDone(g, policy, o, i, depth, taken);
    }
  }

  method NormalizeItems(ghost heap: set<JsObject>, policy: Policy, o: JsObject, depth: nat,
                        ghost taken: set<JsObject>, seen: SeenSet)
    returns (r: Option<Json>)
    requires Closed(Snapshot(heap)) && o in heap && o.isArray && depth < MAX_DEPTH && o !in taken
    requires seen.nodes == taken + {o} && seen.nodes <= heap
    modifies seen
    ensures seen.nodes <= heap
    ensures r.Some? <==> Succeeds(Snapshot(heap), policy, Ref(o), depth, taken)
    ensures r.Some? ==> Mirrors(Snapshot(heap), policy, Ref(o), r.value)
    ensures r.Some? ==> seen.nodes == taken + ReachedBy(Snapshot(heap), Ref(o))
    decreases MAX_DEPTH - depth, 1
  {
    hide Acceptable, Unshared, Apart, EntriesAccepted, Succeeds, ReachedBy, ReachedByEntries;
    ghost var g := Snapshot(heap);
    NoEntryYet(g, policy, o, depth, taken);
    var items: seq<Json> := [];
    var i := 0;
    while i < |o.entries|
      invariant 0 <= i <= |o.entries| && Snapshot(heap) == g
      invariant seen.nodes == taken + {o} + ReachedByEntries(g, o, i) && seen.nodes <= heap
      invariant EntriesAccepted(g, policy, o, i, depth, taken)
      invariant MirrorsItems(g, policy, g[o][..i], items)
    {
      var t := NormalizeEntry(heap, policy, o, i, depth, taken, seen);
      if t.None? {
        return None;
      }
      items := items + [t.value];
      i := i + 1;
    }
    assert g[o][..i] == g[o];
    ContainerAccepted(g, policy, o, depth, taken);
    ReachedSplits(g, o);
    return Some(JArray(items));
  }

  lemma UnsafeNameFails(g: Graph, policy: Policy, o: JsObject, i: nat, depth: nat, taken: set<JsObject>)
    requires Closed(g) && o in g && !o.isArray && i < |g[o]| && !SafeName(policy, g[o][i].0)
    ensures !Succeeds(g, policy, Ref(o), depth, taken)
  {
    assert Follow(g, Ref(o), []) == Some(Ref(o));
    assert !AcceptableAt(g, policy, Ref(o), depth);
  }

  lemma NothingAssigned(g: Graph, policy: Policy, entries: seq<(string, Value)>)
    ensures Unshadowed(g, entries, 0) && MirrorsFields(g, policy, Kept(entries[..0]), [])
    ensures MirrorsInstalled(g, policy, InstalledBy(entries[..0]), None)
  {}

  lemma EverythingAssigned(g: Graph, policy: Policy, o: JsObject, fields: seq<Field>, prototype: Option<Json>)
    requires o in g && !o.isArray
    requires MirrorsFields(g, policy, Kept(g[o]), fields) && MirrorsInstalled(g, policy, InstalledBy(g[o]), prototype)
    ensures Mirrors(g, policy, Ref(o), JRecord(fields, prototype))
  {}

  lemma ShadowedFails(g: Graph, policy: Policy, o: JsObject, depth: nat, taken: set<JsObject>)
    requires Closed(g) && o in g && !o.isArray && !Unshadowed(g, g[o], |g[o]|)
    ensures !Succeeds(g, policy, Ref(o), depth, taken)
  {
    assert Follow(g, Ref(o), []) == Some(Ref(o));
    assert !AcceptableAt(g, policy, Ref(o), depth);
  }

  method NormalizeFields(ghost heap: set<JsObject>, policy: Policy, o: JsObject, depth: nat,
                         ghost taken: set<JsObject>, seen: SeenSet)
    returns (r: Option<Json>)
    requires Closed(Snapshot(heap)) && o in heap && !o.isArray && depth < MAX_DEPTH && o !in taken
    requires |o.entries| <= MAX_KEYS
    requires seen.nodes == taken + {o} && seen.nodes <= heap
    modifies seen
    ensures seen.nodes <= heap
    ensures r.Some? <==> Succeeds(Snapshot(heap), policy, Ref(o), depth, taken)
    ensures r.Some? ==> Mirrors(Snapshot(heap), policy, Ref(o), r.value)
    ensures r.Some? ==> seen.nodes == taken + ReachedBy(Snapshot(heap), Ref(o))
    decreases MAX_DEPTH - depth, 1
  {
    hide Acceptable, Unshared, Apart, EntriesAccepted, Succeeds, ReachedBy, ReachedByEntries, Unshadowed, Mirrors, Refuses,
         MirrorsFields, MirrorsInstalled, Kept, InstalledBy;
    ghost var g := Snapshot(heap);
    NoEntryYet(g, policy, o, depth, taken);
    NothingAssigned(g, policy, g[o]);
    var fields: seq<Field> := [];
    var prototype: Option<Json> := None;
    var i := 0;
    while i < |o.entries|
      invariant 0 <= i <= |o.entries| && Snapshot(heap) == g
      invariant seen.nodes == taken + {o} + ReachedByEntries(g, o, i) && seen.nodes <= heap
      invariant SafeNames(policy, g[o][..i])
      invariant EntriesAccepted(g, policy, o, i, depth, taken)
      invariant Unshadowed(g, g[o], i)
      invariant MirrorsFields(g, policy, Kept(g[o][..i]), fields)
      invariant MirrorsInstalled(g, policy, InstalledBy(g[o][..i]), prototype)
    {
      var fieldName := o.entries[i].0;
      if !SafeName(policy, fieldName) {
        UnsafeNameFails(g, policy, o, i, depth, taken);
        return None;
      }
      var t := NormalizeEntry(heap, policy, o, i, depth, taken, seen);
      if t.None? {
        return None;
      }
      RefusedExactly(g, policy, g[o], i, prototype);
      if Refuses(prototype, fieldName) {
        ShadowedFails(g, policy, o, depth, taken);
        return None;
      }
      FieldsExtend(g, policy, g[o], i, fields, t.value);
      InstalledExtends(g, policy, g[o], i, prototype, t.value);
      fields := Assign(fields, fieldName, t.value);
      prototype := Installed(prototype, fieldName, t.value);
      i := i + 1;
    }
    assert g[o][..i] == g[o];
    EverythingAssigned(g, policy, o, fields, prototype);
    ContainerAccepted(g, policy, o, depth, taken);
    ReachedSplits(g, o);
    return Some(JRecord(fields, prototype));
  }

  /**
   The normaliser.  It succeeds exactly when every path from `v` is acceptable at its depth, no
   container is reached twice and none was seen before; the result then mirrors `v`.
   */
  method Normalize(ghost heap: set<JsObject>, policy: Policy, v: Value, depth: nat, seen: SeenSet)
    returns (r: Option<Json>)
    requires Closed(Snapshot(heap)) && Inside(heap, v) && seen.nodes <= heap
    modifies seen
    ensures seen.nodes <= heap
    ensures r.Some? <==> Succeeds(Snapshot(heap), policy, v, depth, old(seen.nodes))
    ensures r.Some? ==> Mirrors(Snapshot(heap), policy, v, r.value)
    ensures r.Some? ==> seen.nodes == old(seen.nodes) + ReachedBy(Snapshot(heap), v)
    decreases MAX_DEPTH - depth, 2
  {
    ghost var g := Snapshot(heap);
    if !v.Ref? {
      r := NormalizeScalar(g, policy, v, depth, seen.nodes);
      return;
    }
    assert Follow(g, v, []) == Some(v) && Reaches(g, v, v);
    var o := v.target;
    ghost var taken := seen.nodes;
    if depth >= MAX_DEPTH || o in seen.nodes {
      return None;
    }
    seen.nodes := seen.nodes + {o};
    if o.isArray {
      r := NormalizeItems(heap, policy, o, depth, taken, seen);
      return;
    }
    var rejected := RejectForbiddenFields(heap, policy.unsafeName, v);
    if rejected {
      WalkRejectsOnlyUnacceptable(g, policy, v, depth);
      return None;
    }
    if |o.entries| > MAX_KEYS {
      return None;
    }
    r := NormalizeFields(heap, policy, o, depth, taken, seen);
  }

  /** The entry point: depth 0 and nothing seen. */
  method NormalizeCommandJsonValue(ghost heap: set<JsObject>, policy: Policy, v: Value)
    returns (r: Option<Json>)
    requires Closed(Snapshot(heap)) && Inside(heap, v)
    ensures r.Some? <==> Acceptable(Snapshot(heap), policy, v, 0) && Unshared(Snapshot(heap), v)
    ensures r.Some? ==> Mirrors(Snapshot(heap), policy, v, r.value)
  {
    var seen := new SeenSet();
    r := Normalize(heap, policy, v, 0, seen);
  }

  /** The value of `{"__proto__": {"a": null}, "a": null}`, as parsed JSON. */
  ghost predicate IsShadowedExample(g: Graph, o: JsObject, p: JsObject) {
    && o != p && !o.isArray && !p.isArray
    && g == map[o := [(PROTO, Ref(p)), ("a", Null)], p := [("a", Null)]]
  }

  /** It passes every other check, yet its last assignment throws; without the shadowed entry it is accepted. */
  lemma ShadowedNameIsRefused(g: Graph, policy: Policy, o: JsObject, p: JsObject)
    requires IsShadowedExample(g, o, p) && SafeName(policy, PROTO) && SafeName(policy, "a")
    ensures Closed(g) && Unshared(g, Ref(o)) && SafeNames(policy, g[o]) && SafeNames(policy, g[p])
    ensures AcceptableAt(g, policy, Ref(p), 1) && AcceptableAt(g, policy, Null, 2)
    ensures !Acceptable(g, policy, Ref(o), 0)
  {
    hide SafeName;
    ExampleIsUnshared(g, o, p);
    assert g[o][..1] == [g[o][0]];
    assert g[p][..0] == [];
    assert InstalledBy(g[o][..1]) == Ref(p);
    assert g[p][0].0 == "a";
    assert OwnsHere(g, p, "a");
    HoldsUnfolds(g, Ref(p), "a");
    HoldsUnfolds(g, Null, "a");
    hide Holds, OwnsHere;
    assert g[o][1].0 == "a" && !Unshadowed(g, g[o], 2);
    assert Follow(g, Ref(o), []) == Some(Ref(o));
    assert !AcceptableAt(g, policy, Ref(o), 0);
  }

  lemma ExampleIsUnshared(g: Graph, o: JsObject, p: JsObject)
    requires IsShadowedExample(g, o, p)
    ensures Closed(g) && Unshared(g, Ref(o))
  {
    forall path
      ensures Follow(g, Ref(o), path) == Some(Ref(o)) ==> path == []
      ensures Follow(g, Ref(o), path) == Some(Ref(p)) ==> path == [0]
    {
      if path != [] {
        ExamplePath(g, o, p, path);
      }
    }
  }

  lemma ExamplePath(g: Graph, o: JsObject, p: JsObject, path: seq<nat>)
    requires IsShadowedExample(g, o, p) && Closed(g) && path != []
    ensures if path == [0] then Follow(g, Ref(o), path) == Some(Ref(p)) else Follow(g, Ref(o), path) in {None, Some(Null)}
  {
    var rest := path[1..];
    if path[0] == 0 && rest != [] {
      assert Follow(g, Ref(o), path) == Follow(g, Ref(p), rest);
      assert rest[0] == 0 ==> Follow(g, Ref(p), rest) == Follow(g, Null, rest[1..]);
    } else if path[0] == 1 {
      assert Follow(g, Ref(o), path) == Follow(g, Null, rest);
    } else if path[0] == 0 {
      assert path == [path[0]] + rest;
      assert Follow(g, Ref(o), path) == Follow(g, Ref(p), rest);
    }
  }
}
