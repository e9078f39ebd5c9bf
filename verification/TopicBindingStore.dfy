/**
 The in-memory topic binding store.  Its state is a JavaScript Map from serialised keys to snapshots,
 with the Map's insertion order; `model` is the plain map from normalised keys that it stands for.
 */
module TopicBindingStore {
  import opened Common
  import opened UriComponent
  import opened TopicBinding
  import opened StableSort

  /** cloneTopicBindingSnapshot: a stored snapshot may refuse to be cloned again. */
  function Read(forbidden: Text -> bool, s: Snapshot): Result<Snapshot, Failure> {
    CreateSnapshot(forbidden, s)
  }

  predicate AllReadable(forbidden: Text -> bool, model: map<Key, Snapshot>) {
    forall k | k in model :: Read(forbidden, model[k]).Ok?
  }

  /** The snapshots of the model, each once. */
  ghost predicate Enumerates(model: map<Key, Snapshot>, list: seq<Snapshot>) {
    && (forall i | 0 <= i < |list| :: list[i].key in model && model[list[i].key] == list[i])
    && (forall i, j | 0 <= i < j < |list| :: list[i].key != list[j].key)
    && (forall k | k in model :: exists i :: 0 <= i < |list| && list[i].key == k)
  }

  ghost predicate SortedByKey(compare: (string, string) -> int, list: seq<Snapshot>) {
    forall i, j | 0 <= i < j < |list| :: NotAfter(compare, list[i], list[j])
  }

  ghost predicate NotAfter(compare: (string, string) -> int, a: Snapshot, b: Snapshot) {
    Format(a.key).Ok? && Format(b.key).Ok? && compare(Format(a.key).value, Format(b.key).value) <= 0
  }

  /** The snapshots of the model whose key has this workspace, each once. */
  ghost predicate EnumeratesWorkspace(model: map<Key, Snapshot>, workspaceId: Text, list: seq<Snapshot>) {
    && (forall i | 0 <= i < |list| ::
          list[i].key in model && model[list[i].key] == list[i] && list[i].key.workspaceId == workspaceId)
    && (forall i, j | 0 <= i < j < |list| :: list[i].key != list[j].key)
    && (forall k | k in model && k.workspaceId == workspaceId :: exists i :: 0 <= i < |list| && list[i].key == k)
  }

  function InWorkspace(list: seq<Snapshot>, workspaceId: Text): seq<Snapshot> {
    if list == [] then []
    else
      InWorkspace(list[..|list| - 1], workspaceId) +
      if list[|list| - 1].key.workspaceId == workspaceId then [list[|list| - 1]] else []
  }

  /** Filtering keeps exactly the snapshots of the workspace. */
  lemma {:induction false} InWorkspaceHolds(list: seq<Snapshot>, workspaceId: Text)
    ensures forall s :: s in InWorkspace(list, workspaceId) <==> s in list && s.key.workspaceId == workspaceId
  {
    if list != [] {
      InWorkspaceHolds(list[..|list| - 1], workspaceId);
      assert list == list[..|list| - 1] + [list[|list| - 1]];
    }
  }

  /** Two snapshots of a list have different keys, and come in the order of their formats. */
  ghost predicate InOrder(compare: (string, string) -> int, sorted: bool, a: Snapshot, b: Snapshot) {
    a.key != b.key && (sorted ==> NotAfter(compare, a, b))
  }

  ghost predicate AllInOrder(compare: (string, string) -> int, sorted: bool, list: seq<Snapshot>) {
    forall i, j | 0 <= i < j < |list| :: InOrder(compare, sorted, list[i], list[j])
  }

  lemma {:induction false} InWorkspaceKeepsOrder(compare: (string, string) -> int, sorted: bool, list: seq<Snapshot>,
                                                 workspaceId: Text)
    requires AllInOrder(compare, sorted, list)
    ensures AllInOrder(compare, sorted, InWorkspace(list, workspaceId))
  {
    hide InOrder;
    if list != [] {
      var before, last := list[..|list| - 1], list[|list| - 1];
      InWorkspaceKeepsOrder(compare, sorted, before, workspaceId);
      InWorkspaceHolds(before, workspaceId);
      var kept, all := InWorkspace(before, workspaceId), InWorkspace(list, workspaceId);
      assert all == kept || all == kept + [last];
      forall i, j | 0 <= i < j < |all|
        ensures InOrder(compare, sorted, all[i], all[j])
      {
        if j == |kept| {
          assert kept[i] in before;
          var k :| 0 <= k < |before| && before[k] == kept[i];
          assert InOrder(compare, sorted, list[k], list[|list| - 1]);
        }
      }
    }
  }

  lemma InWorkspaceIsSorted(compare: (string, string) -> int, list: seq<Snapshot>, workspaceId: Text)
    requires SortedByKey(compare, list) && forall i, j | 0 <= i < j < |list| :: list[i].key != list[j].key
    ensures SortedByKey(compare, InWorkspace(list, workspaceId))
  {
    hide NotAfter;
    assert AllInOrder(compare, true, list);
    InWorkspaceKeepsOrder(compare, true, list, workspaceId);
    hide InWorkspace;
  }

  lemma InWorkspaceIsDistinct(list: seq<Snapshot>, workspaceId: Text)
    requires forall i, j | 0 <= i < j < |list| :: list[i].key != list[j].key
    ensures var kept := InWorkspace(list, workspaceId);
            forall i, j | 0 <= i < j < |kept| :: kept[i].key != kept[j].key
  {
    hide NotAfter;
    var compare := (x: string, y: string) => 0;
    assert AllInOrder(compare, false, list);
    InWorkspaceKeepsOrder(compare, false, list, workspaceId);
    hide InWorkspace;
  }

  lemma EnumeratedKeysDiffer(model: map<Key, Snapshot>, list: seq<Snapshot>)
    requires Enumerates(model, list)
    ensures forall i, j | 0 <= i < j < |list| :: list[i].key != list[j].key
  {}

  /** So filtering an enumeration of the model enumerates the workspace. */
  lemma InWorkspaceEnumerates(model: map<Key, Snapshot>, list: seq<Snapshot>, workspaceId: Text)
    requires Enumerates(model, list)
    ensures EnumeratesWorkspace(model, workspaceId, InWorkspace(list, workspaceId))
  {
    var kept := InWorkspace(list, workspaceId);
    InWorkspaceHolds(list, workspaceId);
    InWorkspaceIsDistinct(list, workspaceId);
    hide InWorkspace;
    forall i | 0 <= i < |kept|
      ensures kept[i].key in model && model[kept[i].key] == kept[i] && kept[i].key.workspaceId == workspaceId
    {
      assert kept[i] in kept;
    }
    forall k | k in model && k.workspaceId == workspaceId
      ensures exists i :: 0 <= i < |kept| && kept[i].key == k
    {
      var i :| 0 <= i < |list| && list[i].key == k;
      assert list[i] in kept;
    }
  }

  /** The serialised map stands for the plain one: same snapshots, keys replaced by their formats. */
  ghost predicate Refines(forbidden: Text -> bool, bindings: map<string, Snapshot>, model: map<Key, Snapshot>) {
    && (forall k | k in model ::
          Format(k).Ok? && Format(k).value in bindings && bindings[Format(k).value] == model[k] && model[k].key == k)
    && (forall s | s in bindings ::
          bindings[s].key in model && Format(bindings[s].key) == Ok(s) &&
          Read(forbidden, bindings[s]) in {Ok(bindings[s]), Err(TypeError)})
  }

  /** The keys of a Map in insertion order. */
  ghost predicate Orders(order: seq<string>, bindings: map<string, Snapshot>) {
    && (forall s :: s in order <==> s in bindings)
    && (forall i, j | 0 <= i < j < |order| :: order[i] != order[j])
  }

  lemma KeysAgree(forbidden: Text -> bool, bindings: map<string, Snapshot>, model: map<Key, Snapshot>, key: Key)
    requires Refines(forbidden, bindings, model) && Format(key).Ok?
    ensures key in model <==> Format(key).value in bindings
    ensures key in model ==> model[key] == bindings[Format(key).value]
  {
    hide Format, Read;
    var s := Format(key).value;
    if s in bindings {
      FormatIsInjective(bindings[s].key, key);
    }
  }

  lemma RefinesAfterSet(forbidden: Text -> bool, bindings: map<string, Snapshot>, model: map<Key, Snapshot>,
                        s: string, snapshot: Snapshot)
    requires Refines(forbidden, bindings, model) && Format(snapshot.key) == Ok(s)
    requires Read(forbidden, snapshot) in {Ok(snapshot), Err(TypeError)}
    ensures Refines(forbidden, bindings[s := snapshot], model[snapshot.key := snapshot])
  {
    hide Format, Read;
    forall k | k in model && Format(k) == Ok(s)
      ensures k == snapshot.key
    {
      FormatIsInjective(k, snapshot.key);
    }
  }

  lemma RefinesAfterDelete(forbidden: Text -> bool, bindings: map<string, Snapshot>, model: map<Key, Snapshot>,
                           s: string, key: Key)
    requires Refines(forbidden, bindings, model) && Format(key) == Ok(s)
    ensures Refines(forbidden, bindings - {s}, model - {key})
  {
    hide Format, Read;
    forall k | k in model && Format(k) == Ok(s)
      ensures k == key
    {
      FormatIsInjective(k, key);
    }
  }

  function Without(order: seq<string>, s: string): seq<string> {
    if order == [] then []
    else Without(order[..|order| - 1], s) + if order[|order| - 1] == s then [] else [order[|order| - 1]]
  }

  lemma {:induction false} WithoutRemoves(order: seq<string>, s: string)
    ensures forall t :: t in Without(order, s) <==> t in order && t != s
    ensures (forall i, j | 0 <= i < j < |order| :: order[i] != order[j]) ==>
            forall i, j | 0 <= i < j < |Without(order, s)| :: Without(order, s)[i] != Without(order, s)[j]
  {
    if order != [] {
      var before, last := order[..|order| - 1], order[|order| - 1];
      WithoutRemoves(before, s);
      assert order == before + [last];
      var kept := Without(before, s);
      assert forall i | 0 <= i < |kept| :: kept[i] in kept;
      assert forall i | 0 <= i < |before| :: before[i] == order[i];
      assert forall t | t in before :: exists i :: 0 <= i < |before| && before[i] == t;
    }
  }

  lemma OrdersAfterSet(order: seq<string>, bindings: map<string, Snapshot>, s: string, snapshot: Snapshot)
    requires Orders(order, bindings)
    ensures Orders(if s in bindings then order else order + [s], bindings[s := snapshot])
  {}

  lemma OrdersAfterDelete(order: seq<string>, bindings: map<string, Snapshot>, s: string)
    requires Orders(order, bindings)
    ensures Orders(Without(order, s), bindings - {s})
  {
    WithoutRemoves(order, s);
  }

  /** The clones made so far while listing the first `|list|` of `keys`. */
  ghost predicate ClonesOf(forbidden: Text -> bool, bindings: map<string, Snapshot>, keys: seq<string>, list: seq<Snapshot>) {
    |list| <= |keys| &&
    forall j | 0 <= j < |list| ::
      keys[j] in bindings && list[j] == bindings[keys[j]] && Read(forbidden, list[j]).Ok?
  }

  lemma SortedKeys(compare: (string, string) -> int, order: seq<string>, bindings: map<string, Snapshot>)
    requires Orders(order, bindings)
    ensures Orders(Sort(compare, order), bindings)
    ensures TotalPreorder(compare) ==> Sorted(compare, Sort(compare, order))
  {
    var keys := Sort(compare, order);
    SortKeeps(compare, order);
    if TotalPreorder(compare) {
      SortSorts(compare, order);
    }
    assert forall s :: s in keys <==> s in multiset(keys);
    assert forall s :: s in order <==> s in multiset(order);
    DistinctByCount(order, keys);
  }

  lemma {:induction false} CountsOne(order: seq<string>, s: string)
    requires forall i, j | 0 <= i < j < |order| :: order[i] != order[j]
    ensures multiset(order)[s] <= 1
  {
    if order != [] {
      CountsOne(order[1..], s);
      assert order == [order[0]] + order[1..];
    }
  }

  lemma DistinctByCount(order: seq<string>, keys: seq<string>)
    requires multiset(keys) == multiset(order)
    requires forall i, j | 0 <= i < j < |order| :: order[i] != order[j]
    ensures forall i, j | 0 <= i < j < |keys| :: keys[i] != keys[j]
  {
    forall i, j | 0 <= i < j < |keys|
      ensures keys[i] != keys[j]
    {
      CountsOne(order, keys[i]);
      CountsTwo(keys, i, j);
    }
  }

  lemma CountsTwo(keys: seq<string>, i: nat, j: nat)
    requires i < j < |keys|
    ensures keys[i] == keys[j] ==> multiset(keys)[keys[i]] >= 2
  {
    assert keys == keys[..j] + keys[j..];
    assert keys[i] in keys[..j] && keys[j] in keys[j..];
  }

  lemma ClonesEnumerate(forbidden: Text -> bool, bindings: map<string, Snapshot>, model: map<Key, Snapshot>,
                        keys: seq<string>, list: seq<Snapshot>)
    requires Refines(forbidden, bindings, model) && Orders(keys, bindings)
    requires ClonesOf(forbidden, bindings, keys, list) && |list| == |keys|
    ensures Enumerates(model, list) && AllReadable(forbidden, model)
    ensures forall j | 0 <= j < |list| :: Format(list[j].key) == Ok(keys[j])
  {
    hide Format, Read;
    forall k | k in model
      ensures exists i :: 0 <= i < |list| && list[i].key == k && list[i] == model[k]
    {
      var i :| 0 <= i < |keys| && keys[i] == Format(k).value;
      assert list[i] == bindings[keys[i]];
    }
  }

  lemma SortedFromKeys(compare: (string, string) -> int, keys: seq<string>, list: seq<Snapshot>)
    requires Sorted(compare, keys) && |list| == |keys|
    requires forall j | 0 <= j < |list| :: Format(list[j].key) == Ok(keys[j])
    ensures SortedByKey(compare, list)
  {
    hide Format, Sorted;
    forall i, j | 0 <= i < j < |list|
      ensures NotAfter(compare, list[i], list[j])
    {
      SortedPairs(compare, keys, i, j);
    }
  }

  lemma NothingCloned(forbidden: Text -> bool, bindings: map<string, Snapshot>, keys: seq<string>)
    ensures ClonesOf(forbidden, bindings, keys, [])
  {}

  /** The next clone either extends the list or shows that the model cannot be listed. */
  lemma NextClone(forbidden: Text -> bool, bindings: map<string, Snapshot>, model: map<Key, Snapshot>,
                  keys: seq<string>, list: seq<Snapshot>)
    requires Refines(forbidden, bindings, model) && Orders(keys, bindings)
    requires ClonesOf(forbidden, bindings, keys, list) && |list| < |keys|
    ensures keys[|list|] in bindings
    ensures match Read(forbidden, bindings[keys[|list|]])
            case Ok(clone) => ClonesOf(forbidden, bindings, keys, list + [clone])
            case Err(_) => !AllReadable(forbidden, model)
  {
    hide Format, Read;
    var s := keys[|list|];
    assert s in keys;
    assert model[bindings[s].key] == bindings[s];
  }

  lemma CreatedIsNormalized(forbidden: Text -> bool, input: Snapshot, stored: Snapshot)
    requires CreateSnapshot(forbidden, input) == Ok(stored)
    ensures SerializeKey(stored.key) == Format(stored.key)
    ensures Format(stored.key).Err? ==> Format(stored.key) == Err(UriError)
    ensures Read(forbidden, stored) == if SettledSnapshot(input) then Ok(stored) else Err(TypeError)
  {
    CreateTwice(forbidden, input, stored);
  }

  /** What `get` returns for a key, read off the model. */
  function Find(forbidden: Text -> bool, model: map<Key, Snapshot>, input: Key): Result<Option<Snapshot>, Failure> {
    match SerializeKey(input)
    case Err(e) => Err(e)
    case Ok(_) =>
      var key := CreateKey(input).value;
      if key !in model then Ok(None)
      else if Read(forbidden, model[key]).Ok? then Ok(Some(model[key]))
      else Err(TypeError)
  }

  class Store {
    const forbidden: Text -> bool
    const localeCompare: (string, string) -> int
    var bindings: map<string, Snapshot>
    var order: seq<string>
    ghost var model: map<Key, Snapshot>

    ghost predicate Valid()
      reads this
    {
      Refines(forbidden, bindings, model) && Orders(order, bindings)
    }

    constructor (forbidden: Text -> bool, localeCompare: (string, string) -> int)
      ensures Valid() && model == map[]
      ensures this.forbidden == forbidden && this.localeCompare == localeCompare
    {
      this.forbidden := forbidden;
      this.localeCompare := localeCompare;
      bindings := map[];
      order := [];
      model := map[];
    }

    /**
     Replaces the binding of the normalised key.  The binding is stored even when the clone that should
     be returned cannot be made.
     */
    method Upsert(input: Snapshot) returns (r: Result<Snapshot, Failure>)
      requires Valid()
      modifies this
      ensures Valid()
      ensures match CreateSnapshot(forbidden, input)
              case Err(e) => r == Err(e) && model == old(model)
              case Ok(made) =>
                if Format(made.key).Err? then r == Err(UriError) && model == old(model)
                else
                  model == old(model)[made.key := made] &&
                  r == if SettledSnapshot(input) then Ok(made) else Err(TypeError)
    {
      hide CreateSnapshot, SettledSnapshot, Read, Format, SerializeKey, CreateKey, Refines, Orders;
      var created := CreateSnapshot(forbidden, input);
      if created.Err? {
        return created;
      }
      var stored := created.value;
      CreatedIsNormalized(forbidden, input, stored);
      var key := SerializeKey(stored.key);
      if key.Err? {
        return Err(key.error);
      }
      RefinesAfterSet(forbidden, bindings, model, key.value, stored);
      OrdersAfterSet(order, bindings, key.value, stored);
      if key.value !in bindings {
        order := order + [key.value];
      }
      bindings := bindings[key.value := stored];
      model := model[stored.key := stored];
      r := Read(forbidden, stored);
    }

    method Get(input: Key) returns (r: Result<Option<Snapshot>, Failure>)
      requires Valid()
      ensures r == Find(forbidden, model, input)
    {
      var key := SerializeKey(input);
      if key.Err? {
        return Err(key.error);
      }
      KeysAgree(forbidden, bindings, model, CreateKey(input).value);
      if key.value !in bindings {
        return Ok(None);
      }
      hide Format, CreateKey;
      var clone := Read(forbidden, bindings[key.value]);
      r := if clone.Ok? then Ok(Some(clone.value)) else Err(clone.error);
    }

    method Delete(input: Key) returns (r: Result<bool, Failure>)
      requires Valid()
      modifies this
      ensures Valid()
      ensures match SerializeKey(input)
              case Err(e) => r == Err(e) && model == old(model)
              case Ok(_) =>
                var key := CreateKey(input).value;
                r == Ok(key in old(model)) && model == old(model) - {key}
    {
      var key := SerializeKey(input);
      if key.Err? {
        return Err(key.error);
      }
      ghost var normalized := CreateKey(input).value;
      KeysAgree(forbidden, bindings, model, normalized);
      RefinesAfterDelete(forbidden, bindings, model, key.value, normalized);
      OrdersAfterDelete(order, bindings, key.value);
      hide Format, CreateKey, SerializeKey, Refines, Orders, Without;
      r := Ok(key.value in bindings);
      bindings := bindings - {key.value};
      order := Without(order, key.value);
      model := model - {normalized};
    }

    method Clear()
      requires Valid()
      modifies this
      ensures Valid() && model == map[]
    {
      bindings := map[];
      order := [];
      model := map[];
    }

    /** Every snapshot once, sorted by serialised key; it throws when some snapshot cannot be cloned. */
    method List() returns (r: Result<seq<Snapshot>, Failure>)
      requires Valid()
      ensures r.Ok? <==> AllReadable(forbidden, model)
      ensures r.Ok? ==> Enumerates(model, r.value)
      ensures r.Ok? && TotalPreorder(localeCompare) ==> SortedByKey(localeCompare, r.value)
    {
      var keys := Sort(localeCompare, order);
      SortedKeys(localeCompare, order, bindings);
      hide Read, Refines, Orders, ClonesOf, Sort, TotalPreorder, Enumerates, AllReadable, Sorted, SortedByKey;
      var list: seq<Snapshot> := [];
      NothingCloned(forbidden, bindings, keys);
      while |list| < |keys|
        invariant |list| <= |keys| && ClonesOf(forbidden, bindings, keys, list)
      {
        NextClone(forbidden, bindings, model, keys, list);
        var clone := Read(forbidden, bindings[keys[|list|]]);
        if clone.Err? {
          return Err(clone.error);
        }
        list := list + [clone.value];
      }
      ClonesEnumerate(forbidden, bindings, model, keys, list);
      if Sorted(localeCompare, keys) {
        SortedFromKeys(localeCompare, keys, list);
      }
      return Ok(list);
    }

    /** Every snapshot of the trimmed workspace once, sorted by serialised key. */
    method ListByWorkspace(workspaceId: Text) returns (r: Result<seq<Snapshot>, Failure>)
      requires Valid()
      ensures r.Ok? <==> AllReadable(forbidden, model)
      ensures r.Ok? ==> EnumeratesWorkspace(model, Trim(workspaceId), r.value)
      ensures r.Ok? && TotalPreorder(localeCompare) ==> SortedByKey(localeCompare, r.value)
    {
      hide Enumerates, EnumeratesWorkspace, SortedByKey, TotalPreorder, AllReadable, Trim, Refines, Orders;
      var listed := List();
      if listed.Err? {
        return listed;
      }
      var found: seq<Snapshot> := [];
      var i := 0;
      while i < |listed.value|
        invariant 0 <= i <= |listed.value|
        invariant found == InWorkspace(listed.value[..i], Trim(workspaceId))
      {
        assert listed.value[..i + 1][..i] == listed.value[..i];
        if listed.value[i].key.workspaceId == Trim(workspaceId) {
          found := found + [listed.value[i]];
        }
        i := i + 1;
      }
      assert listed.value[..i] == listed.value;
      InWorkspaceEnumerates(model, listed.value, Trim(workspaceId));
      if SortedByKey(localeCompare, listed.value) {
        EnumeratedKeysDiffer(model, listed.value);
        InWorkspaceIsSorted(localeCompare, listed.value, Trim(workspaceId));
      }
      return Ok(found);
    }
  }
}
