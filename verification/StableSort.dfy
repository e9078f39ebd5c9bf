/** A stable sort by a comparison function, as Array.prototype.sort provides. */
module StableSort {
  function Insert<T>(compare: (T, T) -> int, x: T, s: seq<T>): seq<T> {
    if s == [] || compare(x, s[0]) < 0 then [x] + s else [s[0]] + Insert(compare, x, s[1..])
  }

  function Sort<T>(compare: (T, T) -> int, s: seq<T>): seq<T> {
    if s == [] then [] else Insert(compare, s[|s| - 1], Sort(compare, s[..|s| - 1]))
  }

  ghost predicate TotalPreorder<T(!new)>(compare: (T, T) -> int) {
    && (forall x, y :: compare(x, y) < 0 ==> compare(y, x) >= 0)
    && (forall x, y :: compare(x, y) >= 0 ==> compare(y, x) <= 0)
    && (forall x, y, z :: compare(x, y) <= 0 && compare(y, z) <= 0 ==> compare(x, z) <= 0)
  }

  ghost predicate AtLeast<T>(compare: (T, T) -> int, low: T, s: seq<T>) {
    forall j | 0 <= j < |s| :: compare(low, s[j]) <= 0
  }

  ghost predicate Sorted<T>(compare: (T, T) -> int, s: seq<T>) {
    forall i | 0 <= i < |s| :: AtLeast(compare, s[i], s[i + 1..])
  }

  lemma {:induction false} InsertKeeps<T>(compare: (T, T) -> int, x: T, s: seq<T>)
    ensures multiset(Insert(compare, x, s)) == multiset(s) + multiset{x}
  {
    if s != [] && compare(x, s[0]) >= 0 {
      InsertKeeps(compare, x, s[1..]);
      assert s == [s[0]] + s[1..];
    }
  }

  lemma {:induction false} SortKeeps<T>(compare: (T, T) -> int, s: seq<T>)
    ensures multiset(Sort(compare, s)) == multiset(s)
  {
    if s != [] {
      SortKeeps(compare, s[..|s| - 1]);
      InsertKeeps(compare, s[|s| - 1], Sort(compare, s[..|s| - 1]));
      assert s == s[..|s| - 1] + [s[|s| - 1]];
    }
  }

  lemma {:induction false} InsertStaysAtLeast<T>(compare: (T, T) -> int, low: T, x: T, s: seq<T>)
    requires compare(low, x) <= 0 && AtLeast(compare, low, s)
    ensures AtLeast(compare, low, Insert(compare, x, s))
  {
    if s != [] && compare(x, s[0]) >= 0 {
      InsertStaysAtLeast(compare, low, x, s[1..]);
    }
  }

  lemma LowerStillAtLeast<T(!new)>(compare: (T, T) -> int, low: T, mid: T, s: seq<T>)
    requires TotalPreorder(compare) && compare(low, mid) <= 0 && AtLeast(compare, mid, s)
    ensures AtLeast(compare, low, s)
  {}

  lemma SortedPrepends<T>(compare: (T, T) -> int, x: T, s: seq<T>)
    requires Sorted(compare, s) && AtLeast(compare, x, s)
    ensures Sorted(compare, [x] + s)
  {
    var longer := [x] + s;
    forall i | 0 <= i < |longer|
      ensures AtLeast(compare, longer[i], longer[i + 1..])
    {
      assert longer[i + 1..] == if i == 0 then s else s[i..];
      assert i > 0 ==> AtLeast(compare, s[i - 1], s[i - 1 + 1..]);
    }
  }

  lemma SortedTail<T>(compare: (T, T) -> int, s: seq<T>)
    requires s != [] && Sorted(compare, s)
    ensures AtLeast(compare, s[0], s[1..]) && Sorted(compare, s[1..])
  {
    assert AtLeast(compare, s[0], s[0 + 1..]);
    forall i | 0 <= i < |s| - 1
      ensures AtLeast(compare, s[1..][i], s[1..][i + 1..])
    {
      assert AtLeast(compare, s[i + 1], s[i + 1 + 1..]);
      assert s[1..][i + 1..] == s[i + 1 + 1..];
    }
  }

  lemma {:induction false} InsertSorts<T(!new)>(compare: (T, T) -> int, x: T, s: seq<T>)
    requires TotalPreorder(compare) && Sorted(compare, s)
    ensures Sorted(compare, Insert(compare, x, s))
  {
    if s == [] {
      assert [x][1..] == [];
    } else {
      SortedTail(compare, s);
      assert compare(x, s[0]) >= 0 ==> compare(s[0], x) <= 0;
      hide AtLeast, Sorted;
      if compare(x, s[0]) < 0 {
        LowerStillAtLeast(compare, x, s[0], s[1..]);
        AtLeastPrepends(compare, x, s);
        SortedPrepends(compare, x, s);
      } else {
        InsertSorts(compare, x, s[1..]);
        InsertStaysAtLeast(compare, s[0], x, s[1..]);
        SortedPrepends(compare, s[0], Insert(compare, x, s[1..]));
      }
    }
  }

  lemma AtLeastPrepends<T>(compare: (T, T) -> int, low: T, s: seq<T>)
    requires s != [] && compare(low, s[0]) <= 0 && AtLeast(compare, low, s[1..])
    ensures AtLeast(compare, low, s)
  {
    assert forall j | 0 < j < |s| :: s[j] == s[1..][j - 1];
  }

  lemma SortedPairs<T>(compare: (T, T) -> int, s: seq<T>, i: nat, j: nat)
    requires Sorted(compare, s) && i < j < |s|
    ensures compare(s[i], s[j]) <= 0
  {
    assert AtLeast(compare, s[i], s[i + 1..]);
    assert s[i + 1..][j - i - 1] == s[j];
  }

  lemma {:induction false} SortSorts<T(!new)>(compare: (T, T) -> int, s: seq<T>)
    requires TotalPreorder(compare)
    ensures Sorted(compare, Sort(compare, s))
  {
    if s != [] {
      SortSorts(compare, s[..|s| - 1]);
      InsertSorts(compare, s[|s| - 1], Sort(compare, s[..|s| - 1]));
    }
  }

  // ----- stability -----

  /** The elements that compare equal to this one, in order. */
  function Ties<T>(compare: (T, T) -> int, v: T, s: seq<T>): seq<T> {
    if s == [] then [] else (if compare(s[0], v) == 0 then [s[0]] else []) + Ties(compare, v, s[1..])
  }

  ghost predicate Antisymmetric<T(!new)>(compare: (T, T) -> int) {
    forall x, y :: compare(x, y) < 0 <==> compare(y, x) > 0
  }

  lemma {:induction false} TiesAppend<T>(compare: (T, T) -> int, v: T, s: seq<T>, t: seq<T>)
    ensures Ties(compare, v, s + t) == Ties(compare, v, s) + Ties(compare, v, t)
  {
    if s == [] {
      assert s + t == t;
    } else {
      var first := if compare(s[0], v) == 0 then [s[0]] else [];
      var more, rest := Ties(compare, v, s[1..]), Ties(compare, v, t);
      assert (s + t)[1..] == s[1..] + t;
      assert Ties(compare, v, s + t) == first + Ties(compare, v, s[1..] + t);
      assert Ties(compare, v, s) == first + more;
      TiesAppend(compare, v, s[1..], t);
      hide Ties;
      assert first + (more + rest) == first + more + rest;
    }
  }

  lemma {:induction false} NoTiesAbove<T(!new)>(compare: (T, T) -> int, v: T, x: T, low: T, s: seq<T>)
    requires TotalPreorder(compare) && Antisymmetric(compare)
    requires compare(x, low) < 0 && compare(x, v) == 0 && AtLeast(compare, low, s)
    ensures Ties(compare, v, s) == []
  {
    if s != [] {
      assert compare(low, s[0]) <= 0 && compare(v, x) <= 0 && compare(low, x) > 0;
      assert compare(low, v) > 0;
      assert forall j | 0 <= j < |s[1..]| :: s[1..][j] == s[j + 1];
      NoTiesAbove(compare, v, x, low, s[1..]);
    }
  }

  lemma {:induction false} InsertTies<T(!new)>(compare: (T, T) -> int, v: T, x: T, s: seq<T>)
    requires TotalPreorder(compare) && Antisymmetric(compare) && Sorted(compare, s)
    ensures Ties(compare, v, Insert(compare, x, s)) == Ties(compare, v, s) + Ties(compare, v, [x])
  {
    if s == [] {
      assert [] + [x] == [x];
    } else {
      SortedTail(compare, s);
      assert [x][1..] == [] && ([x] + s)[1..] == s;
      if compare(x, s[0]) < 0 {
        if compare(x, v) == 0 {
          NoTiesAbove(compare, v, x, s[0], s[1..]);
          assert compare(s[0], v) != 0;
        }
      } else {
        InsertTies(compare, v, x, s[1..]);
        assert ([s[0]] + Insert(compare, x, s[1..]))[1..] == Insert(compare, x, s[1..]);
      }
    }
  }

  /** Elements that compare equal keep their order. */
  lemma {:induction false} SortIsStable<T(!new)>(compare: (T, T) -> int, v: T, s: seq<T>)
    requires TotalPreorder(compare) && Antisymmetric(compare)
    ensures Ties(compare, v, Sort(compare, s)) == Ties(compare, v, s)
  {
    hide TotalPreorder, Antisymmetric, Sorted;
    if s != [] {
      var before, last := s[..|s| - 1], s[|s| - 1];
      SortIsStable(compare, v, before);
      SortSorts(compare, before);
      InsertTies(compare, v, last, Sort(compare, before));
      TiesAppend(compare, v, before, [last]);
      assert s == before + [last];
    }
  }
}
