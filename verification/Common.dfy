/** Datatypes and string functions shared by the other modules. */
module Common {
  datatype Option<+T> = None | Some(value: T)

  datatype Result<+T, +E> = Ok(value: T) | Err(error: E)

  function Or<T>(value: Option<T>, fallback: T): T {
    if value.Some? then value.value else fallback
  }

  function Lookup<K, V>(m: map<K, V>, k: K): Option<V> {
    if k in m then Some(m[k]) else None
  }

  /** The `length` of a JavaScript string: characters beyond U+FFFF take two code units. */
  function JsLength(s: string): nat {
    if s == [] then 0 else (if s[0] as int >= 0x1_0000 then 2 else 1) + JsLength(s[1..])
  }

  lemma {:induction false} PlainLength(s: string)
    requires forall i | 0 <= i < |s| :: s[i] as int < 0x1_0000
    ensures JsLength(s) == |s|
  {
    if s != "" {
      PlainLength(s[1..]);
    }
  }

  // ----- trim -----

  /** JavaScript white space and line terminators, by code. */
  predicate IsSpaceCode(n: int) {
    || 9 <= n <= 13 || n == 32 || n == 0xA0 || n == 0x1680 || 0x2000 <= n <= 0x200A
    || n in {0x2028, 0x2029, 0x202F, 0x205F, 0x3000, 0xFEFF}
  }

  function TrimStart<T>(space: T -> bool, s: seq<T>): seq<T> {
    if s != [] && space(s[0]) then TrimStart(space, s[1..]) else s
  }

  function TrimEnd<T>(space: T -> bool, s: seq<T>): seq<T> {
    if s != [] && space(s[|s| - 1]) then TrimEnd(space, s[..|s| - 1]) else s
  }

  function TrimBy<T>(space: T -> bool, s: seq<T>): seq<T> {
    TrimEnd(space, TrimStart(space, s))
  }

  lemma {:induction false} TrimEndKeepsStart<T>(space: T -> bool, s: seq<T>)
    requires s == [] || !space(s[0])
    ensures var r := TrimEnd(space, s); r == [] || (!space(r[0]) && !space(r[|r| - 1]))
  {
    if s != [] && space(s[|s| - 1]) {
      TrimEndKeepsStart(space, s[..|s| - 1]);
    }
  }

  lemma {:induction false} TrimStartStops<T>(space: T -> bool, s: seq<T>)
    ensures var r := TrimStart(space, s); r == [] || !space(r[0])
  {
    if s != [] && space(s[0]) {
      TrimStartStops(space, s[1..]);
    }
  }

  lemma TrimIsIdempotent<T>(space: T -> bool, s: seq<T>)
    ensures TrimBy(space, TrimBy(space, s)) == TrimBy(space, s)
  {
    TrimStartStops(space, s);
    TrimEndKeepsStart(space, TrimStart(space, s));
  }

  predicate IsSpaceChar(c: char) {
    IsSpaceCode(c as int)
  }

  function TrimText(s: string): string {
    TrimBy(IsSpaceChar, s)
  }

  /** Every run of white space becomes one dash; `inRun` says that the run has already begun. */
  function Dashed(s: string, inRun: bool): string {
    if s == "" then ""
    else if !IsSpaceChar(s[0]) then [s[0]] + Dashed(s[1..], false)
    else (if inRun then "" else "-") + Dashed(s[1..], true)
  }

  // ----- join and split on a one-element separator -----

  function Join<T>(sep: T, parts: seq<seq<T>>): seq<T> {
    if parts == [] then []
    else if |parts| == 1 then parts[0]
    else parts[0] + [sep] + Join(sep, parts[1..])
  }

  function Split<T(==)>(sep: T, s: seq<T>): (parts: seq<seq<T>>)
    ensures parts != []
  {
    if s == [] then [[]]
    else
      var rest := Split(sep, s[1..]);
      if s[0] == sep then [[]] + rest else [[s[0]] + rest[0]] + rest[1..]
  }

  lemma {:induction false} SplitAfterPart<T>(sep: T, part: seq<T>, rest: seq<T>)
    requires sep !in part
    ensures Split(sep, part + [sep] + rest) == [part] + Split(sep, rest)
  {
    var s := part + [sep] + rest;
    if part == [] {
      assert s[1..] == rest;
    } else {
      assert s[1..] == part[1..] + [sep] + rest;
      SplitAfterPart(sep, part[1..], rest);
      assert [part[0]] + part[1..] == part;
    }
  }

  lemma {:induction false} SplitOnePart<T>(sep: T, part: seq<T>)
    requires sep !in part
    ensures Split(sep, part) == [part]
  {
    if part != [] {
      SplitOnePart(sep, part[1..]);
      assert [part[0]] + part[1..] == part;
    }
  }

  /** Splitting what was joined gives the parts back, if none of them holds the separator. */
  lemma {:induction false} SplitJoin<T>(sep: T, parts: seq<seq<T>>)
    requires parts != [] && forall i | 0 <= i < |parts| :: sep !in parts[i]
    ensures Split(sep, Join(sep, parts)) == parts
  {
    if |parts| == 1 {
      SplitOnePart(sep, parts[0]);
    } else {
      SplitJoin(sep, parts[1..]);
      SplitAfterPart(sep, parts[0], Join(sep, parts[1..]));
    }
  }

  lemma {:induction false} JoinSplit<T>(sep: T, s: seq<T>)
    ensures Join(sep, Split(sep, s)) == s
    ensures forall i | 0 <= i < |Split(sep, s)| :: sep !in Split(sep, s)[i]
  {
    if s != [] {
      JoinSplit(sep, s[1..]);
      var rest := Split(sep, s[1..]);
      if s[0] != sep {
        assert Split(sep, s)[1..] == rest[1..];
      } else {
        assert Split(sep, s)[1..] == rest;
      }
    }
  }
}
