/** JavaScript strings as sequences of 16-bit UTF-16 code units. */
module CodeUnits {
  type Unit = bv16
  type Units = seq<Unit>

  /** The UTF-16 code units of a text. */
  function Encode(s: string): Units {
    if s == "" then [] else CharUnits(s[0]) + Encode(s[1..])
  }

  function CharUnits(c: char): Units {
    var n := c as int;
    if n < 0x1_0000 then [UnitOf(n)]
    else [UnitOf(0xD800 + (n - 0x1_0000) / 0x400), UnitOf(0xDC00 + (n - 0x1_0000) % 0x400)]
  }

  function UnitOf(n: nat): Unit
    requires n < 0x1_0000
  {
    Pack(Nibble(n / 0x10 / 0x10 / 0x10), Nibble(n / 0x10 / 0x10 % 0x10), Nibble(n / 0x10 % 0x10), Nibble(n % 0x10))
  }

  function Nibble(d: nat): Unit
    requires d < 16
  {
    [0, 1, 2, 3, 4, 5, 6, 7, 8, 9, 10, 11, 12, 13, 14, 15][d]
  }

  function Pack(a: Unit, b: Unit, c: Unit, d: Unit): Unit {
    (a << 12) | (b << 8) | (c << 4) | d
  }

  /** A character beyond U+FFFF becomes a high and a low surrogate that spell its code point. */
  lemma AstralUnits(c: char)
    requires c as int >= 0x1_0000
    ensures exists high, low ::
              && 0xD800 <= high < 0xDC00 <= low < 0xE000 && CharUnits(c) == [UnitOf(high), UnitOf(low)]
              && c as int == 0x1_0000 + (high - 0xD800) * 0x400 + (low - 0xDC00)
  {
    var n := c as int - 0x1_0000;
    hide UnitOf;
    assert CharUnits(c) == [UnitOf(0xD800 + n / 0x400), UnitOf(0xDC00 + n % 0x400)];
    assert n == n / 0x400 * 0x400 + n % 0x400;
  }

  predicate IsAscii(s: string) {
    forall i | 0 <= i < |s| :: s[i] as int < 128
  }

  /** Equal in length and different at exactly one position. */
  ghost predicate DifferInOne<T>(s: seq<T>, t: seq<T>) {
    |s| == |t| && exists i :: 0 <= i < |s| && s[i] != t[i] && s[..i] == t[..i] && s[i + 1..] == t[i + 1..]
  }

  lemma NibbleIsExact(c: nat, d: nat)
    requires c < 16 && d < 16
    ensures Nibble(c) <= 15 && (Nibble(c) == Nibble(d) ==> c == d)
  {}

  lemma NibbleReads(d: nat)
    requires d < 16
    ensures Nibble(d) as nat == d
  {}

  lemma PackIsInjective(a: Unit, b: Unit, c: Unit, d: Unit, a': Unit, b': Unit, c': Unit, d': Unit)
    requires a <= 15 && b <= 15 && c <= 15 && d <= 15 && a' <= 15 && b' <= 15 && c' <= 15 && d' <= 15
    requires Pack(a, b, c, d) == Pack(a', b', c', d')
    ensures a == a' && b == b' && c == c' && d == d'
  {}

  lemma SameQuotientAndRemainder(m: nat, n: nat)
    requires m / 0x10 == n / 0x10 && m % 0x10 == n % 0x10
    ensures m == n
  {}

  lemma EqualNibbles(c: nat, d: nat)
    requires c < 16 && d < 16
    ensures Nibble(c) <= 15 && Nibble(d) <= 15 && (Nibble(c) == Nibble(d) ==> c == d)
  {
    NibbleIsExact(c, d);
    NibbleIsExact(d, c);
  }

  lemma UnitOfIsInjective(m: nat, n: nat)
    requires m < 0x1_0000 && n < 0x1_0000 && UnitOf(m) == UnitOf(n)
    ensures m == n
  {
    hide Nibble, Pack;
    var a, b, c, d := m / 0x10 / 0x10 / 0x10, m / 0x10 / 0x10 % 0x10, m / 0x10 % 0x10, m % 0x10;
    var a', b', c', d' := n / 0x10 / 0x10 / 0x10, n / 0x10 / 0x10 % 0x10, n / 0x10 % 0x10, n % 0x10;
    EqualNibbles(a, a');
    EqualNibbles(b, b');
    EqualNibbles(c, c');
    EqualNibbles(d, d');
    PackIsInjective(Nibble(a), Nibble(b), Nibble(c), Nibble(d), Nibble(a'), Nibble(b'), Nibble(c'), Nibble(d'));
    SameQuotientAndRemainder(m / 0x10 / 0x10, n / 0x10 / 0x10);
    SameQuotientAndRemainder(m / 0x10, n / 0x10);
    SameQuotientAndRemainder(m, n);
  }

  lemma {:induction false} AsciiCodeUnits(s: string)
    requires IsAscii(s)
    ensures |Encode(s)| == |s| && forall i | 0 <= i < |s| :: Encode(s)[i] == UnitOf(s[i] as int)
  {
    hide UnitOf;
    if s != "" {
      AsciiCodeUnits(s[1..]);
    }
  }

  lemma SameElsewhere(s: string, t: string, i: nat, k: nat)
    requires i < |s| == |t| && s[..i] == t[..i] && s[i + 1..] == t[i + 1..] && k < |s| && k != i
    ensures s[k] == t[k]
  {
    if k < i {
      assert s[..i][k] == t[..i][k];
    } else {
      assert s[i + 1..][k - i - 1] == t[i + 1..][k - i - 1];
    }
  }

  lemma CodeUnitsKeepDifference(s: string, t: string)
    requires DifferInOne(s, t) && IsAscii(s) && IsAscii(t)
    ensures DifferInOne(Encode(s), Encode(t))
  {
    var i :| 0 <= i < |s| && s[i] != t[i] && s[..i] == t[..i] && s[i + 1..] == t[i + 1..];
    assert s[i] as int < 128 && t[i] as int < 128;
    AsciiCodeUnits(s);
    AsciiCodeUnits(t);
    hide UnitOf, IsAscii, Encode;
    if UnitOf(s[i] as int) == UnitOf(t[i] as int) {
      UnitOfIsInjective(s[i] as int, t[i] as int);
    }
    SameMap(s, t, Encode(s), Encode(t), i);
  }

  lemma SameMap(s: string, t: string, x: Units, y: Units, i: nat)
    requires i < |s| == |t| == |x| == |y| && s[..i] == t[..i] && s[i + 1..] == t[i + 1..] && x[i] != y[i]
    requires forall k | 0 <= k < |s| && s[k] == t[k] :: x[k] == y[k]
    ensures DifferInOne(x, y)
  {
    forall k | 0 <= k < |s| && k != i
      ensures x[k] == y[k]
    {
      SameElsewhere(s, t, i, k);
    }
    assert x[..i] == y[..i] && x[i + 1..] == y[i + 1..];
  }
}
