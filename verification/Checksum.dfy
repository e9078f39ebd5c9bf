/**
 The polynomial checksum modulo 65521 used for approval requirement refs (seed 23, multiplier 33) and
 for synthetic output refs (seed 17, multiplier 31).
 */
module Checksum {
  import opened Common
  import opened CodeUnits
  import Hex

  const MODULUS := 65521

  /** `char.charCodeAt(0)` while iterating by code points: an astral character gives its high surrogate. */
  function Code(c: char): (n: nat)
    ensures n < 0x1_0000
  {
    var p := c as int;
    if p < 0x1_0000 then p else 0xD800 + (p - 0x1_0000) / 0x400
  }

  /** It is the first code unit of the character. */
  lemma CodeIsFirstUnit(c: char)
    ensures CharUnits(c)[0] == UnitOf(Code(c))
  {
    hide UnitOf;
  }

  function Step(multiplier: nat, checksum: nat, c: char): nat {
    (checksum * multiplier + Code(c)) % MODULUS
  }

  function Fold(multiplier: nat, checksum: nat, s: string): nat
    decreases |s|
  {
    if s == "" then checksum else Fold(multiplier, Step(multiplier, checksum, s[0]), s[1..])
  }

  method ChecksumSafe(seed: nat, multiplier: nat, value: string) returns (checksum: nat)
    ensures checksum == Fold(multiplier, seed, value)
  {
    checksum := seed;
    var i := 0;
    while i < |value|
      invariant 0 <= i <= |value|
      invariant Fold(multiplier, checksum, value[i..]) == Fold(multiplier, seed, value)
    {
      assert value[i..][1..] == value[i + 1..];
      checksum := (checksum * multiplier + Code(value[i])) % MODULUS;
      i := i + 1;
    }
  }

  function Power(b: nat, e: nat): nat {
    if e == 0 then 1 else b * Power(b, e - 1)
  }

  /** The sum of code(s[i]) * multiplier^(n-1-i). */
  function Weighted(multiplier: nat, s: string): int {
    if s == "" then 0 else Code(s[0]) * Power(multiplier, |s| - 1) + Weighted(multiplier, s[1..])
  }

  lemma ModAdds(x: int, y: int, z: int)
    requires x % MODULUS == y % MODULUS
    ensures (x + z) % MODULUS == (y + z) % MODULUS
  {}

  lemma ModScales(x: int, y: int, k: int)
    requires x % MODULUS == y % MODULUS
    ensures (x * k) % MODULUS == (y * k) % MODULUS
  {
    var q := x / MODULUS - y / MODULUS;
    assert x == y + MODULUS * q;
    assert x * k == y * k + MODULUS * (q * k);
    ModDropsMultiple(y * k, q * k);
  }

  lemma ModDropsMultiple(x: int, q: int)
    ensures (x + MODULUS * q) % MODULUS == x % MODULUS
  {}

  lemma HornerStep(multiplier: nat, checksum: nat, c: char, p: nat, w: int)
    ensures (Step(multiplier, checksum, c) * p + w) % MODULUS ==
            (checksum * (multiplier * p) + (Code(c) * p + w)) % MODULUS
  {
    var exact := checksum * multiplier + Code(c);
    ModScales(exact % MODULUS, exact, p);
    ModAdds(exact % MODULUS * p, exact * p, w);
    assert exact * p == checksum * (multiplier * p) + Code(c) * p;
  }

  /** The closed form of the loop. */
  lemma {:induction false} ClosedForm(multiplier: nat, checksum: nat, s: string)
    ensures Fold(multiplier, checksum, s) % MODULUS ==
            (checksum * Power(multiplier, |s|) + Weighted(multiplier, s)) % MODULUS
    decreases |s|
  {
    if s == "" {
      assert Power(multiplier, 0) == 1;
    } else {
      var p, w := Power(multiplier, |s| - 1), Weighted(multiplier, s[1..]);
      assert Power(multiplier, |s|) == multiplier * p;
      assert Weighted(multiplier, s) == Code(s[0]) * p + w;
      var next := Step(multiplier, checksum, s[0]);
      assert Fold(multiplier, checksum, s) == Fold(multiplier, next, s[1..]);
      hide Power, Weighted, Fold, Step, Code;
      ClosedForm(multiplier, next, s[1..]);
      HornerStep(multiplier, checksum, s[0], p, w);
    }
  }

  lemma {:induction false} FoldStaysBelow(multiplier: nat, checksum: nat, s: string)
    requires checksum < MODULUS
    ensures Fold(multiplier, checksum, s) < MODULUS
    decreases |s|
  {
    if s != "" {
      FoldStaysBelow(multiplier, Step(multiplier, checksum, s[0]), s[1..]);
    }
  }

  lemma SixteenBits()
    ensures Hex.Power16(4) == 65536
  {}

  lemma FourDigits(checksum: nat)
    requires checksum < MODULUS
    ensures |Hex.Print(checksum, 4)| == 4 && Hex.Value(Hex.Print(checksum, 4)) == checksum
    ensures forall i | 0 <= i < 4 :: Hex.Print(checksum, 4)[i] < 16
  {
    SixteenBits();
    Hex.PrintIsExact(checksum, 4);
  }

  lemma SmallRemainder(n: nat)
    requires n < MODULUS
    ensures n % MODULUS == n
  {}

  /** The checksum is the weighted sum of the codes, reduced modulo 65521. */
  lemma ChecksumIsExact(multiplier: nat, seed: nat, s: string)
    requires seed < MODULUS
    ensures Fold(multiplier, seed, s) == (seed * Power(multiplier, |s|) + Weighted(multiplier, s)) % MODULUS
  {
    ClosedForm(multiplier, seed, s);
    FoldStaysBelow(multiplier, seed, s);
    hide Fold, Weighted, Power;
    SmallRemainder(Fold(multiplier, seed, s));
  }

  /** It prints as exactly four hexadecimal digits, which determine it. */
  lemma ChecksumPrints(multiplier: nat, seed: nat, s: string)
    requires seed < MODULUS
    ensures |Hex.Print(Fold(multiplier, seed, s), 4)| == 4
    ensures Hex.Value(Hex.Print(Fold(multiplier, seed, s), 4)) == Fold(multiplier, seed, s)
    ensures forall i | 0 <= i < 4 :: Hex.Print(Fold(multiplier, seed, s), 4)[i] < 16
  {
    FoldStaysBelow(multiplier, seed, s);
    hide Fold;
    FourDigits(Fold(multiplier, seed, s));
  }

  // ----- which differences show -----

  /** 33 and 31 are invertible modulo 65521, with inverses 3971 and 25363. */
  predicate Invertible(multiplier: nat) {
    multiplier == 33 || multiplier == 31
  }

  lemma InvertibleCancels(multiplier: nat, d: int, k: int)
    requires Invertible(multiplier) && multiplier * d == MODULUS * k && -MODULUS < d < MODULUS
    ensures d == 0
  {
    if multiplier == 33 {
      assert d == MODULUS * (3971 * k - 2 * d);
    } else {
      assert d == MODULUS * (25363 * k - 12 * d);
    }
  }

  lemma StepIsInjective(multiplier: nat, a: nat, b: nat, c: char)
    requires Invertible(multiplier) && a < MODULUS && b < MODULUS
    requires Step(multiplier, a, c) == Step(multiplier, b, c)
    ensures a == b
  {
    var x, y := a * multiplier + Code(c), b * multiplier + Code(c);
    InvertibleCancels(multiplier, a - b, x / MODULUS - y / MODULUS);
  }

  lemma {:induction false} SameSuffixKeepsDifference(multiplier: nat, a: nat, b: nat, s: string)
    requires Invertible(multiplier) && a < MODULUS && b < MODULUS
    ensures Fold(multiplier, a, s) == Fold(multiplier, b, s) <==> a == b
    decreases |s|
  {
    if s != "" {
      if Step(multiplier, a, s[0]) == Step(multiplier, b, s[0]) {
        StepIsInjective(multiplier, a, b, s[0]);
      }
      SameSuffixKeepsDifference(multiplier, Step(multiplier, a, s[0]), Step(multiplier, b, s[0]), s[1..]);
    }
  }

  lemma {:induction false} FoldSplits(multiplier: nat, checksum: nat, s: string, t: string)
    ensures Fold(multiplier, checksum, s + t) == Fold(multiplier, Fold(multiplier, checksum, s), t)
    decreases |s|
  {
    if s == "" {
      assert s + t == t;
    } else {
      assert (s + t)[1..] == s[1..] + t;
      FoldSplits(multiplier, Step(multiplier, checksum, s[0]), s[1..], t);
    }
  }

  /** Texts that differ at one position collide exactly when the two codes agree modulo 65521. */
  lemma OneCharacterCollidesExactly(multiplier: nat, seed: nat, before: string, c: char, d: char, after: string)
    requires Invertible(multiplier) && seed < MODULUS
    ensures Fold(multiplier, seed, before + [c] + after) == Fold(multiplier, seed, before + [d] + after) <==>
            Code(c) % MODULUS == Code(d) % MODULUS
  {
    var a := Fold(multiplier, seed, before);
    FoldSplits(multiplier, seed, before + [c], after);
    FoldSplits(multiplier, seed, before + [d], after);
    FoldSplits(multiplier, seed, before, [c]);
    FoldSplits(multiplier, seed, before, [d]);
    assert Fold(multiplier, a, [c]) == Step(multiplier, a, c);
    assert Fold(multiplier, a, [d]) == Step(multiplier, a, d);
    SameSuffixKeepsDifference(multiplier, Step(multiplier, a, c), Step(multiplier, a, d), after);
    StepsAgreeExactly(a * multiplier, Code(c), Code(d));
  }

  lemma StepsAgreeExactly(base: nat, m: nat, n: nat)
    ensures (base + m) % MODULUS == (base + n) % MODULUS <==> m % MODULUS == n % MODULUS
  {
    if m % MODULUS == n % MODULUS {
      ModAdds(m, n, base);
    }
    if (base + m) % MODULUS == (base + n) % MODULUS {
      ModAdds(base + m, base + n, 0 - base);
    }
  }

  /** Equal-length ASCII texts that differ in one character print different checksums. */
  lemma AsciiDifferenceShows(multiplier: nat, seed: nat, s: string, t: string)
    requires Invertible(multiplier) && seed < MODULUS && IsAscii(s) && IsAscii(t) && DifferInOne(s, t)
    ensures Hex.Print(Fold(multiplier, seed, s), 4) != Hex.Print(Fold(multiplier, seed, t), 4)
  {
    var i :| 0 <= i < |s| && s[i] != t[i] && s[..i] == t[..i] && s[i + 1..] == t[i + 1..];
    SmallRemainder(Code(s[i]));
    SmallRemainder(Code(t[i]));
    hide Fold, Code, IsAscii, Invertible;
    var before, after := s[..i], s[i + 1..];
    assert s == before + [s[i]] + after && t == before + [t[i]] + after;
    OneCharacterCollidesExactly(multiplier, seed, before, s[i], t[i], after);
    PrintsDiffer(multiplier, seed, s, t);
  }

  lemma PrintsDiffer(multiplier: nat, seed: nat, s: string, t: string)
    requires seed < MODULUS && Fold(multiplier, seed, s) != Fold(multiplier, seed, t)
    ensures Hex.Print(Fold(multiplier, seed, s), 4) != Hex.Print(Fold(multiplier, seed, t), 4)
  {
    hide Fold;
    ChecksumPrints(multiplier, seed, s);
    ChecksumPrints(multiplier, seed, t);
  }
}
