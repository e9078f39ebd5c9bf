/** `n.toString(16).padStart(width, '0')` as a sequence of digits 0..15, most significant first. */
module Hex {
  function Digits(n: nat): seq<nat> {
    if n < 16 then [n] else Digits(n / 16) + [n % 16]
  }

  function PadStart(ds: seq<nat>, width: nat): seq<nat> {
    if |ds| >= width then ds else seq(width - |ds|, _ => 0) + ds
  }

  function Print(n: nat, width: nat): seq<nat> {
    PadStart(Digits(n), width)
  }

  function Power16(k: nat): nat {
    if k == 0 then 1 else 16 * Power16(k - 1)
  }

  /** The number a digit sequence stands for. */
  function Value(ds: seq<nat>): nat {
    if ds == [] then 0 else 16 * Value(ds[..|ds| - 1]) + ds[|ds| - 1]
  }

  lemma {:induction false} ValueOfDigits(n: nat)
    ensures Value(Digits(n)) == n && forall i | 0 <= i < |Digits(n)| :: Digits(n)[i] < 16
  {
    if n >= 16 {
      ValueOfDigits(n / 16);
      assert Digits(n)[..|Digits(n)| - 1] == Digits(n / 16);
    }
  }

  lemma {:induction false} DigitsFit(n: nat, k: nat)
    requires k >= 1 && n < Power16(k)
    ensures 0 < |Digits(n)| <= k
  {
    if n >= 16 {
      DigitsFit(n / 16, k - 1);
    }
  }

  lemma {:induction false} LeadingZeros(zeros: nat, ds: seq<nat>)
    ensures Value(seq(zeros, _ => 0) + ds) == Value(ds)
    decreases zeros + |ds|
  {
    var padded := seq(zeros, _ => 0) + ds;
    if ds != [] {
      assert padded[..|padded| - 1] == seq(zeros, _ => 0) + ds[..|ds| - 1];
      LeadingZeros(zeros, ds[..|ds| - 1]);
    } else if zeros > 0 {
      assert padded[..|padded| - 1] == seq(zeros - 1, _ => 0) + [];
      LeadingZeros(zeros - 1, []);
    }
  }

  /** Numbers below 16^width print as exactly `width` digits, and the print determines the number. */
  lemma PrintIsExact(n: nat, width: nat)
    requires width >= 1 && n < Power16(width)
    ensures |Print(n, width)| == width && Value(Print(n, width)) == n
    ensures forall i | 0 <= i < width :: Print(n, width)[i] < 16
  {
    DigitsFit(n, width);
    ValueOfDigits(n);
    LeadingZeros(width - |Digits(n)|, Digits(n));
  }

  function Show(ds: seq<nat>): string {
    seq(|ds|, i requires 0 <= i < |ds| => DigitChar(ds[i]))
  }

  function DigitChar(d: nat): char {
    if d < 10 then '0' + d as char else if d < 16 then 'a' + (d - 10) as char else '?'
  }

  lemma ShowIsExact(ds: seq<nat>, es: seq<nat>)
    requires forall i | 0 <= i < |ds| :: ds[i] < 16
    requires forall i | 0 <= i < |es| :: es[i] < 16
    ensures Show(ds) == Show(es) <==> ds == es
    ensures |Show(ds)| == |ds| && forall i | 0 <= i < |ds| :: '0' <= Show(ds)[i] <= '9' || 'a' <= Show(ds)[i] <= 'f'
  {
    if Show(ds) == Show(es) {
      assert |ds| == |Show(ds)| == |Show(es)| == |es|;
      forall i | 0 <= i < |ds|
        ensures ds[i] == es[i]
      {
        assert Show(ds)[i] == Show(es)[i];
      }
    }
  }
}
