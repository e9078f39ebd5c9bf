/**
 encodeURIComponent over arbitrary JavaScript strings, given as UTF-16 code units: unreserved characters
 pass, every other code point becomes the percent-encoded bytes of its UTF-8 form (section 3 of RFC 3629,
 section 2.1 of RFC 3986), and an unpaired surrogate is an error.  A decoder is the independent partner.
 */
module UriComponent {
  import opened Common

  type CodeUnit = u: int | 0 <= u < 0x1_0000
  type Text = seq<CodeUnit>

  predicate IsHigh(u: CodeUnit) { 0xD800 <= u < 0xDC00 }
  predicate IsLow(u: CodeUnit) { 0xDC00 <= u < 0xE000 }

  /** Letters, digits and -_.!~*'() pass through unescaped. */
  predicate Unescaped(u: CodeUnit) {
    || 65 <= u <= 90 || 97 <= u <= 122 || 48 <= u <= 57
    || u in {45, 95, 46, 33, 126, 42, 39, 40, 41}
  }

  lemma UnescapedExactly(u: CodeUnit)
    ensures Unescaped(u) <==>
            || 'A' as int <= u <= 'Z' as int || 'a' as int <= u <= 'z' as int || '0' as int <= u <= '9' as int
            || u in {'-' as int, '_' as int, '.' as int, '!' as int, '~' as int, '*' as int, '\'' as int, '(' as int,
                     ')' as int}
  {}

  function HexDigit(d: nat): char
    requires d < 16
  {
    if d < 10 then (48 + d) as char else (55 + d) as char
  }

  function Byte(b: nat): (t: string)
    requires b < 0x100
    ensures |t| == 3 && t[0] == '%'
  {
    ['%', HexDigit(b / 16), HexDigit(b % 16)]
  }

  /** The percent-encoded UTF-8 bytes of one code point. */
  function Utf8(p: nat): string
    requires p < 0x11_0000
  {
    if p < 0x80 then Byte(p)
    else if p < 0x800 then Byte(0xC0 + p / 64) + Byte(0x80 + p % 64)
    else if p < 0x1_0000 then Byte(0xE0 + p / 4096) + Byte(0x80 + p / 64 % 64) + Byte(0x80 + p % 64)
    else Byte(0xF0 + p / 262144) + Byte(0x80 + p / 4096 % 64) + Byte(0x80 + p / 64 % 64) + Byte(0x80 + p % 64)
  }

  /** The number of units the first code point takes; 0 when it is an unpaired surrogate. */
  function Width(s: Text): nat
    requires s != []
  {
    if IsLow(s[0]) then 0
    else if !IsHigh(s[0]) then 1
    else if |s| > 1 && IsLow(s[1]) then 2
    else 0
  }

  function FirstPoint(s: Text): (p: nat)
    requires s != [] && Width(s) != 0
    ensures p < 0x11_0000
  {
    var high: int := s[0];
    if Width(s) == 1 then high
    else
      var low: int := s[1];
      0x1_0000 + (high - 0xD800) * 0x400 + (low - 0xDC00)
  }

  function EncodeFirst(s: Text): string
    requires s != [] && Width(s) != 0
  {
    if Unescaped(s[0]) then [s[0] as char] else Utf8(FirstPoint(s))
  }

  /** None where the source throws a URIError. */
  function Encode(s: Text): Option<string> {
    if s == [] then Some("")
    else if Width(s) == 0 then None
    else
      Prepend(EncodeFirst(s), Encode(s[Width(s)..]))
  }

  function Prepend(out: string, rest: Option<string>): Option<string> {
    match rest
    case None => None
    case Some(more) => Some(out + more)
  }

  /** Well-formed UTF-16: every surrogate is half of a pair. */
  predicate WellFormed(s: Text) {
    s == [] || (Width(s) != 0 && WellFormed(s[Width(s)..]))
  }

  lemma PrependNothing(rest: Option<string>)
    ensures Prepend("", rest) == rest
  {
    if rest.Some? {
      assert "" + rest.value == rest.value;
    }
  }

  lemma PrependTwice(out: string, first: string, rest: Option<string>)
    ensures Prepend(out, Prepend(first, rest)) == Prepend(out + first, rest)
  {
    if rest.Some? {
      assert out + (first + rest.value) == out + first + rest.value;
    }
  }

  /** The loop of the standard, one code point at a time. */
  method EncodeUriComponent(s: Text) returns (r: Option<string>)
    ensures r == Encode(s)
  {
    var out := "";
    var k := 0;
    assert s[0..] == s;
    PrependNothing(Encode(s));
    while k < |s|
      invariant 0 <= k <= |s|
      invariant Encode(s) == Prepend(out, Encode(s[k..]))
      decreases |s| - k
    {
      var rest := s[k..];
      var width := Width(rest);
      if width == 0 {
        return None;
      }
      assert rest[width..] == s[k + width..];
      PrependTwice(out, EncodeFirst(rest), Encode(s[k + width..]));
      out := out + EncodeFirst(rest);
      k := k + width;
    }
    assert s[k..] == [] && out + "" == out;
    return Some(out);
  }

  // ----- decoding -----

  function HexValue(c: char): nat {
    if '0' <= c <= '9' then c as int - 48 else if 'A' <= c <= 'F' then c as int - 55 else 0
  }

  function ByteAt(t: string, k: nat): nat {
    if 3 * k + 2 < |t| then 16 * HexValue(t[3 * k + 1]) + HexValue(t[3 * k + 2]) else 0
  }

  function Trail(t: string, k: nat): int { ByteAt(t, k) - 0x80 }

  function UnitsOf(p: int): Text {
    if 0 <= p < 0x1_0000 then [p]
    else if p < 0x11_0000 && 0 <= p then [0xD800 + (p - 0x1_0000) / 0x400, 0xDC00 + (p - 0x1_0000) % 0x400]
    else []
  }

  function Drop(t: string, n: nat): string { if n <= |t| then t[n..] else "" }

  function Decode(t: string): Text
    decreases |t|
  {
    if t == "" then []
    else if t[0] != '%' then UnitsOf(t[0] as int) + Decode(t[1..])
    else
      var b := ByteAt(t, 0);
      if b < 0x80 then UnitsOf(b) + Decode(Drop(t, 3))
      else if b < 0xE0 then UnitsOf((b - 0xC0) * 64 + Trail(t, 1)) + Decode(Drop(t, 6))
      else if b < 0xF0 then UnitsOf((b - 0xE0) * 4096 + Trail(t, 1) * 64 + Trail(t, 2)) + Decode(Drop(t, 9))
      else
        UnitsOf((b - 0xF0) * 262144 + Trail(t, 1) * 4096 + Trail(t, 2) * 64 + Trail(t, 3)) + Decode(Drop(t, 12))
  }

  lemma HexDigitValue(d: nat)
    requires d < 16
    ensures HexValue(HexDigit(d)) == d
  {}

  lemma ByteReads(before: string, k: nat, b: nat, after: string)
    requires |before| == 3 * k && b < 0x100
    ensures ByteAt(before + Byte(b) + after, k) == b
  {
    HexDigitValue(b / 16);
    HexDigitValue(b % 16);
    var t := before + Byte(b) + after;
    assert t[3 * k + 1] == HexDigit(b / 16) && t[3 * k + 2] == HexDigit(b % 16);
  }

  lemma OneByteReads(p: nat, rest: string)
    requires p < 0x80
    ensures Decode(Byte(p) + rest) == UnitsOf(p) + Decode(rest)
  {
    hide Byte, ByteAt, UnitsOf;
    var t := Byte(p) + rest;
    ByteReads("", 0, p, rest);
    assert "" + Byte(p) + rest == t && Drop(t, 3) == rest;
  }

  lemma TwoBytesRead(x: nat, y: nat, rest: string)
    requires x < 0x20 && y < 64
    ensures Decode(Byte(0xC0 + x) + Byte(0x80 + y) + rest) == UnitsOf(x * 64 + y) + Decode(rest)
  {
    hide Byte, ByteAt, UnitsOf;
    var b0, b1 := Byte(0xC0 + x), Byte(0x80 + y);
    var t := b0 + b1 + rest;
    ByteReads("", 0, 0xC0 + x, b1 + rest);
    ByteReads(b0, 1, 0x80 + y, rest);
    assert "" + b0 + (b1 + rest) == t && Drop(t, 6) == rest;
  }

  lemma ThreeBytesRead(x: nat, y: nat, z: nat, rest: string)
    requires x < 0x10 && y < 64 && z < 64
    ensures Decode(Byte(0xE0 + x) + Byte(0x80 + y) + Byte(0x80 + z) + rest) ==
            UnitsOf(x * 4096 + y * 64 + z) + Decode(rest)
  {
    hide Byte, ByteAt, UnitsOf;
    var b0, b1, b2 := Byte(0xE0 + x), Byte(0x80 + y), Byte(0x80 + z);
    var t := b0 + b1 + b2 + rest;
    ByteReads("", 0, 0xE0 + x, b1 + b2 + rest);
    ByteReads(b0, 1, 0x80 + y, b2 + rest);
    ByteReads(b0 + b1, 2, 0x80 + z, rest);
    assert "" + b0 + (b1 + b2 + rest) == t && b0 + b1 + (b2 + rest) == t && Drop(t, 9) == rest;
  }

  lemma FourByteValues(w: nat, x: nat, y: nat, z: nat, rest: string)
    requires w < 0x10 && x < 64 && y < 64 && z < 64
    ensures var t := Byte(0xF0 + w) + Byte(0x80 + x) + Byte(0x80 + y) + Byte(0x80 + z) + rest;
            && t != "" && t[0] == '%' && Drop(t, 12) == rest
            && ByteAt(t, 0) == 0xF0 + w && ByteAt(t, 1) == 0x80 + x && ByteAt(t, 2) == 0x80 + y && ByteAt(t, 3) == 0x80 + z
  {
    hide Byte, ByteAt;
    var b0, b1, b2, b3 := Byte(0xF0 + w), Byte(0x80 + x), Byte(0x80 + y), Byte(0x80 + z);
    var t := b0 + b1 + b2 + b3 + rest;
    ByteReads("", 0, 0xF0 + w, b1 + b2 + b3 + rest);
    ByteReads(b0, 1, 0x80 + x, b2 + b3 + rest);
    ByteReads(b0 + b1, 2, 0x80 + y, b3 + rest);
    ByteReads(b0 + b1 + b2, 3, 0x80 + z, rest);
    assert "" + b0 + (b1 + b2 + b3 + rest) == t && b0 + b1 + (b2 + b3 + rest) == t;
    assert (b0 + b1) + b2 + (b3 + rest) == t && Drop(t, 12) == rest;
  }

  lemma FourBytesRead(w: nat, x: nat, y: nat, z: nat, rest: string)
    requires w < 0x10 && x < 64 && y < 64 && z < 64
    ensures Decode(Byte(0xF0 + w) + Byte(0x80 + x) + Byte(0x80 + y) + Byte(0x80 + z) + rest) ==
            UnitsOf(w * 262144 + x * 4096 + y * 64 + z) + Decode(rest)
  {
    hide Byte, ByteAt, UnitsOf, Drop;
    FourByteValues(w, x, y, z, rest);
  }

  /** Reading back the bytes of one code point. */
  lemma PointReads(p: nat, rest: string)
    requires p < 0x11_0000
    ensures Decode(Utf8(p) + rest) == UnitsOf(p) + Decode(rest)
  {
    hide Byte, UnitsOf, Decode;
    if p < 0x80 {
      OneByteReads(p, rest);
    } else if p < 0x800 {
      TwoBytesRead(p / 64, p % 64, rest);
    } else if p < 0x1_0000 {
      ThreeBytesRead(p / 4096, p / 64 % 64, p % 64, rest);
      ThreeDigits(p);
    } else {
      FourBytesRead(p / 262144, p / 4096 % 64, p / 64 % 64, p % 64, rest);
      FourDigits(p);
    }
  }

  lemma ThreeDigits(p: nat)
    ensures p / 4096 * 4096 + p / 64 % 64 * 64 + p % 64 == p
  {
    assert p / 64 / 64 == p / 4096;
  }

  lemma FourDigits(p: nat)
    ensures p / 262144 * 262144 + p / 4096 % 64 * 4096 + p / 64 % 64 * 64 + p % 64 == p
  {
    ThreeDigits(p);
    assert p / 4096 / 64 == p / 262144;
  }

  lemma FirstPointReads(s: Text)
    requires s != [] && Width(s) != 0
    ensures UnitsOf(FirstPoint(s)) == s[..Width(s)]
  {}

  lemma UnescapedReads(u: CodeUnit, rest: string)
    requires Unescaped(u)
    ensures Decode([u as char] + rest) == [u] + Decode(rest)
  {
    assert ([u as char] + rest)[1..] == rest;
  }

  lemma FirstReads(s: Text, rest: string)
    requires s != [] && Width(s) != 0
    ensures Decode(EncodeFirst(s) + rest) == s[..Width(s)] + Decode(rest)
  {
    FirstPointReads(s);
    assert Unescaped(s[0]) ==> s[..Width(s)] == [s[0]];
    hide Decode, Unescaped, FirstPoint, Utf8, UnitsOf, Width;
    if Unescaped(s[0]) {
      UnescapedReads(s[0], rest);
    } else {
      PointReads(FirstPoint(s), rest);
    }
  }

  /** Decoding an encoded string gives it back, code unit for code unit. */
  lemma {:induction false} DecodeEncode(s: Text)
    requires Encode(s).Some?
    ensures Decode(Encode(s).value) == s
    decreases |s|
  {
    hide EncodeFirst;
    if s != [] {
      var width := Width(s);
      var rest := Encode(s[width..]).value;
      assert Encode(s).value == EncodeFirst(s) + rest;
      DecodeEncode(s[width..]);
      FirstReads(s, rest);
      assert s == s[..width] + s[width..];
    }
  }

  lemma EncodeIsInjective(s: Text, t: Text)
    requires Encode(s).Some? && Encode(s) == Encode(t)
    ensures s == t
  {
    DecodeEncode(s);
    DecodeEncode(t);
  }

  /** Every high surrogate is followed by a low one, and every low one follows a high one. */
  ghost predicate Paired(s: Text) {
    && (forall i | 0 <= i < |s| && IsHigh(s[i]) :: i + 1 < |s| && IsLow(s[i + 1]))
    && (forall i | 0 <= i < |s| && IsLow(s[i]) :: i > 0 && IsHigh(s[i - 1]))
  }

  lemma PairedAfterPoint(s: Text, n: nat)
    requires 1 <= n <= |s| && (n == 1 ==> !IsHigh(s[0]) && !IsLow(s[0]))
    requires n > 1 ==> n == 2 && IsHigh(s[0]) && IsLow(s[1])
    ensures Paired(s) <==> Paired(s[n..])
  {
    var rest := s[n..];
    assert forall i | 0 <= i < |rest| :: rest[i] == s[i + n];
    if Paired(rest) {
      forall i | 0 <= i < |s| && IsHigh(s[i])
        ensures i + 1 < |s| && IsLow(s[i + 1])
      {
        if i >= n {
          assert IsHigh(rest[i - n]);
        }
      }
      forall i | 0 <= i < |s| && IsLow(s[i])
        ensures i > 0 && IsHigh(s[i - 1])
      {
        if i >= n {
          assert IsLow(rest[i - n]);
        }
      }
    } else if Paired(s) {
      forall i | 0 <= i < |rest| && IsHigh(rest[i])
        ensures i + 1 < |rest| && IsLow(rest[i + 1])
      {
        assert IsHigh(s[i + n]);
      }
      forall i | 0 <= i < |rest| && IsLow(rest[i])
        ensures i > 0 && IsHigh(rest[i - 1])
      {
        assert IsLow(s[i + n]);
      }
    }
  }

  lemma {:induction false} WellFormedIsPaired(s: Text)
    ensures WellFormed(s) <==> Paired(s)
    decreases |s|
  {
    if s != [] && Width(s) != 0 {
      WellFormedIsPaired(s[Width(s)..]);
      PairedAfterPoint(s, Width(s));
    }
  }

  /** Encoding succeeds exactly on well-formed strings: those without an unpaired surrogate. */
  lemma EncodesExactlyWellFormed(s: Text)
    ensures Encode(s).Some? <==> WellFormed(s)
    ensures Encode(s).Some? <==> Paired(s)
  {
    EncodesWellFormed(s);
    WellFormedIsPaired(s);
  }

  lemma {:induction false} EncodesWellFormed(s: Text)
    ensures Encode(s).Some? <==> WellFormed(s)
    decreases |s|
  {
    if s != [] && Width(s) != 0 {
      EncodesWellFormed(s[Width(s)..]);
    }
  }

  /** The output never holds a separator of the key format. */
  lemma {:induction false} EncodedHasNoSeparator(s: Text)
    requires Encode(s).Some?
    ensures ':' !in Encode(s).value && '=' !in Encode(s).value
    decreases |s|
  {
    if s != [] {
      EncodedHasNoSeparator(s[Width(s)..]);
      if !Unescaped(s[0]) {
        BytesHaveNoSeparator(FirstPoint(s));
      }
    }
  }

  lemma BytesHaveNoSeparator(p: nat)
    requires p < 0x11_0000
    ensures ':' !in Utf8(p) && '=' !in Utf8(p)
  {
    assert forall b | 0 <= b < 0x100 :: ':' !in Byte(b) && '=' !in Byte(b);
  }
}
