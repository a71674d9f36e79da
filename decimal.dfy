/**
  Exact comparison of numbers written as decimal strings (`dotpos` and `gte`
  in src/tablegenerator.cpp).

  A numeral is an unsigned decimal string with an optional '.' and an
  optional exponent `e<int>`, e.g. "5", "0005", "5.0", "1.2e3", "15e-1".
  `Normalize` turns it into a canonical digit string and a decimal-point
  position; `Gte` compares two numerals through their canonical forms.
  The meaning of a numeral is the exact rational number `Value(s)`, and the
  main result of this module is that `Gte` is the sign of the difference of
  the two values: no rounding, ever.
*/
module Decimal {

  import opened Strings

  predicate IsDigit(c: char) { '0' <= c <= '9' }

  predicate AllDigits(s: string) { forall i :: 0 <= i < |s| ==> IsDigit(s[i]) }

  function DigitVal(c: char): nat
    requires IsDigit(c)
  {
    (c as int) - ('0' as int)
  }

  /** The natural number a digit string denotes (Horner's rule). */
  function NatOf(s: string): nat
    requires AllDigits(s)
  {
    if |s| == 0 then 0 else 10 * NatOf(s[..|s| - 1]) + DigitVal(s[|s| - 1])
  }

  /** 10 raised to an integer power. */
  function Scale(k: int): real
    decreases if k >= 0 then k else -k
  {
    if k == 0 then 1.0
    else if k > 0 then 10.0 * Scale(k - 1)
    else Scale(k + 1) / 10.0
  }

  function Zeros(k: nat): (z: string)
    ensures |z| == k && forall i :: 0 <= i < k ==> z[i] == '0'
  {
    seq(k, _ => '0')
  }

  function Sign(x: real): int
  {
    if x > 0.0 then 1 else if x < 0.0 then -1 else 0
  }

  /** The text `stoi` accepts here: an optional sign followed by digits. */
  predicate IsIntText(t: string)
  {
    if |t| > 0 && (t[0] == '-' || t[0] == '+') then |t| > 1 && AllDigits(t[1..])
    else |t| > 0 && AllDigits(t)
  }

  function IntOf(t: string): int
    requires IsIntText(t)
  {
    if t[0] == '-' then -(NatOf(t[1..]) as int)
    else if t[0] == '+' then NatOf(t[1..])
    else NatOf(t)
  }

  // ---------------------------------------------------------------------
  // Anatomy of a numeral: mantissa before the first 'e', and inside it the
  // integer part before the first '.', the fraction part after it.

  function Mantissa(s: string): string
  {
    s[..Find(s, 'e')]
  }

  function IntPart(s: string): string
  {
    var m := Mantissa(s);
    m[..Find(m, '.')]
  }

  function FracPart(s: string): string
  {
    var m := Mantissa(s);
    var d := Find(m, '.');
    if d < |m| then m[d + 1..] else ""
  }

  /** Unsigned decimal numerals: the domain on which `gte` is defined. */
  predicate WellFormed(s: string)
  {
    var k := Find(s, 'e');
    AllDigits(IntPart(s)) && AllDigits(FracPart(s)) && (k < |s| ==> IsIntText(s[k + 1..]))
  }

  function Exponent(s: string): int
    requires WellFormed(s)
  {
    var k := Find(s, 'e');
    if k < |s| then IntOf(s[k + 1..]) else 0
  }

  /** n copies of s added up: the contribution of a digit n at a place worth
      s, written as repeated addition so that the arithmetic stays linear. */
  function Times(n: nat, s: real): real
  {
    if n == 0 then 0.0 else Times(n - 1, s) + s
  }

  /** The number a digit string denotes when the decimal point sits before
      index `p` (p may lie outside the string): the digit at index i counts
      10^(p-1-i). */
  function Magnitude(d: string, p: int): real
    requires AllDigits(d)
  {
    if |d| == 0 then 0.0
    else Magnitude(d[..|d| - 1], p) + Times(DigitVal(d[|d| - 1]), Scale(p - |d|))
  }

  /** The exact number a numeral denotes: its digits, with the decimal point
      after the integer part moved right by the exponent. */
  function Value(s: string): real
    requires WellFormed(s)
  {
    Magnitude(IntPart(s) + FracPart(s), |IntPart(s)| + Exponent(s))
  }

  /** The canonical form `dotpos` produces: the point inside or at the end of
      the digits, and no leading zero before the point. */
  predicate Canonical(d: string, p: int)
  {
    AllDigits(d) && 0 <= p <= |d| && (p == 0 || d[0] != '0')
  }

  // ---------------------------------------------------------------------
  // dotpos

  /** Drops leading zeros that stand before the decimal point. */
  function Strip(v: string, p: nat): (string, nat)
    requires p <= |v|
  {
    if p > 0 && v[0] == '0' then Strip(v[1..], p - 1) else (v, p)
  }

  /** The digits with the point at `pos`, rewritten so that the point lies
      within them: zeros inserted in front when it lies before the digits,
      appended when it lies after them. */
  function Pad(d: string, pos: int): (r: (string, nat))
    requires AllDigits(d)
    ensures r.1 <= |r.0| && AllDigits(r.0)
    ensures Magnitude(r.0, r.1) == Magnitude(d, pos)
  {
    if pos < 0 then
      PrependZeros(-pos, d, pos);
      (Zeros(-pos) + d, 0)
    else if pos > |d| then
      Widen(d, pos, pos - |d|);
      (d + Zeros(pos - |d|), pos)
    else (d, pos)
  }

  /** The result of `dotpos`: exponent folded into the point position, zeros
      padded, leading zeros before the point stripped. */
  function Normalize(s: string): (r: (string, int))
    requires WellFormed(s)
    ensures Canonical(r.0, r.1)
    ensures Magnitude(r.0, r.1) == Value(s)
  {
    var (v, p) := Pad(IntPart(s) + FracPart(s), |IntPart(s)| + Exponent(s));
    StripKeeps(v, p);
    Strip(v, p)
  }

  lemma {:induction false} StripKeeps(v: string, p: nat)
    requires p <= |v| && AllDigits(v)
    ensures Canonical(Strip(v, p).0, Strip(v, p).1)
    ensures Magnitude(Strip(v, p).0, Strip(v, p).1) == Magnitude(v, p)
    decreases p
  {
    if p > 0 && v[0] == '0' {
      var w := v[1..];
      assert [v[0]] + w == v;
      MagnitudeCons(v[0], w, p);
      StripKeeps(w, p - 1);
    }
  }

  /** The imperative `dotpos`: the numeral is rewritten in place (exponent
      cut off and folded into the point position, the '.' erased, zeros
      inserted or appended) and the leading zeros are counted by the `trail`
      loop before being erased. */
  method DotPos(s: string) returns (v: string, pos: int)
    requires WellFormed(s)
    ensures (v, pos) == Normalize(s)
    ensures Canonical(v, pos) && Magnitude(v, pos) == Value(s)
  {
    v, pos := ShiftPoint(s);
    ghost var v0, p0 := v, pos;
    assert Strip(v0, p0) == Normalize(s);
    var trail := 0;
    while trail < pos
      invariant 0 <= trail <= pos <= |v|
      invariant Strip(v0, p0) == Strip(v[trail..], pos - trail)
    {
      if v[trail] != '0' {
        break;
      }
      assert v[trail..][1..] == v[trail + 1..];
      trail := trail + 1;
    }
    if trail > 0 {
      v := v[trail..];
      pos := pos - trail;
    }
  }

  /** The steps of `dotpos` before the leading zeros are counted. */
  method ShiftPoint(s: string) returns (v: string, pos: int)
    requires WellFormed(s)
    ensures 0 <= pos && (v, pos) == Pad(IntPart(s) + FracPart(s), |IntPart(s)| + Exponent(s))
  {
    v := s;
    var e := 0;
    var k := Find(v, 'e');
    if k < |v| {
      e := IntOf(v[k + 1..]);
      v := v[..k];
    }
    assert v == Mantissa(s) && e == Exponent(s);
    var d := Find(v, '.');
    if d < |v| {
      pos := d;
      v := v[..d] + v[d + 1..];
    } else {
      pos := |v|;
    }
    assert v == IntPart(s) + FracPart(s) && pos == |IntPart(s)|;
    pos := pos + e;
    if pos < 0 {
      v := Zeros(-pos) + v;
      pos := 0;
    }
    if pos > |v| {
      v := v + Zeros(pos - |v|);
    }
  }

  // ---------------------------------------------------------------------
  // gte

  /** `std::string::compare`, reduced to its sign. */
  function LexCompare(a: string, b: string): int
  {
    if |a| == 0 && |b| == 0 then 0
    else if |a| == 0 then -1
    else if |b| == 0 then 1
    else if a[0] < b[0] then -1
    else if a[0] > b[0] then 1
    else LexCompare(a[1..], b[1..])
  }

  /** `gte(u, v)`: 1 when u is larger, 0 when equal, -1 when smaller. Both are
      normalised; equal point positions are compared digit by digit after the
      shorter digit string is padded with trailing zeros. The result is the
      sign of the exact difference of the two values. */
  function Gte(u: string, v: string): (r: int)
    requires WellFormed(u) && WellFormed(v)
    ensures r == Sign(Value(u) - Value(v))
  {
    var nu := Normalize(u);
    var nv := Normalize(v);
    CompareNormal(nu, nv, Value(u), Value(v));
    CompareCanonical(nu.0, nu.1, nv.0, nv.1)
  }

  /** The comparison `gte` makes once both numerals are in canonical form. */
  function CompareCanonical(a: string, pa: int, b: string, pb: int): int
  {
    var a' := if pa == pb && |a| < |b| then a + Zeros(|b| - |a|) else a;
    var b' := if pa == pb && |a| > |b| then b + Zeros(|a| - |b|) else b;
    var c := LexCompare(a', b');
    if pa > pb || (pa == pb && c > 0) then 1
    else if pa == pb && c == 0 then 0
    else -1
  }

  lemma {:induction false} CompareNormal(na: (string, int), nb: (string, int), x: real, y: real)
    requires Canonical(na.0, na.1) && Canonical(nb.0, nb.1)
    requires Magnitude(na.0, na.1) == x && Magnitude(nb.0, nb.1) == y
    ensures CompareCanonical(na.0, na.1, nb.0, nb.1) == Sign(x - y)
  {
    var (a, pa) := na;
    var (b, pb) := nb;
    var a' := if pa == pb && |a| < |b| then a + Zeros(|b| - |a|) else a;
    var b' := if pa == pb && |a| > |b| then b + Zeros(|a| - |b|) else b;
    CompareExact(a, pa, b, pb, a', b');
  }

  lemma {:induction false} CompareExact(a: string, pa: int, b: string, pb: int, a': string, b': string)
    requires Canonical(a, pa) && Canonical(b, pb)
    requires a' == (if pa == pb && |a| < |b| then a + Zeros(|b| - |a|) else a)
    requires b' == (if pa == pb && |a| > |b| then b + Zeros(|a| - |b|) else b)
    ensures var c := LexCompare(a', b');
      Sign(Magnitude(a, pa) - Magnitude(b, pb))
      == if pa > pb || (pa == pb && c > 0) then 1 else if pa == pb && c == 0 then 0 else -1
  {
    if pa > pb {
      PointDecides(a, pa, b, pb);
    } else if pa < pb {
      PointDecides(b, pb, a, pa);
    } else {
      SameStart(a, b, pa, a', b');
    }
  }

  /** Same point position: the padded digit strings have equal length,
      denote the same numbers as before, and their comparison decides. */
  lemma {:induction false} SameStart(a: string, b: string, p: int, a': string, b': string)
    requires AllDigits(a) && AllDigits(b)
    requires a' == (if |a| < |b| then a + Zeros(|b| - |a|) else a)
    requires b' == (if |a| > |b| then b + Zeros(|a| - |b|) else b)
    ensures Sign(Magnitude(a, p) - Magnitude(b, p)) == LexCompare(a', b')
  {
    if |a| < |b| {
      Widen(a, p, |b| - |a|);
    } else if |a| > |b| {
      Widen(b, p, |a| - |b|);
    }
    DigitsDecide(a', b', p);
  }

  /** A canonical numeral with its point further right is the larger one. */
  lemma {:induction false} PointDecides(a: string, pa: int, b: string, pb: int)
    requires Canonical(a, pa) && Canonical(b, pb) && pa > pb
    ensures Magnitude(a, pa) > Magnitude(b, pb)
  {
    MagnitudeBound(b, pb);
    ScalePos(pb - |b|);
    ScaleMono(pb, pa - 1);
    assert [a[0]] + a[1..] == a;
    MagnitudeCons(a[0], a[1..], pa);
    MagnitudeBound(a[1..], pa - 1);
    ScalePos(pa - 1);
    TimesMono(1, DigitVal(a[0]), Scale(pa - 1));
  }

  /** With the points aligned and equally many digits, the digits decide, and
      they decide the same way as `std::string::compare`. */
  lemma {:induction false} DigitsDecide(a: string, b: string, p: int)
    requires AllDigits(a) && AllDigits(b) && |a| == |b|
    ensures Sign(Magnitude(a, p) - Magnitude(b, p)) == LexCompare(a, b)
    decreases |a|
  {
    if |a| > 0 {
      assert [a[0]] + a[1..] == a && [b[0]] + b[1..] == b;
      MagnitudeCons(a[0], a[1..], p);
      MagnitudeCons(b[0], b[1..], p);
      var s := Scale(p - 1);
      if a[0] == b[0] {
        DigitsDecide(a[1..], b[1..], p - 1);
      } else {
        MagnitudeBound(a[1..], p - 1);
        MagnitudeBound(b[1..], p - 1);
        ScalePos(p - 1 - |a[1..]|);
        ScalePos(p - 1);
        if a[0] < b[0] {
          TimesMono(DigitVal(a[0]) + 1, DigitVal(b[0]), s);
        } else {
          TimesMono(DigitVal(b[0]) + 1, DigitVal(a[0]), s);
        }
      }
    }
  }

  // ---------------------------------------------------------------------
  // Facts about magnitudes

  /** The leading digit counts 10^(p-1), the rest is a numeral with its
      point one place further left. */
  lemma {:induction false} MagnitudeCons(c: char, w: string, p: int)
    requires IsDigit(c) && AllDigits(w)
    ensures AllDigits([c] + w)
    ensures Magnitude([c] + w, p) == Times(DigitVal(c), Scale(p - 1)) + Magnitude(w, p - 1)
    decreases |w|
  {
    var v := [c] + w;
    if |w| > 0 {
      assert v[..|v| - 1] == [c] + w[..|w| - 1];
      MagnitudeCons(c, w[..|w| - 1], p);
    } else {
      assert v[..0] == [];
    }
  }

  /** Padding the digits with trailing zeros does not change the magnitude. */
  lemma {:induction false} Widen(a: string, p: int, k: nat)
    requires AllDigits(a)
    ensures AllDigits(a + Zeros(k)) && Magnitude(a + Zeros(k), p) == Magnitude(a, p)
  {
    if k > 0 {
      var z := a + Zeros(k);
      assert z[..|z| - 1] == a + Zeros(k - 1);
      Widen(a, p, k - 1);
    } else {
      assert a + Zeros(k) == a;
    }
  }

  /** Writing k leading zeros and moving the point k places right keeps the
      magnitude. */
  lemma {:induction false} PrependZeros(k: nat, d: string, p: int)
    requires AllDigits(d)
    ensures AllDigits(Zeros(k) + d) && Magnitude(Zeros(k) + d, p + k) == Magnitude(d, p)
  {
    if k > 0 {
      var w := Zeros(k - 1) + d;
      assert Zeros(k) + d == ['0'] + w;
      PrependZeros(k - 1, d, p);
      MagnitudeCons('0', w, p + k);
    } else {
      assert Zeros(k) + d == d;
    }
  }

  /** Digit strings denote nonnegative numbers below the place value of their
      point, with room for one more unit in the last place. */
  lemma {:induction false} MagnitudeBound(d: string, p: int)
    requires AllDigits(d)
    ensures 0.0 <= Magnitude(d, p) && Magnitude(d, p) + Scale(p - |d|) <= Scale(p)
  {
    if |d| > 0 {
      var d' := d[..|d| - 1];
      MagnitudeBound(d', p);
      var s := Scale(p - |d|);
      ScaleSucc(p - |d|);
      ScalePos(p - |d|);
      TimesMono(DigitVal(d[|d| - 1]), 9, s);
      TimesIsProduct(9, s);
    }
  }

  // ---------------------------------------------------------------------
  // Powers of ten and repeated addition

  lemma {:induction false} ScaleSucc(k: int)
    ensures Scale(k + 1) == 10.0 * Scale(k)
  {
  }

  lemma {:induction false} ScalePos(k: int)
    ensures Scale(k) > 0.0
    decreases if k >= 0 then k else -k
  {
    if k > 0 {
      ScalePos(k - 1);
    } else if k < 0 {
      ScalePos(k + 1);
    }
  }

  lemma {:induction false} ScaleMono(a: int, b: int)
    requires a <= b
    ensures Scale(a) <= Scale(b)
    decreases b - a
  {
    if a < b {
      ScaleMono(a, b - 1);
      ScaleSucc(b - 1);
      ScalePos(b - 1);
    }
  }

  lemma {:induction false} TimesMono(m: nat, n: nat, s: real)
    requires m <= n && s >= 0.0
    ensures 0.0 <= Times(m, s) <= Times(n, s)
    decreases n
  {
    if m < n {
      TimesMono(m, n - 1, s);
    } else if m > 0 {
      TimesMono(m - 1, m - 1, s);
    }
  }

  lemma {:induction false} TimesIsProduct(n: nat, s: real)
    ensures Times(n, s) == (n as real) * s
  {
    if n > 0 {
      TimesIsProduct(n - 1, s);
    }
  }

  // ---------------------------------------------------------------------
  // Properties of gte

  lemma {:induction false} GteReflexive(u: string)
    requires WellFormed(u)
    ensures Gte(u, u) == 0
  {
  }

  lemma {:induction false} GteAntisymmetric(u: string, v: string)
    requires WellFormed(u) && WellFormed(v)
    ensures Gte(u, v) == -Gte(v, u)
  {
  }

  lemma {:induction false} GteTransitive(u: string, v: string, w: string)
    requires WellFormed(u) && WellFormed(v) && WellFormed(w)
    requires Gte(u, v) >= 0 && Gte(v, w) >= 0
    ensures Gte(u, w) >= 0
    ensures Gte(u, w) == 0 <==> Gte(u, v) == 0 && Gte(v, w) == 0
  {
  }

  /** A plain digit string means the integer it spells. */
  lemma {:induction false} ValueOfDigits(d: string)
    requires AllDigits(d)
    ensures WellFormed(d) && Value(d) == NatOf(d) as real
  {
    ValueOfInteger(d);
    MagnitudeAtEnd(d);
  }

  /** A digit string without point or exponent has its point at the end. */
  lemma {:induction false} ValueOfInteger(d: string)
    requires AllDigits(d)
    ensures WellFormed(d) && Value(d) == Magnitude(d, |d|)
  {
    FindDigits(d, 'e');
    FindDigits(d, '.');
    assert Mantissa(d) == d && IntPart(d) == d && FracPart(d) == "";
    assert d + "" == d;
  }

  lemma {:induction false} MagnitudeAtEnd(d: string)
    requires AllDigits(d)
    ensures Magnitude(d, |d|) == NatOf(d) as real
  {
    if |d| > 0 {
      var d' := d[..|d| - 1];
      MagnitudeAtEnd(d');
      MagnitudeShift(d', |d'|);
      TimesIsProduct(DigitVal(d[|d| - 1]), 1.0);
    }
  }

  /** Moving the point one place right multiplies by ten. */
  lemma {:induction false} MagnitudeShift(d: string, p: int)
    requires AllDigits(d)
    ensures Magnitude(d, p + 1) == 10.0 * Magnitude(d, p)
  {
    if |d| > 0 {
      MagnitudeShift(d[..|d| - 1], p);
      ScaleSucc(p - |d|);
      TimesTen(DigitVal(d[|d| - 1]), Scale(p - |d|));
    }
  }

  lemma {:induction false} TimesTen(n: nat, s: real)
    ensures Times(n, 10.0 * s) == 10.0 * Times(n, s)
  {
    if n > 0 {
      TimesTen(n - 1, s);
    }
  }

  /** A numeral `i.f`: the digits of both parts with the point after `i`. */
  lemma {:induction false} ValueOfPointed(s: string, i: string, f: string)
    requires AllDigits(i) && AllDigits(f) && s == i + "." + f
    ensures WellFormed(s) && Value(s) == Magnitude(i + f, |i|)
  {
    PointedParts(s, i, f);
    ValueFromParts(s, i + f, |i|);
  }

  lemma {:induction false} PointedParts(s: string, i: string, f: string)
    requires AllDigits(i) && AllDigits(f) && s == i + "." + f
    ensures Find(s, 'e') == |s| && IntPart(s) == i && FracPart(s) == f
  {
    var t := "." + f;
    assert s == i + t && t[1..] == f;
    FindDigits(i, 'e');
    FindDigits(f, 'e');
    FindConcat(i, t, 'e');
    FindDigits(i, '.');
    FindConcat(i, t, '.');
    assert Mantissa(s) == s;
    assert s[..|i|] == i && s[|i| + 1..] == f;
  }

  /** A numeral `iet`: the digits of `i` with the point moved by `t`. */
  lemma {:induction false} ValueOfScientific(s: string, i: string, t: string)
    requires AllDigits(i) && IsIntText(t) && s == i + "e" + t
    ensures WellFormed(s) && Value(s) == Magnitude(i, |i| + IntOf(t))
  {
    ScientificParts(s, i, t);
    ValueFromParts(s, i, |i| + IntOf(t));
  }

  lemma {:induction false} ScientificParts(s: string, i: string, t: string)
    requires AllDigits(i) && IsIntText(t) && s == i + "e" + t
    ensures Find(s, 'e') == |i| && s[|i| + 1..] == t
    ensures IntPart(s) == i && FracPart(s) == "" && IntPart(s) + FracPart(s) == i
  {
    assert s == i + ("e" + t);
    FindDigits(i, 'e');
    FindConcat(i, "e" + t, 'e');
    assert Mantissa(s) == i;
    FindDigits(i, '.');
    assert i[..|i|] == i;
    assert i + "" == i;
  }

  lemma {:induction false} ValueFromParts(s: string, d: string, p: int)
    requires WellFormed(s) && IntPart(s) + FracPart(s) == d && |IntPart(s)| + Exponent(s) == p
    ensures AllDigits(d) && Value(s) == Magnitude(d, p)
  {
  }

  lemma {:induction false} FindDigits(d: string, c: char)
    requires AllDigits(d) && !IsDigit(c)
    ensures Find(d, c) == |d|
  {
    if |d| > 0 {
      FindDigits(d[1..], c);
    }
  }

  /** Leading zeros do not change a numeral: "0005" equals "5". */
  lemma {:induction false} LeadingZerosIgnored(d: string, k: nat)
    requires AllDigits(d)
    ensures AllDigits(Zeros(k) + d) && WellFormed(Zeros(k) + d) && WellFormed(d)
    ensures Gte(Zeros(k) + d, d) == 0
  {
    PrependZeros(k, d, |d|);
    ValueOfInteger(Zeros(k) + d);
    ValueOfInteger(d);
  }

  /** Trailing zeros after the point do not change a numeral: "5.00" equals
      "5.0". */
  lemma {:induction false} TrailingZerosIgnored(i: string, f: string, k: nat)
    requires AllDigits(i) && AllDigits(f)
    ensures AllDigits(f + Zeros(k))
    ensures WellFormed(i + "." + (f + Zeros(k))) && WellFormed(i + "." + f)
    ensures Gte(i + "." + (f + Zeros(k)), i + "." + f) == 0
  {
    Widen(f, 0, k);
    Widen(i + f, |i|, k);
    assert i + (f + Zeros(k)) == (i + f) + Zeros(k);
    ValueOfPointed(i + "." + (f + Zeros(k)), i, f + Zeros(k));
    ValueOfPointed(i + "." + f, i, f);
  }

  /** An exponent moves the point: "12e1" equals "120" and "5e0" equals "5". */
  lemma {:induction false} ExponentMovesPoint(i: string, t: string, k: nat)
    requires AllDigits(i) && IsIntText(t) && IntOf(t) == k
    ensures AllDigits(i + Zeros(k))
    ensures WellFormed(i + "e" + t) && WellFormed(i + Zeros(k))
    ensures Gte(i + "e" + t, i + Zeros(k)) == 0
  {
    ValueOfScientific(i + "e" + t, i, t);
    Widen(i, |i| + k, k);
    ValueOfInteger(i + Zeros(k));
  }
}
