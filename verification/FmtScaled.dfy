/**
 fmt_scaled of compat/fmt_scaled.c: a number of bytes shown with at most four digits and a unit.
 */
module FmtScaled {
  import opened Common

  const Min: int := -0x8000_0000_0000_0000
  const Max: int := 0x7fff_ffff_ffff_ffff

  /** scale_factors */
  function Factor(i: nat): (f: int)
    requires i < 7
    ensures f > 0 && (i > 0 ==> f == 1024 * Factor(i - 1))
  {
    if i == 0 then 1
    else if i == 1 then 1024
    else if i == 2 then 0x10_0000
    else if i == 3 then 0x4000_0000
    else if i == 4 then 0x100_0000_0000
    else if i == 5 then 0x4_0000_0000_0000
    else 0x1000_0000_0000_0000
  }

  /** What is printed: a whole number, a digit after the point if there is a point, and a unit. */
  datatype Shown = Shown(value: int, point: bool, tenth: nat, unit: nat)

  function Abs(n: int): (r: nat) {
    if n < 0 then -n else n
  }

  /** Division of C, which truncates toward zero. */
  function Quotient(n: int, d: int): (r: int)
    requires d > 0
    ensures Abs(r) == Abs(n) / d && (n >= 0 ==> r >= 0) && (n <= 0 ==> r <= 0)
  {
    if n >= 0 then n / d else -(-n / d)
  }

  /** The magnitude that is shown, in tenths of the unit. */
  function Tenths(s: Shown): (t: nat) {
    10 * Abs(s.value) + if s.point then s.tenth else 0
  }

  /** The unit in which a magnitude has at most four digits. */
  ghost predicate UnitOf(a: nat, i: nat) {
    i < 7 && a < 1024 * Factor(i) && (i > 0 ==> a >= Factor(i))
  }

  /** The nearest tenth of a unit, by the 1024 parts that the magnitude fills. */
  function Nearest(a: nat, i: nat): (t: nat)
    requires i < 7
  {
    if i == 0 then 10 * a else (10 * (a / Factor(i - 1)) + 512) / 1024
  }

  /** From 100 units on, whole units. */
  function Coarse(t: nat): (r: nat) {
    if t < 1000 then t else (t + 5) / 10 * 10
  }

  lemma DivMod(a: nat, f: int, g: int)
    requires f > 0 && g == 1024 * f
    ensures a / f == 1024 * (a / g) + a % g / f && 0 <= a % g / f < 1024
  {
    var w, r := a / g, a % g;
    var q, e := r / f, r % f;
    assert a == w * g + r && r == q * f + e;
    assert w * g == 1024 * w * f;
    assert (1024 * w + q) * f == 1024 * w * f + q * f;
    Euclid(a, f, 1024 * w + q, e);
    Few(q, f, e);
  }

  lemma Few(q: int, f: int, e: int)
    requires 0 <= e < f && 0 <= q * f + e < 1024 * f
    ensures 0 <= q < 1024
  {
    if q >= 1024 {
      Gap(q - 1023, f);
      assert false;
    }
    if q < 0 {
      Gap(-q, f);
      assert false;
    }
  }

  /** Quotient and remainder are unique. */
  lemma Euclid(a: int, d: int, q: int, r: int)
    requires d > 0 && a == q * d + r && 0 <= r < d
    ensures a / d == q && a % d == r
  {
    var q', r' := a / d, a % d;
    assert a == q' * d + r';
    if q' > q { Gap(q' - q, d); } else if q' < q { Gap(q - q', d); }
    assert (q' - q) * d == q' * d - q * d;
  }

  lemma Gap(k: int, d: int)
    requires k >= 1 && d > 0
    ensures k * d >= d
  {
  }

  /** The value shown of `n`: its sign, its unit, and the magnitude in tenths of the unit. */
  ghost predicate Shows(s: Shown, n: int) {
    UnitOf(Abs(n), s.unit) && Tenths(s) == Coarse(Nearest(Abs(n), s.unit)) &&
    (n > 0 ==> s.value > 0) && (n < 0 ==> s.value < 0) && (n == 0 ==> s == Shown(0, false, 0, 0)) &&
    s.tenth < 10 && (s.point <==> s.unit > 0 && Abs(s.value) < 100) && (!s.point ==> s.tenth == 0)
  }

  /** fmt_scaled: fails for the smallest number only. */
  method Format(number: int) returns (r: Option<Shown>)
    requires Min <= number <= Max
    ensures r == None <==> number == -0x8000_0000_0000_0000
    ensures r.Some? ==> Shows(r.value, number)
  {
    hide Nearest;
    hide Coarse;
    var abval := if number == Min then Min else Abs(number);
    if abval < 0 || abval / 1024 >= Factor(6) {
      return None;
    }
    var unit, value, fract := Scale(number, abval);
    Parts(abval, unit);
    var s := Round(Nearest(abval, unit), unit, value, fract);
    return Some(s);
  }

  /** The loop over the scale factors: the unit, the whole part, and the 1024th parts left over. */
  method Scale(number: int, abval: nat) returns (unit: nat, value: int, fract: nat)
    requires abval == Abs(number) <= Max
    ensures UnitOf(abval, unit) && Abs(value) == abval / Factor(unit)
    ensures (number >= 0 ==> value >= 0) && (number <= 0 ==> value <= 0)
    ensures fract == if unit == 0 then 0 else abval % Factor(unit) / Factor(unit - 1)
  {
    unit, value, fract := 0, number, 0;
    for i := 0 to 7
      invariant unit == 0 && value == number && fract == 0 && (i > 0 ==> abval >= 1024 * Factor(i - 1))
    {
      if abval / 1024 < Factor(i) {
        unit := i;
        fract := if i == 0 then 0 else abval % Factor(i);
        value := Quotient(number, Factor(i));
        if i > 0 {
          fract := fract / Factor(i - 1);
        }
        return;
      }
    }
  }

  /** Rounding the fraction to a digit, or to a whole number from 100 on. */
  method Round(ghost t: nat, unit: nat, value: int, fract: nat) returns (s: Shown)
    requires fract < 1024 && t == 10 * Abs(value) + (10 * fract + 512) / 1024
    requires (unit == 0 ==> fract == 0) && (value == 0 ==> unit == 0)
    ensures Tenths(s) == Coarse(t) && s.unit == unit && (value > 0 ==> s.value > 0) && (value < 0 ==> s.value < 0)
    ensures value == 0 ==> s == Shown(0, false, 0, 0)
    ensures s.tenth < 10 && (s.point <==> s.unit > 0 && Abs(s.value) < 100) && (!s.point ==> s.tenth == 0)
  {
    hide Coarse;
    var whole, tenth := value, (10 * fract + 512) / 1024;
    if tenth == 10 {
      whole, tenth := if whole >= 0 then whole + 1 else whole - 1, 0;
    }
    CoarseParts(t, Abs(whole), tenth);
    if whole == 0 {
      s := Shown(0, false, 0, 0);
    } else if unit == 0 || whole >= 100 || whole <= -100 {
      if tenth >= 5 {
        whole := if whole >= 0 then whole + 1 else whole - 1;
      }
      s := Shown(whole, false, 0, unit);
    } else {
      s := Shown(whole, true, tenth, unit);
    }
  }

  lemma CoarseParts(t: nat, whole: nat, tenth: nat)
    requires t == 10 * whole + tenth && tenth < 10
    ensures Coarse(t) == if whole < 100 then t else 10 * (whole + if tenth >= 5 then 1 else 0)
  {
  }

  /** The parts of a magnitude make up its nearest tenth. */
  lemma Parts(a: nat, i: nat)
    requires UnitOf(a, i)
    ensures i > 0 ==> 0 <= a % Factor(i) / Factor(i - 1) < 1024
    ensures i > 0 ==> Nearest(a, i) == 10 * (a / Factor(i)) + (10 * (a % Factor(i) / Factor(i - 1)) + 512) / 1024
    ensures i == 0 ==> Nearest(a, i) == 10 * (a / Factor(i)) && a / Factor(i) == a
    ensures i > 0 || a > 0 ==> a / Factor(i) > 0
  {
    if i > 0 {
      DivMod(a, Factor(i - 1), Factor(i));
      Least(a, Factor(i));
    }
  }

  lemma Least(a: nat, f: int)
    requires f > 0 && a >= f
    ensures a / f > 0
  {
  }

  lemma Times(x: int, y: int, f: int)
    requires x <= y && f >= 0
    ensures x * f <= y * f
  {
  }

  /** The nearest tenth is at most 521 of 10240 parts off. */
  lemma NearestClose(a: nat, i: nat)
    requires 0 < i < 7
    ensures -521 * Factor(i - 1) <= Nearest(a, i) * Factor(i) - 10 * a <= 512 * Factor(i - 1)
  {
    var f := Factor(i - 1);
    var q, t := a / f, Nearest(a, i);
    assert t == (10 * q + 512) / 1024;
    assert q * f <= a < q * f + f by { assert a == q * f + a % f; }
    Rounded(a, q, f, t);
    assert Factor(i) == 1024 * f;
    assert t * Factor(i) == 1024 * t * f;
  }

  lemma Rounded(a: int, q: int, f: int, t: int)
    requires f > 0 && q * f <= a < q * f + f && t == (10 * q + 512) / 1024
    ensures -521 * f <= 1024 * t * f - 10 * a <= 512 * f
  {
    Times(1024 * t, 10 * q + 512, f);
    Times(10 * q + 512 - 1023, 1024 * t, f);
    assert (10 * q + 512) * f == 10 * (q * f) + 512 * f;
    assert (10 * q + 512 - 1023) * f == 10 * (q * f) - 511 * f;
  }

  lemma CoarseClose(t: nat)
    ensures if t < 1000 then Coarse(t) == t else t - 4 <= Coarse(t) <= t + 5
  {
  }

  /** Equal magnitudes in tenths and the same sign are equal numbers. */
  lemma Whole(v: int, n: int)
    requires 10 * Abs(v) == 10 * Abs(n) && (n > 0 ==> v > 0) && (n < 0 ==> v < 0)
    ensures v == n
  {
  }

  /** The shown value is exact in bytes, within 0.06 unit with a point, and within 0.55 unit without. */
  lemma Close(s: Shown, n: int)
    requires Shows(s, n)
    ensures s.unit == 0 ==> s.value == n
    ensures s.point ==> -6 * Factor(s.unit) <= 10 * (Tenths(s) * Factor(s.unit) - 10 * Abs(n)) <= 6 * Factor(s.unit)
    ensures -11 * Factor(s.unit) <= 2 * (Tenths(s) * Factor(s.unit) - 10 * Abs(n)) <= 11 * Factor(s.unit)
  {
    hide Factor;
    hide Coarse;
    hide Nearest;
    var a, i := Abs(n), s.unit;
    if i == 0 {
      Bytes(a);
      Whole(s.value, n);
    } else {
      NearestClose(a, i);
      CoarseScaled(Nearest(a, i), a, Factor(i - 1), Factor(i));
      PointFine(Nearest(a, i));
    }
  }

  lemma CoarseScaled(t: nat, a: nat, f: int, g: int)
    requires f > 0 && g == 1024 * f && -521 * f <= t * g - 10 * a <= 512 * f
    ensures t < 1000 ==> -6 * g <= 10 * (Coarse(t) * g - 10 * a) <= 6 * g
    ensures -11 * g <= 2 * (Coarse(t) * g - 10 * a) <= 11 * g
  {
    hide Coarse;
    CoarseClose(t);
    Times(Coarse(t), t + 5, g);
    Times(t - 4, Coarse(t), g);
    assert (t + 5) * g == t * g + 5 * g && (t - 4) * g == t * g - 4 * g;
  }

  lemma PointFine(t: nat)
    ensures Coarse(t) < 1000 ==> t < 1000 && Coarse(t) == t
  {
  }

  lemma Bytes(a: nat)
    ensures Coarse(Nearest(a, 0)) == 10 * a && Factor(0) == 1
  {
  }

  lemma DivMonotone(a: nat, b: nat, f: int)
    requires f > 0 && a <= b
    ensures a / f <= b / f
  {
    assert a == a / f * f + a % f && b == b / f * f + b % f;
    assert (b / f + 1) * f == b / f * f + f;
    Below(a / f, f, a % f, b / f + 1);
  }

  lemma Below(q: int, f: int, e: int, k: int)
    requires 0 <= e < f && q * f + e < k * f
    ensures q < k
  {
    if q >= k {
      Times(k, q, f);
      assert false;
    }
  }

  lemma NearestMonotone(a: nat, b: nat, i: nat)
    requires a <= b && i < 7
    ensures Nearest(a, i) <= Nearest(b, i) && Coarse(Nearest(a, i)) <= Coarse(Nearest(b, i))
  {
    if i > 0 { DivMonotone(a, b, Factor(i - 1)); }
  }

  /** In its unit, a magnitude shows as 1.0 at least (above bytes) and as 1024 at most. */
  lemma NearestRange(a: nat, i: nat)
    requires UnitOf(a, i)
    ensures Coarse(Nearest(a, i)) <= 10240 && (i > 0 ==> Coarse(Nearest(a, i)) >= 10)
  {
    hide Factor;
    hide Nearest;
    hide Coarse;
    Parts(a, i);
    if i == 0 {
      Bytes(a);
    } else {
      var w, f := a / Factor(i), Factor(i);
      Division(a, f);
      Below(w, f, a % f, 1024);
      CoarseRange(w, a % f / Factor(i - 1));
    }
  }

  lemma Division(a: int, f: int)
    requires f > 0
    ensures a == a / f * f + a % f && 0 <= a % f < f
  {
  }

  lemma CoarseRange(w: int, q: int)
    requires 0 < w < 1024 && 0 <= q < 1024
    ensures 10 <= Coarse(10 * w + (10 * q + 512) / 1024) <= 10240
  {
  }

  lemma {:induction false} FactorMonotone(i: nat, j: nat)
    requires i < j < 7
    ensures 1024 * Factor(i) <= Factor(j)
    decreases j
  {
    if i < j - 1 { FactorMonotone(i, j - 1); }
  }

  /** A larger magnitude is not shown smaller, also across units. */
  lemma MonotoneMagnitude(a: nat, i: nat, b: nat, j: nat)
    requires a <= b && UnitOf(a, i) && UnitOf(b, j)
    ensures Coarse(Nearest(a, i)) * Factor(i) <= Coarse(Nearest(b, j)) * Factor(j)
  {
    hide Coarse;
    hide Nearest;
    hide Factor;
    if i == j {
      NearestMonotone(a, b, i);
      Times(Coarse(Nearest(a, i)), Coarse(Nearest(b, i)), Factor(i));
    } else if i < j {
      NearestRange(a, i);
      NearestRange(b, j);
      FactorMonotone(i, j);
      Times(Coarse(Nearest(a, i)), 10240, Factor(i));
      Times(10, Coarse(Nearest(b, j)), Factor(j));
    } else {
      FactorMonotone(j, i);
      assert false;
    }
  }

  /** The shown value in tenths of a byte, with its sign. */
  function Displayed(s: Shown): (v: int)
    requires s.unit < 7
  {
    if s.value < 0 then -(Tenths(s) * Factor(s.unit)) else Tenths(s) * Factor(s.unit)
  }

  /** The displayed value is monotone in the number. */
  lemma Monotone(s: Shown, n: int, s': Shown, n': int)
    requires Shows(s, n) && Shows(s', n') && n <= n'
    ensures Displayed(s) <= Displayed(s')
  {
    hide Coarse;
    hide Nearest;
    hide Factor;
    Times(0, Tenths(s), Factor(s.unit));
    Times(0, Tenths(s'), Factor(s'.unit));
    if n >= 0 {
      MonotoneMagnitude(Abs(n), s.unit, Abs(n'), s'.unit);
    } else if n' < 0 {
      MonotoneMagnitude(Abs(n'), s'.unit, Abs(n), s.unit);
    }
  }

  /** The decimal digits of a number. */
  function Decimal(n: nat): (t: string) {
    if n < 10 then ['0' + n as char] else Decimal(n / 10) + ['0' + (n % 10) as char]
  }

  const Suffixes: string := "BKMGTPE"

  /** The text that is printed. */
  function Render(s: Shown): (t: string)
    requires s.unit < 7
  {
    (if s.value < 0 then "-" else "") + Decimal(Abs(s.value)) + (if s.point then "." + Decimal(s.tenth) else "") +
    [Suffixes[s.unit]]
  }

  lemma {:induction false} DecimalLength(n: nat)
    requires n < 10000
    ensures 1 <= |Decimal(n)| <= 4 && (n < 1000 ==> |Decimal(n)| <= 3) && (n < 100 ==> |Decimal(n)| <= 2)
    ensures n < 10 ==> |Decimal(n)| == 1
  {
    if n >= 10 { DecimalLength(n / 10); }
  }

  /** The text fits: a sign, four characters of number, and the unit. */
  lemma RenderFits(s: Shown, n: int)
    requires Shows(s, n)
    ensures |Render(s)| <= 6 && (n >= 0 ==> |Render(s)| <= 5)
  {
    hide Nearest;
    hide Coarse;
    hide Factor;
    NearestRange(Abs(n), s.unit);
    DecimalLength(Abs(s.value));
    DecimalLength(s.tenth);
  }
}
