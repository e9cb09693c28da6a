/**
 Reading back with scan_scaled what fmt_scaled shows (compat/fmt_scaled.c).
 */
module ScanRoundTrip {
  import opened Common
  import opened FmtScaled
  import opened ScanScaled

  lemma {:induction false} AppendedLast(w: int, t: string, c: char)
    requires AllDigits(t) && Digit(c)
    ensures AllDigits(t + [c]) && Appended(w, t + [c]) == Appended(w, t) * 10 + (c as int - '0' as int)
    decreases |t|
  {
    if t == "" {
      assert t + [c] == [c] && [c][1..] == "";
    } else {
      assert (t + [c])[1..] == t[1..] + [c];
      AppendedLast(w * 10 + (t[0] as int - '0' as int), t[1..], c);
    }
  }

  /** The decimal digits of a number are read as that number. */
  lemma {:induction false} DecimalDigits(n: nat)
    ensures AllDigits(Decimal(n)) && Appended(0, Decimal(n)) == n
  {
    if n < 10 {
      assert Decimal(n)[1..] == "";
    } else {
      DecimalDigits(n / 10);
      AppendedLast(0, Decimal(n / 10), '0' + (n % 10) as char);
    }
  }

  lemma OneFraction(d: nat)
    requires d < 10
    ensures AllDigits(Decimal(d)) && |Decimal(d)| == 1 && Kept(Decimal(d)) == 1 && Fraction(Decimal(d)) == d
  {
    DecimalDigits(d);
    assert Decimal(d)[..1] == Decimal(d);
  }

  lemma UnitShown(i: nat)
    requires i < 7
    ensures Unit(Suffixes[i], 0) == i && !Digit(Suffixes[i]) && Suffixes[i] != '.'
  {
    assert i == 0 || i == 1 || i == 2 || i == 3 || i == 4 || i == 5 || i == 6;
  }

  /** The parts of what is shown. */
  function FormOf(s: Shown): (f: Form)
    requires s.unit < 7
  {
    Form("", if s.value < 0 then "-" else "", Decimal(Abs(s.value)), s.point, if s.point then Decimal(s.tenth) else "",
         [Suffixes[s.unit]])
  }

  lemma RenderForm(s: Shown)
    requires s.unit < 7
    ensures Render(s) == Joined(FormOf(s))
  {
    hide Decimal;
  }

  /** What is shown ends with the letter of its unit. */
  lemma RenderLetter(s: Shown)
    requires s.unit < 7
    ensures var t := Render(s);
      t != "" && t[|t| - 1] == (if s.unit == 0 then 'B' else if s.unit == 1 then 'K' else if s.unit == 2 then 'M'
        else if s.unit == 3 then 'G' else if s.unit == 4 then 'T' else if s.unit == 5 then 'P' else 'E')
  {
    hide Decimal;
    assert Suffixes[0] == 'B' && Suffixes[1] == 'K' && Suffixes[2] == 'M' && Suffixes[3] == 'G';
    assert Suffixes[4] == 'T' && Suffixes[5] == 'P' && Suffixes[6] == 'E';
  }

  /** What is shown with a point: a sign if it is negative, digits of the whole, a point, one digit, and the unit. */
  lemma RenderPoint(s: Shown)
    requires s.unit < 7 && s.point && s.tenth < 10
    ensures var t := Render(s); var k := if s.value < 0 then 1 else 0;
      |t| >= 4 && t[|t| - 3] == '.' && Digit(t[|t| - 2]) && t[|t| - 2] as int - '0' as int == s.tenth &&
      (s.value < 0 <==> t[0] == '-') && AllDigits(t[k..|t| - 3]) && Appended(0, t[k..|t| - 3]) == Abs(s.value)
  {
    hide Appended;
    hide AllDigits;
    var d, t := Decimal(Abs(s.value)), Render(s);
    DecimalDigits(Abs(s.value));
    DecimalStart(Abs(s.value));
    assert Decimal(s.tenth) == ['0' + s.tenth as char];
    assert t == (if s.value < 0 then "-" else "") + d + "." + Decimal(s.tenth) + [Suffixes[s.unit]];
    assert t[if s.value < 0 then 1 else 0..|t| - 3] == d;
    assert s.value >= 0 ==> t[0] == d[0];
  }

  /** What is shown without a point: a sign, digits, and the unit. */
  lemma RenderWhole(s: Shown)
    requires s.unit < 7 && !s.point
    ensures var t := Render(s); var k := if s.value < 0 then 1 else 0;
      |t| >= 2 && (s.value < 0 <==> t[0] == '-') && AllDigits(t[k..|t| - 1]) && Appended(0, t[k..|t| - 1]) == Abs(s.value)
  {
    hide Appended;
    hide AllDigits;
    var d, t := Decimal(Abs(s.value)), Render(s);
    DecimalDigits(Abs(s.value));
    DecimalStart(Abs(s.value));
    assert t == (if s.value < 0 then "-" else "") + d + [Suffixes[s.unit]];
    assert t[if s.value < 0 then 1 else 0..|t| - 1] == d;
    assert s.value >= 0 ==> t[0] == d[0];
  }

  lemma DecimalStart(n: nat)
    ensures Decimal(n) != "" && Digit(Decimal(n)[0])
  {
  }

  function Tenth(s: Shown): (d: int) {
    (if s.point then s.tenth else 0) * (if s.value < 0 then -1 else 1)
  }

  /** The parts of what is shown are the parts that are read. */
  lemma ScanParts(s: Shown)
    requires s.unit < 7 && Abs(s.value) < 10000 && s.tenth < 10
    ensures Scan(Render(s)) == Some(Scaled(s.value, Tenth(s), if s.point then 2 else 0, s.unit))
  {
    hide Scan;
    hide Render;
    hide Joined;
    hide Decimal;
    hide Unit;
    hide Scaled;
    hide Appended;
    hide Fraction;
    hide Digit;
    hide AllDigits;
    var f := FormOf(s);
    RenderForm(s);
    UnitShown(s.unit);
    DecimalDigits(Abs(s.value));
    DecimalLength(Abs(s.value));
    OneFraction(s.tenth);
    Nothing();
    assert WellFormed(f);
    ScanForm(f);
    assert Abs(s.value) * (if s.value < 0 then -1 else 1) == s.value;
  }

  lemma Nothing()
    ensures AllDigits("") && Fraction("") == 0 && Kept("") == 0 && AllSpace("")
  {
  }

  lemma OneDigit(whole: int, d: int, fract: int, i: nat)
    requires i < 7 && -10 < d < 10 && (fract == 2 || (fract == 0 && d == 0)) && d < Limit(i)
    ensures Scaled(whole, d, fract, i) == whole * Factor(i) + Quotient(d * Factor(i), 10)
    ensures Shrink(d, fract, Limit(i)).0 == d
  {
    hide Limit;
    hide Factor;
    var x := d * Factor(i);
    assert DivTens(Quotient(x, 10), 0) == Quotient(x, 10);
  }

  /** Reading back a magnitude with a point: less than a byte is lost. */
  lemma ReadTenth(w: nat, d: nat, f: int, g: int, a: nat)
    requires f > 0 && g == 1024 * f && -521 * f <= (10 * w + d) * g - 10 * a <= 512 * f
    ensures -6 * g <= 100 * (w * g + d * g / 10 - a) <= 6 * g
  {
    var x := d * g;
    assert (10 * w + d) * g == 10 * (w * g) + x;
    assert x - 9 <= 10 * (x / 10) <= x;
  }

  lemma ReadWhole(w: nat, g: int, a: nat)
    requires -11 * g <= 2 * (10 * w * g - 10 * a) <= 11 * g
    ensures -55 * g <= 100 * (w * g - a) <= 55 * g
  {
    assert 10 * w * g == 10 * (w * g);
  }

  lemma Within(x: int, b: int)
    ensures 100 * Abs(x) <= b <==> -b <= 100 * x <= b
  {
  }

  /** With a point nothing is rounded to whole units. */
  lemma Fine(a: nat, i: nat)
    requires 0 < i < 7
    ensures Coarse(Nearest(a, i)) < 1000 ==>
      -521 * Factor(i - 1) <= Coarse(Nearest(a, i)) * Factor(i) - 10 * a <= 512 * Factor(i - 1)
  {
    NearestClose(a, i);
    PointFine(Nearest(a, i));
  }

  /** The value read is that of its sign and magnitude. */
  lemma Mirror(v: int, d: nat, g: int)
    requires g > 0
    ensures var m := v * g + Quotient(d * (if v < 0 then -1 else 1) * g, 10);
      Abs(m) == Abs(v) * g + d * g / 10 && (v > 0 ==> m > 0) && (v < 0 ==> m < 0) && (v >= 0 ==> m >= 0)
  {
    var x := d * g;
    if v < 0 {
      assert d * -1 * g == -x;
      assert -v * g == -(v * g);
      Gap(-v, g);
    } else {
      assert d * 1 * g == x;
      if v > 0 { Gap(v, g); }
    }
  }

  lemma SameSign(m: int, n: int, v: int)
    requires (v > 0 ==> m > 0) && (v < 0 ==> m < 0) && (v == 0 ==> m >= 0)
    requires (n > 0 ==> v > 0) && (n < 0 ==> v < 0) && (n == 0 ==> v == 0)
    ensures Abs(m - n) == Abs(Abs(m) - Abs(n))
  {
  }

  /** What is read where no digit is dropped. */
  lemma ReadMagnitude(s: Shown, n: int)
    requires Shows(s, n) && Tenth(s) < Limit(s.unit)
    ensures Scan(Render(s)).Some?
    ensures var m := Scan(Render(s)).value;
      Abs(m) == Abs(s.value) * Factor(s.unit) + Abs(Tenth(s)) * Factor(s.unit) / 10 &&
      Abs(m - n) == Abs(Abs(m) - Abs(n))
    ensures Shrink(Tenth(s), if s.point then 2 else 0, Limit(s.unit)).0 == Tenth(s)
  {
    hide Scan;
    hide Render;
    hide Nearest;
    hide Coarse;
    hide Limit;
    hide Scaled;
    NearestRange(Abs(n), s.unit);
    ScanParts(s);
    OneDigit(s.value, Tenth(s), if s.point then 2 else 0, s.unit);
    Mirror(s.value, if s.point then s.tenth else 0, Factor(s.unit));
    SameSign(Scan(Render(s)).value, n, s.value);
  }

  /** What is shown reads back to within 0.06 unit with a point where no digit is dropped. */
  lemma ReadPoint(s: Shown, n: int)
    requires Shows(s, n) && s.point && Tenth(s) < Limit(s.unit)
    ensures Scan(Render(s)).Some? && 100 * Abs(Scan(Render(s)).value - n) <= 6 * Factor(s.unit)
  {
    hide Scan;
    hide Render;
    hide Factor;
    hide Nearest;
    hide Coarse;
    hide UnitOf;
    hide Limit;
    hide Shrink;
    InUnit(s, n);
    ReadMagnitude(s, n);
    var w, g, a := Abs(s.value), Factor(s.unit), Abs(n);
    Fine(a, s.unit);
    ReadTenth(w, s.tenth, Factor(s.unit - 1), g, a);
    Within(Abs(Scan(Render(s)).value) - a, 6 * g);
  }

  lemma InUnit(s: Shown, n: int)
    requires Shows(s, n)
    ensures s.unit < 7 && (s.unit > 0 ==> Factor(s.unit) == 1024 * Factor(s.unit - 1))
  {
  }

  /** What is shown below the largest unit reads back without overflow, exactly in bytes, to within 0.06 unit with
      a point and 0.55 unit without. */
  lemma ScanBack(s: Shown, n: int)
    requires Shows(s, n) && s.unit < 6
    ensures Scan(Render(s)).Some?
    ensures s.unit == 0 ==> Scan(Render(s)).value == n
    ensures s.point ==> 100 * Abs(Scan(Render(s)).value - n) <= 6 * Factor(s.unit)
    ensures !s.point ==> 100 * Abs(Scan(Render(s)).value - n) <= 55 * Factor(s.unit)
    ensures InRange(s.value, Tenth(s), if s.point then 2 else 0, s.unit)
  {
    hide Scan;
    hide Render;
    hide Factor;
    hide Nearest;
    hide Coarse;
    hide UnitOf;
    hide Limit;
    hide Scaled;
    hide Shrink;
    hide InRange;
    ReadMagnitude(s, n);
    SmallUnits(s, n);
    if s.point {
      ReadPoint(s, n);
    } else {
      var w, g, a := Abs(s.value), Factor(s.unit), Abs(n);
      Close(s, n);
      ReadWhole(w, g, a);
      Within(Abs(Scan(Render(s)).value) - a, 55 * g);
      if s.unit == 0 { Bytes(0); }
    }
  }

  lemma SmallUnits(s: Shown, n: int)
    requires Shows(s, n) && s.unit < 6
    ensures InRange(s.value, Tenth(s), if s.point then 2 else 0, s.unit)
  {
    hide Nearest;
    hide Coarse;
    hide Limit;
    hide Scaled;
    hide Shrink;
    hide Factor;
    NearestRange(Abs(n), s.unit);
    OneDigit(s.value, Tenth(s), if s.point then 2 else 0, s.unit);
    SmallFactor(s.unit);
    Product(s.value, Factor(s.unit));
    Product(Tenth(s), Factor(s.unit));
  }

  lemma SmallFactor(i: nat)
    requires i < 6
    ensures Factor(i) <= 0x4_0000_0000_0000
  {
  }

  lemma Product(v: int, f: int)
    requires -1024 <= v <= 1024 && 0 < f <= 0x4_0000_0000_0000
    ensures -0x1000_0000_0000_0000 <= v * f <= 0x1000_0000_0000_0000
  {
    if v >= 0 { Times(v, 1024, f); } else { Times(-1024, v, f); }
  }

  /** The largest unit: what the shown magnitude can be. */
  lemma LargestShown(s: Shown, n: int)
    requires Shows(s, n) && s.unit == 6 && -Max <= n <= Max
    ensures s.point && 1 <= Abs(s.value) <= 8 && (Abs(s.value) == 8 ==> s.tenth == 0)
  {
    hide Coarse;
    hide Nearest;
    hide UnitOf;
    NearestClose(Abs(n), 6);
    var t := Nearest(Abs(n), 6);
    assert t <= 80;
    CoarseClose(t);
    InUnitLeast(Abs(n));
  }

  lemma InUnitLeast(a: nat)
    requires UnitOf(a, 6)
    ensures Coarse(Nearest(a, 6)) >= 10
  {
    NearestRange(a, 6);
  }

  /** What is read back in the largest unit.  Of a positive number a tenth above six is dropped, because scaling it
      would overflow, so the value is within 0.06 unit exactly if the tenth is below seven or the number is negative.
      The arithmetic stays in range exactly if a positive value is below eight, or a negative one has a tenth
      below nine. */
  lemma ScanLargest(s: Shown, n: int)
    requires Shows(s, n) && s.unit == 6 && -Max <= n <= Max
    ensures Scan(Render(s)) == Some(s.value * Factor(6) + if n > 0 && s.tenth >= 7 then 0 else Quotient(Tenth(s) * Factor(6), 10))
    ensures 100 * Abs(Scan(Render(s)).value - n) <= 6 * Factor(6) <==> n < 0 || s.tenth < 7
    ensures InRange(s.value, Tenth(s), 2, 6) <==> if n > 0 then s.value < 8 else s.tenth < 9
  {
    hide Scan;
    hide Render;
    hide Nearest;
    hide Coarse;
    LargestShown(s, n);
    ScanParts(s);
    assert Limit(6) == 7;
    if n > 0 && s.tenth >= 7 {
      Dropped(s.value, s.tenth);
      FarOff(s, n);
    } else {
      OneDigit(s.value, Tenth(s), 2, 6);
      ReadPoint(s, n);
    }
  }

  lemma Dropped(v: int, d: nat)
    requires 7 <= d < 10
    ensures Shrink(d, 2, Limit(6)).0 == 0 && Scaled(v, d, 2, 6) == v * Factor(6)
  {
    assert Shrink(0, 1, 7) == (0, 1);
    assert Quotient(d, 10) == 0;
  }

  lemma FarOff(s: Shown, n: int)
    requires Shows(s, n) && s.unit == 6 && s.point && s.tenth >= 7 && n > 0
    ensures 100 * Abs(s.value * Factor(6) - n) > 6 * Factor(6)
  {
    hide Nearest;
    hide Coarse;
    Fine(n, 6);
  }
}
