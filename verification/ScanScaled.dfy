/**
 scan_scaled of compat/fmt_scaled.c: reading a number with a unit, and reading back what fmt_scaled shows.
 */
module ScanScaled {
  import opened Common
  import opened FmtScaled

  predicate Digit(c: char) {
    '0' <= c <= '9'
  }

  predicate Alnum(c: char) {
    Digit(c) || 'a' <= c <= 'z' || 'A' <= c <= 'Z'
  }

  function Lower(c: char): (r: char) {
    if 'A' <= c <= 'Z' then c + ' ' else c
  }

  lemma Classes(c: char)
    ensures Digit(c) <==> c in "0123456789"
    ensures Alnum(c) <==> Digit(c) || c in "ABCDEFGHIJKLM" || c in "NOPQRSTUVWXYZ" || c in "abcdefghijklm" || c in "nopqrstuvwxyz"
  {
  }

  /** The digits read so far: `fract` is one more than the number of digits after a point, or zero without one. */
  datatype Sum = Sum(whole: int, fpart: int, ndigits: nat, fract: nat)

  /** One character of the number. */
  function Step(u: Sum, c: char): (r: Option<Sum>)
    requires Digit(c) || c == '.'
  {
    if c == '.' then
      if u.fract > 0 then None else Some(u.(fract := 1))
    else
      var d := c as int - '0' as int;
      if u.fract > 0 then
        if u.fract >= 20 then Some(u) else Some(u.(fract := u.fract + 1, fpart := u.fpart * 10 + d))
      else if u.ndigits + 1 >= 21 then None
      else Some(u.(ndigits := u.ndigits + 1, whole := u.whole * 10 + d))
  }

  /** The number at the start of the text, and what follows it. */
  function Number(t: string, u: Sum): (r: Option<(Sum, string)>)
    ensures r.Some? ==> |r.value.1| <= |t|
    decreases |t|
  {
    if t == "" || !(Digit(t[0]) || t[0] == '.') then Some((u, t))
    else
      match Step(u, t[0])
      case None => None
      case Some(v) => Number(t[1..], v)
  }

  /** At most one sign. */
  function Sign(t: string, sign: int): (r: Option<(int, string)>) {
    if t == "" || (t[0] != '-' && t[0] != '+') then Some((sign, t))
    else if sign != 0 then None
    else Sign(t[1..], if t[0] == '-' then -1 else 1)
  }

  /** The position of a unit letter in either case, or 7. */
  function Unit(c: char, i: nat): (r: nat)
    requires i <= 7
    ensures i <= r <= 7
    decreases 7 - i
  {
    if i == 7 || c == Suffixes[i] || c == Lower(Suffixes[i]) then i else Unit(c, i + 1)
  }

  function DivTens(n: int, k: int): (r: int)
    decreases k
  {
    if k <= 0 then n else DivTens(Quotient(n, 10), k - 1)
  }

  /** The fraction without the digits that would overflow when scaled. */
  function Shrink(fpart: int, fract: int, limit: int): (r: (int, int))
    requires limit > 0
    decreases if fpart < 0 then 0 else fpart
  {
    if fpart < limit then (fpart, fract) else Shrink(Quotient(fpart, 10), fract - 1, limit)
  }

  function Scaled(whole: int, fpart: int, fract: int, i: nat): (r: int)
    requires i < 7
  {
    var f := Factor(i);
    var (p, k) := Shrink(fpart, fract, Limit(i));
    whole * f + DivTens(p * f, k - 1)
  }

  /** LLONG_MAX / scale_fact */
  function Limit(i: nat): (r: int)
    requires i < 7
    ensures r > 0 && (i < 6 ==> r >= 10)
  {
    Max / Factor(i)
  }

  function Scan(text: string): (r: Option<int>) {
    match Sign(TrimLeft(text), 0)
    case None => None
    case Some((sign, t)) =>
      match Number(t, Sum(0, 0, 0, 0))
      case None => None
      case Some((u, rest)) =>
        var s := if sign == 0 then 1 else sign;
        if rest == "" then Some(u.whole * s)
        else
          var i := Unit(rest[0], 0);
          if i == 7 || (|rest| > 1 && Alnum(rest[1])) then None
          else Some(Scaled(u.whole * s, u.fpart * s, u.fract, i))
  }

  // ---------- what is read from any text ----------

  predicate AllDigits(t: string) {
    forall i :: 0 <= i < |t| ==> Digit(t[i])
  }

  /** The number that follows `w` when the digits of `t` are appended to it. */
  function Appended(w: int, t: string): (n: int)
    requires AllDigits(t)
    decreases |t|
  {
    if t == "" then w else Appended(w * 10 + (t[0] as int - '0' as int), t[1..])
  }

  /** Whole digits are all taken, unless there are more than twenty. */
  lemma {:induction false} WholeDigits(a: string, rest: string, u: Sum)
    requires AllDigits(a) && u.fract == 0 && u.ndigits < 21
    ensures Number(a + rest, u) == if a != "" && u.ndigits + |a| >= 21 then None
                                   else Number(rest, u.(ndigits := u.ndigits + |a|, whole := Appended(u.whole, a)))
    decreases |a|
  {
    if a == "" {
      assert a + rest == rest;
    } else {
      var t := a + rest;
      assert t[0] == a[0] && t[1..] == a[1..] + rest;
      if u.ndigits + 1 < 21 {
        WholeDigits(a[1..], rest, Step(u, a[0]).value);
      }
    }
  }

  /** How many digits after the point are used. */
  function Kept(b: string): (n: nat)
    ensures n <= |b|
  {
    if |b| <= 19 then |b| else 19
  }

  /** The number that these digits make. */
  function Fraction(b: string): (n: int)
    requires AllDigits(b)
  {
    Appended(0, b[..Kept(b)])
  }

  /** Digits after the point are taken up to nineteen, and the others skipped. */
  lemma {:induction false} FractDigits(b: string, rest: string, u: Sum, k: nat)
    requires AllDigits(b) && 1 <= u.fract <= 20 && k == if |b| <= 20 - u.fract then |b| else 20 - u.fract
    ensures Number(b + rest, u) == Number(rest, u.(fract := u.fract + k, fpart := Appended(u.fpart, b[..k])))
    decreases |b|
  {
    if b == "" {
      assert b + rest == rest && b[..k] == "";
    } else {
      var t := b + rest;
      assert t[0] == b[0] && t[1..] == b[1..] + rest;
      if u.fract == 20 {
        FractDigits(b[1..], rest, u, 0);
        assert b[..0] == "" && b[1..][..0] == "";
      } else {
        FractDigits(b[1..], rest, Step(u, b[0]).value, k - 1);
        assert b[..k][1..] == b[1..][..k - 1];
      }
    }
  }

  /** A number: whole digits, and perhaps a point and more digits. */
  function Numeral(a: string, point: bool, b: string): (t: string) {
    a + if point then "." + b else ""
  }

  predicate StartsNumber(t: string) {
    t != "" && (Digit(t[0]) || t[0] == '.')
  }

  lemma NumberForm(a: string, point: bool, b: string, rest: string)
    requires AllDigits(a) && AllDigits(b) && (point || b == "") && (rest != "" ==> !Digit(rest[0]))
    requires !point ==> !StartsNumber(rest)
    ensures Number(Numeral(a, point, b) + rest, Sum(0, 0, 0, 0)) ==
            if |a| >= 21 || StartsNumber(rest) then None
            else Some((Sum(Appended(0, a), Fraction(b), |a|, if point then 1 + Kept(b) else 0), rest))
  {
    hide Appended;
    hide Number;
    hide Fraction;
    hide AllDigits;
    var tail := if point then "." + b + rest else rest;
    Parts(a, point, b, rest, tail);
    WholeDigits(a, tail, Sum(0, 0, 0, 0));
    NoDigits(a, b);
    if |a| < 21 {
      var v := Sum(Appended(0, a), 0, |a|, 0);
      if point { PointThen(b, rest, v); } else { NumberStops(rest, v); }
    }
  }

  lemma Parts(a: string, point: bool, b: string, rest: string, tail: string)
    requires tail == if point then "." + b + rest else rest
    ensures Numeral(a, point, b) + rest == a + tail
  {
  }

  lemma NoDigits(a: string, b: string)
    requires AllDigits(a) && AllDigits(b)
    ensures (a == "" ==> Appended(0, a) == 0) && (b == "" ==> Fraction(b) == 0)
  {
  }

  lemma PointThen(b: string, rest: string, v: Sum)
    requires AllDigits(b) && (rest != "" ==> !Digit(rest[0])) && v.fract == 0 && v.fpart == 0
    ensures Number("." + b + rest, v) ==
            if StartsNumber(rest) then None
            else Some((v.(fract := 1 + Kept(b), fpart := Fraction(b)), rest))
  {
    hide Appended;
    var t := "." + b + rest;
    assert t[0] == '.' && t[1..] == b + rest;
    FractDigits(b, rest, v.(fract := 1), Kept(b));
    NumberStops(rest, v.(fract := 1 + Kept(b), fpart := Fraction(b)));
  }

  lemma NumberStops(rest: string, v: Sum)
    requires rest != "" ==> !Digit(rest[0])
    requires StartsNumber(rest) ==> v.fract > 0
    ensures Number(rest, v) == if StartsNumber(rest) then None else Some((v, rest))
  {
  }

  /** What a number and the text after it amount to: nothing after it means whole bytes, otherwise a unit that
      nothing alphanumeric follows. */
  function Amount(whole: int, fpart: int, fract: int, rest: string): (r: Option<int>) {
    if rest == "" then Some(whole)
    else
      var i := Unit(rest[0], 0);
      if i == 7 || (|rest| > 1 && Alnum(rest[1])) then None else Some(Scaled(whole, fpart, fract, i))
  }

  predicate AllSpace(t: string) {
    forall i :: 0 <= i < |t| ==> Space(t[i])
  }

  predicate Signs(t: string) {
    t != "" && (t[0] == '-' || t[0] == '+')
  }

  lemma {:induction false} TrimSpace(sp: string, t: string)
    requires AllSpace(sp) && (t != "" ==> !Space(t[0]))
    ensures TrimLeft(sp + t) == t
  {
    if sp == "" {
      assert sp + t == t;
    } else {
      assert (sp + t)[1..] == sp[1..] + t;
      TrimSpace(sp[1..], t);
    }
  }

  /** A text in its parts: white space, a sign, a number, and the rest. */
  datatype Form = Form(space: string, sign: string, a: string, point: bool, b: string, rest: string)

  function Joined(f: Form): (t: string) {
    f.space + (f.sign + (Numeral(f.a, f.point, f.b) + f.rest))
  }

  /** Each part is as long as it can be. */
  predicate WellFormed(f: Form) {
    AllSpace(f.space) && (f.sign == "" || f.sign == "-" || f.sign == "+") && AllDigits(f.a) && AllDigits(f.b) &&
    (f.point || f.b == "") && (f.rest != "" ==> !Digit(f.rest[0])) && (!f.point ==> !StartsNumber(f.rest)) &&
    (f.a == "" && !f.point && f.sign == "" && f.rest != "" ==> !Signs(f.rest) && !Space(f.rest[0]))
  }

  /** What a text in its parts is read as: a second sign, a second point, or more than twenty whole digits make it
      malformed. */
  function Meaning(f: Form): (r: Option<int>)
    requires WellFormed(f)
  {
    if |f.a| >= 21 || StartsNumber(f.rest) || (f.a == "" && !f.point && f.sign != "" && Signs(f.rest)) then None
    else
      var s := if f.sign == "-" then -1 else 1;
      Amount(Appended(0, f.a) * s, Fraction(f.b) * s, if f.point then 1 + Kept(f.b) else 0, f.rest)
  }

  lemma SignForm(sign: string, t: string)
    requires sign == "" || sign == "-" || sign == "+"
    requires sign == "" ==> !Signs(t)
    ensures Sign(sign + t, 0) == if sign != "" && Signs(t) then None
                                 else Some((if sign == "-" then -1 else if sign == "+" then 1 else 0, t))
  {
    if sign == "" {
      assert sign + t == t;
    } else {
      assert (sign + t)[0] == sign[0] && (sign + t)[1..] == t;
    }
  }

  lemma NumeralStart(f: Form)
    requires WellFormed(f)
    ensures var t := Numeral(f.a, f.point, f.b) + f.rest;
      (Signs(t) <==> f.a == "" && !f.point && Signs(f.rest)) && (t != "" && Space(t[0]) ==> f.a == "" && !f.point && Space(f.rest[0]) && f.rest != "")
  {
    var t := Numeral(f.a, f.point, f.b) + f.rest;
    if f.a != "" {
      assert t[0] == f.a[0] && Digit(f.a[0]);
    } else if f.point {
      assert t[0] == '.';
    } else {
      assert t == f.rest;
    }
  }

  /** scan_scaled reads every text in its parts as what they mean. */
  lemma ScanForm(f: Form)
    requires WellFormed(f)
    ensures Scan(Joined(f)) == Meaning(f)
  {
    hide Number;
    hide Sign;
    hide TrimLeft;
    hide Unit;
    hide Scaled;
    hide Appended;
    hide Fraction;
    hide Digit;
    hide AllDigits;
    hide AllSpace;
    hide Numeral;
    hide Alnum;
    var n := Numeral(f.a, f.point, f.b) + f.rest;
    NumeralStart(f);
    SignStart(f.sign, n);
    TrimSpace(f.space, f.sign + n);
    SignForm(f.sign, n);
    NumberForm(f.a, f.point, f.b, f.rest);
    assert f.sign == "-" || f.sign == "+" || f.sign == "";
  }

  lemma SignStart(sign: string, n: string)
    requires sign == "" || sign == "-" || sign == "+"
    requires sign == "" && n != "" ==> !Space(n[0])
    ensures sign + n != "" ==> !Space((sign + n)[0])
  {
    assert sign == "" ==> sign + n == n;
  }

  lemma {:induction false} LeadingDigits(t: string) returns (a: string, rest: string)
    ensures t == a + rest && AllDigits(a) && (rest != "" ==> !Digit(rest[0]))
  {
    if t == "" || !Digit(t[0]) {
      a, rest := "", t;
    } else {
      a, rest := LeadingDigits(t[1..]);
      a := [t[0]] + a;
    }
  }

  lemma {:induction false} LeadingSpace(t: string) returns (sp: string, rest: string)
    ensures t == sp + rest && AllSpace(sp) && (rest != "" ==> !Space(rest[0]))
  {
    if t == "" || !Space(t[0]) {
      sp, rest := "", t;
    } else {
      sp, rest := LeadingSpace(t[1..]);
      sp := [t[0]] + sp;
    }
  }

  /** Every text has such parts, so every text has a meaning. */
  lemma EveryText(text: string) returns (f: Form)
    ensures WellFormed(f) && Joined(f) == text && Scan(text) == Meaning(f)
  {
    hide Scan;
    hide Meaning;
    hide Digit;
    hide Space;
    var sp, t := LeadingSpace(text);
    var sign := if Signs(t) then t[..1] else "";
    var n := t[|sign|..];
    var a, r := LeadingDigits(n);
    if r != "" && r[0] == '.' {
      var b, rest := LeadingDigits(r[1..]);
      f := Form(sp, sign, a, true, b, rest);
      assert Numeral(a, true, b) + rest == n;
    } else {
      f := Form(sp, sign, a, false, "", r);
      assert Numeral(a, false, "") + r == n;
    }
    assert t == sign + n;
    ScanForm(f);
  }

  // ---------- the letters ----------

  /** What each letter stands for, in upper and in lower case. */
  lemma UnitLetters()
    ensures Unit('B', 0) == 0 && Unit('K', 0) == 1 && Unit('M', 0) == 2 && Unit('G', 0) == 3
    ensures Unit('T', 0) == 4 && Unit('P', 0) == 5 && Unit('E', 0) == 6
  {
  }

  lemma UnitLowerLetters()
    ensures Unit('b', 0) == 0 && Unit('k', 0) == 1 && Unit('m', 0) == 2 && Unit('g', 0) == 3
    ensures Unit('t', 0) == 4 && Unit('p', 0) == 5 && Unit('e', 0) == 6
  {
  }

  /** Nothing else is a unit. */
  lemma NoUnit(c: char)
    requires c !in "BKMGTPE" && c !in "bkmgtpe"
    ensures Unit(c, 0) == 7
  {
    assert "BKMGTPE"[0] == 'B' && "BKMGTPE"[1] == 'K' && "BKMGTPE"[2] == 'M' && "BKMGTPE"[3] == 'G';
    assert "BKMGTPE"[4] == 'T' && "BKMGTPE"[5] == 'P' && "BKMGTPE"[6] == 'E';
    assert "bkmgtpe"[0] == 'b' && "bkmgtpe"[1] == 'k' && "bkmgtpe"[2] == 'm' && "bkmgtpe"[3] == 'g';
    assert "bkmgtpe"[4] == 't' && "bkmgtpe"[5] == 'p' && "bkmgtpe"[6] == 'e';
  }

  /** What a unit multiplies by. */
  lemma Factors()
    ensures Factor(0) == 1 && Factor(1) == 1024 && Factor(2) == 1024 * 1024 && Factor(3) == 1024 * 1024 * 1024
    ensures Factor(4) == 1024 * 1024 * 1024 * 1024 && Factor(5) == 1024 * 1024 * 1024 * 1024 * 1024
    ensures Factor(6) == 1024 * 1024 * 1024 * 1024 * 1024 * 1024
  {
  }

  /** What each digit stands for. */
  lemma DigitValues()
    ensures Appended(0, "0") == 0 && Appended(0, "1") == 1 && Appended(0, "2") == 2 && Appended(0, "3") == 3
    ensures Appended(0, "4") == 4 && Appended(0, "5") == 5 && Appended(0, "6") == 6 && Appended(0, "7") == 7
    ensures Appended(0, "8") == 8 && Appended(0, "9") == 9
  {
    assert "0"[1..] == "" && "1"[1..] == "" && "2"[1..] == "" && "3"[1..] == "" && "4"[1..] == "";
    assert "5"[1..] == "" && "6"[1..] == "" && "7"[1..] == "" && "8"[1..] == "" && "9"[1..] == "";
  }

  /** Digits and a letter are read as the number times what the letter multiplies by. */
  lemma ReadsUnit(a: string, c: char)
    requires AllDigits(a) && a != "" && |a| <= 20 && !Digit(c) && c != '.' && Unit(c, 0) < 7
    ensures Scan(a + [c]) == Some(Appended(0, a) * Factor(Unit(c, 0)))
  {
    hide Scan;
    hide Unit;
    hide Appended;
    hide Factor;
    hide Limit;
    var f := Form("", "", a, false, "", [c]);
    assert Joined(f) == a + [c];
    ScanForm(f);
    NoDigits(a, "");
    assert Scaled(Appended(0, a), 0, 0, Unit(c, 0)) == Appended(0, a) * Factor(Unit(c, 0));
  }

  /** `12K` and the like: 1024 times the number. */
  lemma ReadsKilo(a: string)
    requires AllDigits(a) && a != "" && |a| <= 20
    ensures Scan(a + "K") == Some(Appended(0, a) * 1024) && Scan(a + "k") == Some(Appended(0, a) * 1024)
  {
    hide Scan;
    hide Unit;
    hide Appended;
    UnitLetters();
    UnitLowerLetters();
    ReadsUnit(a, 'K');
    ReadsUnit(a, 'k');
  }

  // ---------- what a unit does ----------

  /** The largest fraction that can be scaled without overflow. */
  lemma LimitIs(i: nat)
    requires i < 7
    ensures Limit(i) * Factor(i) <= Max < (Limit(i) + 1) * Factor(i)
  {
    hide Factor;
    Division(Max, Factor(i));
    assert (Limit(i) + 1) * Factor(i) == Limit(i) * Factor(i) + Factor(i);
  }

  function Power10(k: nat): (p: nat)
    ensures p > 0
  {
    if k == 0 then 1 else 10 * Power10(k - 1)
  }

  lemma DivTwice(n: nat, d: int)
    requires d > 0
    ensures n / 10 / d == n / (10 * d)
  {
    var q, e := n / 10 / d, n / 10 % d;
    Division(n / 10, d);
    assert n == 10 * (q * d + e) + n % 10;
    assert 10 * (q * d) == q * (10 * d);
    Euclid(n, 10 * d, q, 10 * e + n % 10);
  }

  /** Dividing by ten so often is dividing by the power, toward zero. */
  lemma {:induction false} DivTensIs(n: int, k: nat)
    ensures DivTens(n, k) == Quotient(n, Power10(k))
    decreases k
  {
    if k > 0 {
      DivTensIs(Quotient(n, 10), k - 1);
      DivTwice(Abs(n), Power10(k - 1));
    }
  }

  /** If the fraction is small enough to be scaled, it is scaled exactly and rounded toward zero. */
  lemma ScaledIs(whole: int, fpart: int, fract: int, i: nat)
    requires i < 7 && fpart < Limit(i) && fract >= 1
    ensures Scaled(whole, fpart, fract, i) == whole * Factor(i) + Quotient(fpart * Factor(i), Power10(fract - 1))
  {
    hide Limit;
    hide Factor;
    DivTensIs(fpart * Factor(i), fract - 1);
  }

  /** Otherwise digits are dropped from its end, as few as make it small enough. */
  lemma {:induction false} ShrinkIs(fpart: nat, fract: int, limit: int) returns (j: nat)
    requires limit > 0
    ensures Shrink(fpart, fract, limit) == (Quotient(fpart, Power10(j)), fract - j)
    ensures Quotient(fpart, Power10(j)) < limit && (j > 0 ==> Quotient(fpart, Power10(j - 1)) >= limit)
    decreases fpart
  {
    if fpart < limit {
      j := 0;
    } else {
      var k := ShrinkIs(Quotient(fpart, 10), fract - 1, limit);
      j := k + 1;
      DivTwice(fpart, Power10(k));
      if k > 0 { DivTwice(fpart, Power10(k - 1)); }
    }
  }

  predicate LongLong(x: int) {
    Min <= x <= Max
  }

  /** Whether scaling stays within the type of the result. */
  predicate InRange(whole: int, fpart: int, fract: int, i: nat)
    requires i < 7
  {
    LongLong(whole * Factor(i)) && LongLong(Shrink(fpart, fract, Limit(i)).0 * Factor(i)) &&
    LongLong(Scaled(whole, fpart, fract, i))
  }

  // ---------- the loops ----------

  /** scan_scaled */
  method Read(text: string) returns (r: Option<int>)
    ensures r == Scan(text)
  {
    hide Number;
    hide Sign;
    hide TrimLeft;
    hide Unit;
    hide Scaled;
    hide Alnum;
    var signed := ReadSign(text);
    if signed == None {
      return None;
    }
    var (sign, t) := signed.value;
    var number := ReadNumber(t);
    if number == None {
      return None;
    }
    var (u, rest) := number.value;
    var whole, fpart := u.whole, u.fpart;
    if sign != 0 {
      whole, fpart := whole * sign, fpart * sign;
    }
    if rest == "" {
      return Some(whole);
    }
    var i := FindUnit(rest[0]);
    if i == 7 || (|rest| > 1 && Alnum(rest[1])) {
      return None;
    }
    var result := ApplyUnit(whole, fpart, u.fract, i);
    return Some(result);
  }

  /** Leading white space and at most one sign. */
  method ReadSign(text: string) returns (r: Option<(int, string)>)
    ensures r == Sign(TrimLeft(text), 0)
  {
    var t := text;
    while t != "" && Space(t[0])
      invariant TrimLeft(t) == TrimLeft(text)
      decreases |t|
    {
      t := t[1..];
    }
    var sign := 0;
    while t != "" && (t[0] == '-' || t[0] == '+')
      invariant Sign(t, sign) == Sign(TrimLeft(text), 0)
      decreases |t|
    {
      if sign != 0 {
        return None;
      }
      sign := if t[0] == '-' then -1 else 1;
      t := t[1..];
    }
    return Some((sign, t));
  }

  /** The main loop over digits and a point. */
  method ReadNumber(text: string) returns (r: Option<(Sum, string)>)
    ensures r == Number(text, Sum(0, 0, 0, 0))
  {
    hide Step;
    var t, u := text, Sum(0, 0, 0, 0);
    while t != "" && (Digit(t[0]) || t[0] == '.')
      invariant Number(t, u) == Number(text, Sum(0, 0, 0, 0))
      decreases |t|
    {
      var v := Step(u, t[0]);
      if v == None {
        return None;
      }
      u, t := v.value, t[1..];
    }
    return Some((u, t));
  }

  method FindUnit(c: char) returns (i: nat)
    ensures i == Unit(c, 0)
  {
    i := 0;
    while i < 7 && c != Suffixes[i] && c != Lower(Suffixes[i])
      invariant i <= 7 && Unit(c, 0) == Unit(c, i)
    {
      i := i + 1;
    }
  }

  method ApplyUnit(whole: int, fpart: int, fract: int, i: nat) returns (r: int)
    requires i < 7
    ensures r == Scaled(whole, fpart, fract, i)
  {
    hide Limit;
    var p, k := fpart, fract;
    while p >= Limit(i)
      invariant Shrink(p, k, Limit(i)) == Shrink(fpart, fract, Limit(i))
      decreases if p < 0 then 0 else p
    {
      p, k := Quotient(p, 10), k - 1;
    }
    p := p * Factor(i);
    ghost var scaled := p;
    var j := 0;
    while j < k - 1
      invariant j == 0 || j <= k - 1
      invariant DivTens(p, k - 1 - j) == DivTens(scaled, k - 1)
    {
      p := Quotient(p, 10);
      j := j + 1;
    }
    return whole * Factor(i) + p;
  }
}
