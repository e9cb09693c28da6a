/**
 The Base64 text of compat/base64.c: the alphabet, the encoding of a byte sequence, and the decoder's
 automaton over text that may hold white space.
 */
module Base64 {
  import opened Common

  type Byte = x: int | 0 <= x < 256
  type Sextet = x: int | 0 <= x < 64

  /** Entry `v` of the table `Base64`: A-Z, a-z, 0-9, + and /. */
  function Letter(v: Sextet): (c: char)
    ensures c != '=' && c != '\0' && !Space(c)
  {
    if v < 26 then 'A' + v as char
    else if v < 52 then 'a' + (v - 26) as char
    else if v < 62 then '0' + (v - 52) as char
    else if v == 62 then '+' else '/'
  }

  /** The position of a character in the table, as `strchr` finds it. */
  function Value(c: char): (r: Option<Sextet>)
    ensures r.Some? ==> Letter(r.value) == c
    ensures r == None <==> forall v: Sextet :: Letter(v) != c
    ensures forall v: Sextet :: Letter(v) == c ==> r == Some(v)
  {
    if 'A' <= c <= 'Z' then Some((c - 'A') as int)
    else if 'a' <= c <= 'z' then Some((c - 'a') as int + 26)
    else if '0' <= c <= '9' then Some((c - '0') as int + 52)
    else if c == '+' then Some(62) else if c == '/' then Some(63) else None
  }

  // ---------- table 1 of RFC 4648 ----------

  lemma Alphabet0()
    ensures Letter(0) == 'A' && Letter(1) == 'B' && Letter(2) == 'C' && Letter(3) == 'D'
    ensures Letter(4) == 'E' && Letter(5) == 'F' && Letter(6) == 'G' && Letter(7) == 'H'
    ensures Letter(8) == 'I' && Letter(9) == 'J' && Letter(10) == 'K' && Letter(11) == 'L'
    ensures Letter(12) == 'M' && Letter(13) == 'N' && Letter(14) == 'O' && Letter(15) == 'P'
  {
  }

  lemma Alphabet1()
    ensures Letter(16) == 'Q' && Letter(17) == 'R' && Letter(18) == 'S' && Letter(19) == 'T'
    ensures Letter(20) == 'U' && Letter(21) == 'V' && Letter(22) == 'W' && Letter(23) == 'X'
    ensures Letter(24) == 'Y' && Letter(25) == 'Z' && Letter(26) == 'a' && Letter(27) == 'b'
    ensures Letter(28) == 'c' && Letter(29) == 'd' && Letter(30) == 'e' && Letter(31) == 'f'
  {
  }

  lemma Alphabet2()
    ensures Letter(32) == 'g' && Letter(33) == 'h' && Letter(34) == 'i' && Letter(35) == 'j'
    ensures Letter(36) == 'k' && Letter(37) == 'l' && Letter(38) == 'm' && Letter(39) == 'n'
    ensures Letter(40) == 'o' && Letter(41) == 'p' && Letter(42) == 'q' && Letter(43) == 'r'
    ensures Letter(44) == 's' && Letter(45) == 't' && Letter(46) == 'u' && Letter(47) == 'v'
  {
  }

  lemma Alphabet3()
    ensures Letter(48) == 'w' && Letter(49) == 'x' && Letter(50) == 'y' && Letter(51) == 'z'
    ensures Letter(52) == '0' && Letter(53) == '1' && Letter(54) == '2' && Letter(55) == '3'
    ensures Letter(56) == '4' && Letter(57) == '5' && Letter(58) == '6' && Letter(59) == '7'
    ensures Letter(60) == '8' && Letter(61) == '9' && Letter(62) == '+' && Letter(63) == '/'
  {
  }

  /** Bitwise or of two bytes. */
  function Or(a: int, b: int): (r: int)
    requires a >= 0 && b >= 0
    decreases a + b
  {
    if a == 0 && b == 0 then 0 else (if a % 2 == 1 || b % 2 == 1 then 1 else 0) + 2 * Or(a / 2, b / 2)
  }

  lemma {:induction false} OrZero(a: int)
    requires a >= 0
    ensures Or(a, 0) == a
  {
    if a > 0 { OrZero(a / 2); }
  }

  /** One more low bit. */
  lemma OrEven(x: int, b: int)
    requires x >= 0 && b >= 0
    ensures Or(2 * x, b) == 2 * Or(x, b / 2) + b % 2
  {
  }

  /** Where the bits do not overlap, or is addition. */
  lemma OrTwo(x: int, b: int)
    requires x >= 0 && 0 <= b < 4
    ensures Or(4 * x, b) == 4 * x + b
  {
    hide Or;
    OrEven(2 * x, b);
    OrEven(x, b / 2);
    OrZero(x);
  }

  lemma OrFour(x: int, b: int)
    requires x >= 0 && 0 <= b < 16
    ensures Or(16 * x, b) == 16 * x + b
  {
    hide Or;
    OrEven(8 * x, b);
    OrEven(4 * x, b / 2);
    OrTwo(x, b / 4);
  }

  lemma OrSix(x: int, b: int)
    requires x >= 0 && 0 <= b < 64
    ensures Or(64 * x, b) == 64 * x + b
  {
    hide Or;
    OrEven(32 * x, b);
    OrEven(16 * x, b / 2);
    OrFour(x, b / 4);
  }

  /** Text without its white space. */
  function Strip(t: string): (r: string)
    ensures forall c :: c in r ==> !Space(c)
  {
    if t == "" then "" else if Space(t[0]) then Strip(t[1..]) else [t[0]] + Strip(t[1..])
  }

  /** The encoding: three bytes make four letters; a last group of one or two bytes is padded. */
  function Encode(b: seq<Byte>): (t: string) {
    if |b| == 0 then ""
    else if |b| == 1 then [Letter(b[0] / 4), Letter(b[0] % 4 * 16), '=', '=']
    else if |b| == 2 then [Letter(b[0] / 4), Letter(b[0] % 4 * 16 + b[1] / 16), Letter(b[1] % 16 * 4), '=']
    else
      [Letter(b[0] / 4), Letter(b[0] % 4 * 16 + b[1] / 16), Letter(b[1] % 16 * 4 + b[2] / 64), Letter(b[2] % 64)] +
      Encode(b[3..])
  }

  /** What the decoder holds: the finished bytes, its state, and the bits left for the next byte. */
  datatype Progress = Progress(bytes: seq<Byte>, state: int, rest: Byte)

  const Start := Progress([], 0, 0)

  /** One letter, from each of the four states. */
  function Absorb(p: Progress, v: Sextet): (r: Progress) {
    if p.state == 0 then Progress(p.bytes, 1, v * 4 % 256)
    else if p.state == 1 then Progress(p.bytes + [Or(p.rest, v / 16) % 256], 2, v % 16 * 16)
    else if p.state == 2 then Progress(p.bytes + [Or(p.rest, v / 4) % 256], 3, v % 4 * 64)
    else Progress(p.bytes + [Or(p.rest, v) % 256], 0, 0)
  }

  predicate AllSpace(t: string) {
    forall i :: 0 <= i < |t| ==> Space(t[i])
  }

  /** The text after white space. */
  function SkipSpace(t: string): (r: string)
    ensures Strip(r) == Strip(t) && (r != "" ==> !Space(r[0])) && |r| <= |t|
  {
    if t != "" && Space(t[0]) then SkipSpace(t[1..]) else t
  }

  /** Whether the text after the first pad character may end the encoding in this state. */
  predicate PadEnds(state: int, t: string) {
    if state == 2 then
      var u := SkipSpace(t);
      u != "" && u[0] == '=' && AllSpace(u[1..])
    else state == 3 && AllSpace(t)
  }

  /** The decoder's automaton; `strict` is the check that no bits are left over in the end. */
  function Scan(strict: bool, p: Progress, t: string): (r: Option<seq<Byte>>)
    decreases |t|
  {
    if t == "" then
      if p.state == 0 then Some(p.bytes) else None
    else if Space(t[0]) then Scan(strict, p, t[1..])
    else if t[0] == '=' then
      if PadEnds(p.state, t[1..]) && (strict ==> p.rest == 0) then Some(p.bytes) else None
    else
      match Value(t[0])
      case None => None
      case Some(v) => Scan(strict, Absorb(p, v), t[1..])
  }

  lemma {:induction false} StripSpaces(t: string)
    ensures Strip(t) == "" <==> AllSpace(t)
  {
    if t != "" {
      StripSpaces(t[1..]);
      assert AllSpace(t) <==> Space(t[0]) && AllSpace(t[1..]) by {
        assert forall i :: 0 < i < |t| ==> t[i] == t[1..][i - 1];
      }
    }
  }

  lemma {:induction false} PadStrip(state: int, t: string)
    ensures PadEnds(state, t) <==> if state == 2 then Strip(t) == "=" else state == 3 && Strip(t) == ""
  {
    StripSpaces(t);
    var u := SkipSpace(t);
    if u != "" {
      StripSpaces(u[1..]);
      assert Strip(u) == [u[0]] + Strip(u[1..]);
      assert Strip(u)[0] == u[0] && Strip(u)[1..] == Strip(u[1..]);
      assert u[0] == '=' && Strip(u[1..]) == "" ==> Strip(u) == "=";
    }
  }

  lemma {:induction false} StripTwice(t: string)
    ensures Strip(Strip(t)) == Strip(t)
  {
    if t != "" {
      StripTwice(t[1..]);
      if !Space(t[0]) { assert Strip(t)[1..] == Strip(t[1..]); }
    }
  }

  /** White space anywhere makes no difference. */
  lemma {:induction false} ScanStrip(strict: bool, p: Progress, t: string)
    ensures Scan(strict, p, t) == Scan(strict, p, Strip(t))
    decreases |t|
  {
    if t == "" {
    } else if Space(t[0]) {
      ScanStrip(strict, p, t[1..]);
    } else {
      assert Strip(t)[1..] == Strip(t[1..]);
      if t[0] == '=' {
        PadStrip(p.state, t[1..]);
        PadStrip(p.state, Strip(t[1..]));
        StripTwice(t[1..]);
      } else if Value(t[0]).Some? {
        ScanStrip(strict, Absorb(p, Value(t[0]).value), t[1..]);
      }
    }
  }

  /** Decoding only adds bytes, and leftover bits call for another byte. */
  lemma {:induction false} ScanGrows(p: Progress, t: string)
    requires Scan(true, p, t).Some?
    ensures p.bytes <= Scan(true, p, t).value
    ensures p.state == 1 || (p.state != 0 && p.rest != 0) ==> |Scan(true, p, t).value| > |p.bytes|
    decreases |t|
  {
    if t == "" || (t[0] == '=' && !Space(t[0])) {
    } else if Space(t[0]) {
      ScanGrows(p, t[1..]);
    } else {
      ScanGrows(Absorb(p, Value(t[0]).value), t[1..]);
    }
  }

  lemma OneLetter(strict: bool, p: Progress, v: Sextet, t: string)
    ensures Scan(strict, p, [Letter(v)] + t) == Scan(strict, Absorb(p, v), t)
  {
    assert ([Letter(v)] + t)[1..] == t;
  }

  lemma Pads(strict: bool, p: Progress, t: string)
    requires t == "=" || t == "=="
    ensures Scan(strict, p, t) ==
            if (if |t| == 2 then p.state == 2 else p.state == 3) && (strict ==> p.rest == 0) then Some(p.bytes) else None
  {
    PadStrip(p.state, t[1..]);
    assert t == "==" ==> Strip(t[1..]) == "=" by { assert t == "==" ==> t[1..] == "=" && Strip("=") == "="; }
  }

  /** Four letters from a byte boundary give three bytes. */
  lemma FourLetters(acc: seq<Byte>, v0: Sextet, v1: Sextet, v2: Sextet, v3: Sextet)
    ensures v0 * 4 + v1 / 16 < 256 && v1 % 16 * 16 + v2 / 4 < 256 && v2 % 4 * 64 + v3 < 256
    ensures Absorb(Progress(acc, 0, 0), v0) == Progress(acc, 1, v0 * 4)
    ensures Absorb(Progress(acc, 1, v0 * 4), v1) == Progress(acc + [v0 * 4 + v1 / 16], 2, v1 % 16 * 16)
    ensures Absorb(Progress(acc, 2, v1 % 16 * 16), v2) == Progress(acc + [v1 % 16 * 16 + v2 / 4], 3, v2 % 4 * 64)
    ensures Absorb(Progress(acc, 3, v2 % 4 * 64), v3) == Progress(acc + [v2 % 4 * 64 + v3], 0, 0)
  {
    hide Or;
    OrTwo(v0, v1 / 16);
    OrFour(v1 % 16, v2 / 4);
    OrSix(v2 % 4, v3);
  }

  /** What scanning does with the rest of a group whose letters are known. */
  lemma ScanTwo(strict: bool, acc: seq<Byte>, v0: Sextet, v1: Sextet, t: string)
    ensures v0 * 4 + v1 / 16 < 256
    ensures Scan(strict, Progress(acc, 0, 0), [Letter(v0), Letter(v1)] + t) ==
            Scan(strict, Progress(acc + [v0 * 4 + v1 / 16], 2, v1 % 16 * 16), t)
  {
    hide Scan;
    hide Absorb;
    hide Letter;
    FourLetters(acc, v0, v1, 0, 0);
    assert [Letter(v0), Letter(v1)] + t == [Letter(v0)] + ([Letter(v1)] + t);
    OneLetter(strict, Progress(acc, 0, 0), v0, [Letter(v1)] + t);
    OneLetter(strict, Progress(acc, 1, v0 * 4), v1, t);
  }

  lemma ScanThree(strict: bool, acc: seq<Byte>, v0: Sextet, v1: Sextet, v2: Sextet, t: string)
    ensures v0 * 4 + v1 / 16 < 256 && v1 % 16 * 16 + v2 / 4 < 256
    ensures Scan(strict, Progress(acc, 0, 0), [Letter(v0), Letter(v1), Letter(v2)] + t) ==
            Scan(strict, Progress(acc + [v0 * 4 + v1 / 16, v1 % 16 * 16 + v2 / 4], 3, v2 % 4 * 64), t)
  {
    hide Scan;
    hide Absorb;
    hide Letter;
    assert [Letter(v0), Letter(v1), Letter(v2)] + t == [Letter(v0), Letter(v1)] + ([Letter(v2)] + t);
    ScanTwo(strict, acc, v0, v1, [Letter(v2)] + t);
    var acc' := acc + [v0 * 4 + v1 / 16];
    FourLetters(acc', v0, v1, v2, 0);
    OneLetter(strict, Progress(acc', 2, v1 % 16 * 16), v2, t);
    assert acc' + [v1 % 16 * 16 + v2 / 4] == acc + [v0 * 4 + v1 / 16, v1 % 16 * 16 + v2 / 4];
  }

  lemma ScanFour(strict: bool, acc: seq<Byte>, v0: Sextet, v1: Sextet, v2: Sextet, v3: Sextet, t: string)
    ensures v0 * 4 + v1 / 16 < 256 && v1 % 16 * 16 + v2 / 4 < 256 && v2 % 4 * 64 + v3 < 256
    ensures Scan(strict, Progress(acc, 0, 0), [Letter(v0), Letter(v1), Letter(v2), Letter(v3)] + t) ==
            Scan(strict, Progress(acc + [v0 * 4 + v1 / 16, v1 % 16 * 16 + v2 / 4, v2 % 4 * 64 + v3], 0, 0), t)
  {
    hide Scan;
    hide Absorb;
    hide Letter;
    assert [Letter(v0), Letter(v1), Letter(v2), Letter(v3)] + t ==
           [Letter(v0), Letter(v1), Letter(v2)] + ([Letter(v3)] + t);
    ScanThree(strict, acc, v0, v1, v2, [Letter(v3)] + t);
    var acc' := acc + [v0 * 4 + v1 / 16, v1 % 16 * 16 + v2 / 4];
    FourLetters(acc', v0, v1, v2, v3);
    OneLetter(strict, Progress(acc', 3, v2 % 4 * 64), v3, t);
    assert acc' + [v2 % 4 * 64 + v3] == acc + [v0 * 4 + v1 / 16, v1 % 16 * 16 + v2 / 4, v2 % 4 * 64 + v3];
  }

  /** Decoding an encoding gives the bytes back. */
  lemma {:induction false} ScanEncoded(strict: bool, acc: seq<Byte>, b: seq<Byte>)
    ensures Scan(strict, Progress(acc, 0, 0), Encode(b)) == Some(acc + b)
    decreases |b|
  {
    hide Scan;
    hide Letter;
    hide Encode;
    if |b| == 0 {
      ScanEmpty(strict, acc);
    } else if |b| == 1 {
      ScanOneByte(strict, acc, b);
    } else if |b| == 2 {
      ScanTwoBytes(strict, acc, b);
    } else {
      var v0, v1, v2, v3 := b[0] / 4, b[0] % 4 * 16 + b[1] / 16, b[1] % 16 * 4 + b[2] / 64, b[2] % 64;
      ThreeBytes(b);
      ScanFour(strict, acc, v0, v1, v2, v3, Encode(b[3..]));
      var acc' := acc + [b[0], b[1], b[2]];
      ScanEncoded(strict, acc', b[3..]);
      assert acc' + b[3..] == acc + b;
      assert v0 * 4 + v1 / 16 == b[0] && v1 % 16 * 16 + v2 / 4 == b[1] && v2 % 4 * 64 + v3 == b[2];
    }
  }

  lemma ThreeBytes(b: seq<Byte>)
    requires |b| >= 3
    ensures Encode(b) == [Letter(b[0] / 4), Letter(b[0] % 4 * 16 + b[1] / 16), Letter(b[1] % 16 * 4 + b[2] / 64),
                          Letter(b[2] % 64)] + Encode(b[3..])
  {
  }

  lemma ScanOneByte(strict: bool, acc: seq<Byte>, b: seq<Byte>)
    requires |b| == 1
    ensures Scan(strict, Progress(acc, 0, 0), Encode(b)) == Some(acc + b)
  {
    hide Scan;
    hide Letter;
    var v0, v1 := b[0] / 4, b[0] % 4 * 16;
    assert Encode(b) == [Letter(v0), Letter(v1)] + "==";
    ScanTwo(strict, acc, v0, v1, "==");
    assert v0 * 4 + v1 / 16 == b[0] && v1 % 16 * 16 == 0;
    assert b == [b[0]];
    Pads(strict, Progress(acc + [b[0]], 2, 0), "==");
  }

  lemma ScanTwoBytes(strict: bool, acc: seq<Byte>, b: seq<Byte>)
    requires |b| == 2
    ensures Scan(strict, Progress(acc, 0, 0), Encode(b)) == Some(acc + b)
  {
    hide Scan;
    hide Letter;
    var v0, v1, v2 := b[0] / 4, b[0] % 4 * 16 + b[1] / 16, b[1] % 16 * 4;
    assert Encode(b) == [Letter(v0), Letter(v1), Letter(v2)] + "=";
    ScanThree(strict, acc, v0, v1, v2, "=");
    assert v0 * 4 + v1 / 16 == b[0] && v1 % 16 * 16 + v2 / 4 == b[1] && v2 % 4 * 64 == 0;
    assert b == [b[0], b[1]];
    Pads(strict, Progress(acc + [b[0], b[1]], 3, 0), "=");
  }

  lemma ScanEmpty(strict: bool, acc: seq<Byte>)
    ensures Encode([]) == "" && Scan(strict, Progress(acc, 0, 0), "") == Some(acc + [])
  {
    assert acc + [] == acc;
  }

  /** Text that decodes is the encoding of what it decodes to. */
  lemma {:induction false} ScannedText(acc: seq<Byte>, t: string) returns (b: seq<Byte>)
    requires Scan(true, Progress(acc, 0, 0), t).Some? && forall c :: c in t ==> !Space(c)
    ensures Scan(true, Progress(acc, 0, 0), t).value == acc + b && Encode(b) == t
    decreases |t|, 2
  {
    hide Letter;
    hide Value;
    hide Absorb;
    if t == "" {
      b := [];
      assert acc + b == acc;
    } else {
      assert t[0] in t;
      var p := Progress(acc, 0, 0);
      var v0 := Value(t[0]).value;
      assert [Letter(v0)] + t[1..] == t;
      FourLetters(acc, v0, 0, 0, 0);
      var t1 := t[1..];
      assert t1 != "" && t1[0] in t;
      var v1 := Value(t1[0]).value;
      b := ScannedGroup(acc, v0, v1, t);
    }
  }

  lemma {:induction false} ScannedGroup(acc: seq<Byte>, v0: Sextet, v1: Sextet, t: string) returns (b: seq<Byte>)
    requires |t| >= 2 && t[0] == Letter(v0) && t[1] == Letter(v1)
    requires Scan(true, Progress(acc, 0, 0), t).Some? && forall c :: c in t ==> !Space(c)
    ensures Scan(true, Progress(acc, 0, 0), t).value == acc + b && Encode(b) == t
    decreases |t|, 1
  {
    hide Letter;
    hide Value;
    hide Absorb;
    hide Or;
    ScanTwo(true, acc, v0, v1, t[2..]);
    assert t == [Letter(v0), Letter(v1)] + t[2..];
    assert t[2..] != "" && t[2] in t;
    var acc' := acc + [v0 * 4 + v1 / 16];
    if t[2] == '=' {
      assert t[2..][0] == '=';
      PadText(2, t[2..]);
      b := [v0 * 4 + v1 / 16];
      LastOne(v0, v1);
      assert t == [Letter(v0), Letter(v1), '=', '='];
    } else {
      var v2 := Value(t[2]).value;
      b := ScannedThree(acc, v0, v1, v2, t);
    }
  }

  lemma {:induction false} ScannedThree(acc: seq<Byte>, v0: Sextet, v1: Sextet, v2: Sextet, t: string)
    returns (b: seq<Byte>)
    requires |t| >= 3 && t[0] == Letter(v0) && t[1] == Letter(v1) && t[2] == Letter(v2)
    requires Scan(true, Progress(acc, 0, 0), t).Some? && forall c :: c in t ==> !Space(c)
    ensures Scan(true, Progress(acc, 0, 0), t).value == acc + b && Encode(b) == t
    decreases |t|, 0
  {
    hide Letter;
    hide Value;
    hide Absorb;
    hide Encode;
    hide Strip;
    hide Or;
    ScanThree(true, acc, v0, v1, v2, t[3..]);
    assert t == [Letter(v0), Letter(v1), Letter(v2)] + t[3..];
    assert t[3..] != "" && t[3] in t;
    if t[3] == '=' {
      assert t[3..][0] == '=';
      PadText(3, t[3..]);
      b := [v0 * 4 + v1 / 16, v1 % 16 * 16 + v2 / 4];
      LastTwo(v0, v1, v2);
      assert t == [Letter(v0), Letter(v1), Letter(v2), '='];
    } else {
      var v3 := Value(t[3]).value;
      ScanFour(true, acc, v0, v1, v2, v3, t[4..]);
      assert t == [Letter(v0), Letter(v1), Letter(v2), Letter(v3)] + t[4..];
      var group := [v0 * 4 + v1 / 16, v1 % 16 * 16 + v2 / 4, v2 % 4 * 64 + v3];
      b := ScannedText(acc + group, t[4..]);
      assert acc + group + b == acc + (group + b);
      Group(v0, v1, v2, v3, b);
      b := group + b;
    }
  }

  /** The groups encode to the letters they came from, if no bits are left over. */
  lemma LastOne(v0: Sextet, v1: Sextet)
    requires v1 % 16 * 16 == 0
    ensures v0 * 4 + v1 / 16 < 256 && Encode([v0 * 4 + v1 / 16]) == [Letter(v0), Letter(v1), '=', '=']
  {
    hide Letter;
  }

  lemma LastTwo(v0: Sextet, v1: Sextet, v2: Sextet)
    requires v2 % 4 * 64 == 0
    ensures v0 * 4 + v1 / 16 < 256 && v1 % 16 * 16 + v2 / 4 < 256
    ensures Encode([v0 * 4 + v1 / 16, v1 % 16 * 16 + v2 / 4]) == [Letter(v0), Letter(v1), Letter(v2), '=']
  {
    hide Letter;
    var b := [v0 * 4 + v1 / 16, v1 % 16 * 16 + v2 / 4];
    assert b[0] / 4 == v0 && b[0] % 4 * 16 + b[1] / 16 == v1 && b[1] % 16 * 4 == v2;
  }

  lemma Group(v0: Sextet, v1: Sextet, v2: Sextet, v3: Sextet, b: seq<Byte>)
    ensures v0 * 4 + v1 / 16 < 256 && v1 % 16 * 16 + v2 / 4 < 256 && v2 % 4 * 64 + v3 < 256
    ensures Encode([v0 * 4 + v1 / 16, v1 % 16 * 16 + v2 / 4, v2 % 4 * 64 + v3] + b) ==
            [Letter(v0), Letter(v1), Letter(v2), Letter(v3)] + Encode(b)
  {
    hide Letter;
    var c := [v0 * 4 + v1 / 16, v1 % 16 * 16 + v2 / 4, v2 % 4 * 64 + v3] + b;
    assert c[3..] == b;
    assert c[0] / 4 == v0 && c[0] % 4 * 16 + c[1] / 16 == v1;
    assert c[1] % 16 * 4 + c[2] / 64 == v2 && c[2] % 64 == v3;
  }

  /** Pads without white space. */
  lemma PadText(state: int, t: string)
    requires t != "" && PadEnds(state, t[1..]) && forall c :: c in t ==> !Space(c)
    ensures (state == 2 && t[1..] == "=") || (state == 3 && t[1..] == "")
  {
    PadStrip(state, t[1..]);
    StripNone(t[1..]);
  }

  lemma {:induction false} StripNone(t: string)
    requires forall i :: 0 <= i < |t| ==> !Space(t[i])
    ensures Strip(t) == t
  {
    if t != "" { StripNone(t[1..]); }
  }

  /** The decoder accepts exactly the encodings, with any white space between. */
  lemma Canonical(t: string, b: seq<Byte>)
    ensures Scan(true, Start, t) == Some(b) <==> Strip(t) == Encode(b)
  {
    hide Scan;
    hide Encode;
    hide Strip;
    ScanStrip(true, Start, t);
    if Strip(t) == Encode(b) {
      ScanEncoded(true, [], b);
    }
    if Scan(true, Start, Strip(t)) == Some(b) {
      var b' := ScannedText([], Strip(t));
      assert [] + b' == b';
    }
    assert [] + b == b;
  }

  /** No two byte sequences share an encoding. */
  lemma EncodeInjective(a: seq<Byte>, b: seq<Byte>)
    requires Encode(a) == Encode(b)
    ensures a == b
  {
    ScanEncoded(true, [], a);
    ScanEncoded(true, [], b);
    assert [] + a == a && [] + b == b;
  }

  function Octet(b: seq<Byte>, i: nat): (r: Byte) {
    if i < |b| then b[i] else 0
  }

  function Digit(c: char): (r: Sextet) {
    match Value(c)
    case None => 0
    case Some(v) => v
  }

  /** Group `q` of the encoding, which is `t`, holds the bits of group `q` of the input. */
  ghost predicate SameBits(b: seq<Byte>, t: string, q: nat)
    requires 4 * q + 4 <= |t|
  {
    Octet(b, 3 * q) * 65536 + Octet(b, 3 * q + 1) * 256 + Octet(b, 3 * q + 2) ==
    Digit(t[4 * q]) * 262144 + Digit(t[4 * q + 1]) * 4096 + Digit(t[4 * q + 2]) * 64 + Digit(t[4 * q + 3]) &&
    t[4 * q] != '=' && t[4 * q + 1] != '=' &&
    (t[4 * q + 2] == '=' <==> 3 * q + 1 >= |b|) && (t[4 * q + 3] == '=' <==> 3 * q + 2 >= |b|)
  }

  /** Section 4 of RFC 4648: every 24-bit group of the input, with zero bits added on the right, reads as
      four six-bit groups; a letter that holds no input bits is a pad. */
  lemma {:induction false} EncodedGroups(b: seq<Byte>, q: nat)
    requires q < (|b| + 2) / 3
    ensures |Encode(b)| == (|b| + 2) / 3 * 4 && SameBits(b, Encode(b), q)
  {
    hide Letter;
    hide Value;
    hide Octet;
    hide Digit;
    if q == 0 {
      EncodeLength(b);
      FirstGroup(b);
    } else {
      EncodedGroups(b[3..], q - 1);
      ThreeBytes(b);
      assert forall i :: 3 <= i ==> Octet(b, i) == Octet(b[3..], i - 3) by { OctetTail(b); }
      assert forall i :: 4 <= i < |Encode(b)| ==> Encode(b)[i] == Encode(b[3..])[i - 4];
    }
  }

  lemma OctetTail(b: seq<Byte>)
    requires |b| >= 3
    ensures forall i :: 3 <= i ==> Octet(b, i) == Octet(b[3..], i - 3)
  {
  }

  lemma {:induction false} EncodeLength(b: seq<Byte>)
    ensures |Encode(b)| == (|b| + 2) / 3 * 4
  {
    hide Letter;
    if |b| >= 3 {
      ThreeBytes(b);
      EncodeLength(b[3..]);
    }
  }

  lemma FirstGroup(b: seq<Byte>)
    requires |b| > 0 && |Encode(b)| >= 4
    ensures SameBits(b, Encode(b), 0)
  {
    hide Letter;
    hide Value;
    var t := Encode(b);
    if |b| == 1 {
      assert t[0] == Letter(b[0] / 4) && t[1] == Letter(b[0] % 4 * 16) && t[2] == '=' && t[3] == '=';
    } else if |b| == 2 {
      assert t[0] == Letter(b[0] / 4) && t[1] == Letter(b[0] % 4 * 16 + b[1] / 16) && t[2] == Letter(b[1] % 16 * 4);
      assert t[3] == '=';
    } else {
      ThreeBytes(b);
    }
  }

  lemma {:induction false} EncodeNoSpace(b: seq<Byte>)
    ensures forall c :: c in Encode(b) ==> !Space(c)
  {
    hide Letter;
    if |b| >= 3 {
      ThreeBytes(b);
      EncodeNoSpace(b[3..]);
    }
  }

  /** An encoding is its own canonical text, so a target of exactly the original size takes it back. */
  lemma EncodeStripped(b: seq<Byte>)
    ensures Strip(Encode(b)) == Encode(b) && Scan(true, Start, Encode(b)) == Some(b)
  {
    EncodeNoSpace(b);
    StripNone(Encode(b));
    Canonical(Encode(b), b);
  }

  // ---------- without the check of leftover bits ----------

  /** Whether the last letter before the padding has no bits left over: of six bits, the last four are left over
      before two pads, and the last two before one. */
  predicate NoSlop(t: string) {
    (|t| >= 3 && t[|t| - 2..] == "==" && Value(t[|t| - 3]).Some? ==> Value(t[|t| - 3]).value % 16 == 0) &&
    (|t| >= 2 && t[|t| - 1] == '=' && Value(t[|t| - 2]).Some? ==> Value(t[|t| - 2]).value % 4 == 0)
  }

  lemma NoSlopTail(c: char, t: string)
    requires t != "" && t[0] != '='
    ensures NoSlop([c] + t) <==> NoSlop(t)
  {
    hide Value;
    var u := [c] + t;
    assert |t| >= 2 ==> u[|u| - 2..] == t[|t| - 2..];
    assert |t| >= 2 ==> u[|u| - 2] == t[|t| - 2];
    assert |t| >= 3 ==> u[|u| - 3] == t[|t| - 3];
    assert |t| == 2 && t[1] == '=' ==> u[1..] == t && t[0..] == t;
  }

  /** What the progress holds of the last letter. */
  predicate Holds(p: Progress, v: Sextet) {
    (p.state == 2 ==> p.rest == v % 16 * 16) && (p.state == 3 ==> p.rest == v % 4 * 64)
  }

  /** After a letter, the check refuses exactly the text whose last letter has bits left over. */
  lemma {:induction false} SlopAfter(p: Progress, v: Sextet, t: string)
    requires Holds(p, v) && forall i :: 0 <= i < |t| ==> !Space(t[i])
    ensures Scan(true, p, t) == if NoSlop([Letter(v)] + t) then Scan(false, p, t) else None
    decreases |t|
  {
    hide Letter;
    hide Value;
    var u := [Letter(v)] + t;
    if t == "" {
    } else if t[0] == '=' {
      PadStrip(p.state, t[1..]);
      StripNone(t[1..]);
      assert Value(u[0]) == Some(v);
      if |t| == 2 && t[1] == '=' {
        assert t == "==" && u[1..] == "==" && u[1] == '=';
        PadIsNone();
      } else if |t| == 1 {
        assert u[1] == '=' && t[1..] == "";
      } else {
        assert t[1..] != "" && t[1..] != "=";
      }
    } else if Value(t[0]).Some? {
      var w := Value(t[0]).value;
      NoSlopTail(Letter(v), t);
      assert t == [Letter(w)] + t[1..];
      SlopAfter(Absorb(p, w), w, t[1..]);
    }
  }

  lemma PadIsNone()
    ensures Value('=') == None
  {
  }

  /** The check refuses exactly the text whose last letter has bits left over. */
  lemma SlopCheck(t: string)
    requires forall i :: 0 <= i < |t| ==> !Space(t[i])
    ensures Scan(true, Start, t) == if NoSlop(t) then Scan(false, Start, t) else None
  {
    hide Letter;
    hide Value;
    if t == "" {
    } else if t[0] == '=' {
      PadStrip(0, t[1..]);
    } else if Value(t[0]).Some? {
      var v := Value(t[0]).value;
      assert t == [Letter(v)] + t[1..];
      SlopAfter(Absorb(Start, v), v, t[1..]);
    }
  }

  /** Text with a target decodes if and only if it decodes without one and its last letter, white space aside, has no
      bits left over; and then to the same bytes. */
  lemma StrictIff(t: string)
    ensures Scan(true, Start, t) == if NoSlop(Strip(t)) then Scan(false, Start, t) else None
  {
    hide Scan;
    hide NoSlop;
    ScanStrip(true, Start, t);
    ScanStrip(false, Start, t);
    SlopCheck(Strip(t));
  }

  /** Text with the bits left over in its last letter cleared. */
  function Cleared(t: string): (r: string)
    ensures |r| == |t|
  {
    if t == "" then ""
    else if t[1..] == "==" && Value(t[0]).Some? then [Letter(Value(t[0]).value / 16 * 16)] + "=="
    else if t[1..] == "=" && Value(t[0]).Some? then [Letter(Value(t[0]).value / 4 * 4)] + "="
    else [t[0]] + Cleared(t[1..])
  }

  lemma {:induction false} ClearedFacts(t: string)
    requires forall i :: 0 <= i < |t| ==> !Space(t[i])
    ensures forall i :: 0 <= i < |t| ==> !Space(Cleared(t)[i])
    ensures t != "" ==> (Cleared(t)[0] == '=' <==> t[0] == '=') && (Value(Cleared(t)[0]).Some? <==> Value(t[0]).Some?)
    ensures t == "=" || t == "==" ==> Cleared(t) == t
  {
    hide Letter;
    hide Value;
    PadIsNone();
    if t != "" {
      ClearedFacts(t[1..]);
      if t == "==" { assert t[1..] == "=" && "="[1..] == ""; }
    }
  }

  lemma {:induction false} ClearedNoSlop(t: string)
    ensures NoSlop(Cleared(t))
  {
    hide Letter;
    hide Value;
    if t == "" {
    } else if t[1..] == "==" && Value(t[0]).Some? {
      ClearedTwo(Value(t[0]).value);
    } else if t[1..] == "=" && Value(t[0]).Some? {
    } else {
      ClearedNoSlop(t[1..]);
    }
  }

  lemma ClearedTwo(v: Sextet)
    ensures NoSlop([Letter(v / 16 * 16)] + "==")
  {
    hide Letter;
    hide Value;
    PadIsNone();
    var t := [Letter(v / 16 * 16)] + "==";
    assert t[1] == '=' && t[1..] == "==";
  }

  /** The bits left over make no difference to the bytes. */
  lemma {:induction false} ClearedScan(p: Progress, t: string)
    requires forall i :: 0 <= i < |t| ==> !Space(t[i])
    ensures Scan(false, p, Cleared(t)) == Scan(false, p, t)
    decreases |t|
  {
    hide Letter;
    hide Value;
    if t == "" {
    } else if t[1..] == "==" && Value(t[0]).Some? {
      var v := Value(t[0]).value;
      assert t == [Letter(v)] + "==";
      LastLetter(p, v, v / 16 * 16, "==");
    } else if t[1..] == "=" && Value(t[0]).Some? {
      var v := Value(t[0]).value;
      assert t == [Letter(v)] + "=";
      LastLetter(p, v, v / 4 * 4, "=");
    } else if t[0] == '=' {
      assert Cleared(t)[0] == '=' && Cleared(t)[1..] == Cleared(t[1..]);
      ClearedFacts(t[1..]);
      PadStrip(p.state, t[1..]);
      PadStrip(p.state, Cleared(t[1..]));
      StripNone(t[1..]);
      StripNone(Cleared(t[1..]));
      assert |t| == 2 ==> Cleared(t[1..])[0] == t[1..][0] || t[1] != '=';
    } else {
      assert Cleared(t)[0] == t[0] && Cleared(t)[1..] == Cleared(t[1..]);
      if Value(t[0]).Some? { ClearedScan(Absorb(p, Value(t[0]).value), t[1..]); }
    }
  }

  lemma LastLetter(p: Progress, v: Sextet, w: Sextet, pads: string)
    requires (pads == "==" && v / 16 == w / 16) || (pads == "=" && v / 4 == w / 4)
    ensures Scan(false, p, [Letter(v)] + pads) == Scan(false, p, [Letter(w)] + pads)
  {
    hide Scan;
    hide Or;
    OneLetter(false, p, v, pads);
    OneLetter(false, p, w, pads);
    Pads(false, Absorb(p, v), pads);
    Pads(false, Absorb(p, w), pads);
  }

  /** Without the check, text decodes to some bytes if and only if it is their encoding once white space is taken out
      and the bits left over are cleared. */
  lemma LooseCanonical(t: string, b: seq<Byte>)
    ensures Scan(false, Start, t) == Some(b) <==> Cleared(Strip(t)) == Encode(b)
  {
    hide Scan;
    hide NoSlop;
    hide Encode;
    hide Cleared;
    var s := Strip(t);
    assert forall i :: 0 <= i < |s| ==> s[i] in s;
    ScanStrip(false, Start, t);
    ClearedScan(Start, s);
    ClearedFacts(s);
    ClearedNoSlop(s);
    SlopCheck(Cleared(s));
    StripNone(Cleared(s));
    Canonical(Cleared(s), b);
  }

  /** Sizing without a target accepts text that decoding then refuses: bits are left over. */
  lemma LooseIsWeaker()
    ensures Scan(false, Start, "QR==") == Some([65]) && Scan(true, Start, "QR==") == None
  {
    hide Scan;
    assert Letter(16) == 'Q' && Letter(17) == 'R';
    assert "QR==" == [Letter(16), Letter(17)] + "==";
    assert [] + [65] == [65];
    ScanTwo(false, [], 16, 17, "==");
    ScanTwo(true, [], 16, 17, "==");
    Pads(false, Progress([65], 2, 16), "==");
    Pads(true, Progress([65], 2, 16), "==");
  }
}
