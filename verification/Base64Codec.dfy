/**
 b64_ntop and b64_pton of compat/base64.c, writing into the caller's buffer.
 */
module Base64Codec {
  import opened Common
  import opened Base64

  /** The character at a position of a C string. */
  function At(s: string, i: nat): (c: char)
    requires i <= |s|
    ensures '\0' !in s ==> (c == '\0' <==> i == |s|)
  {
    if i < |s| then s[i] else '\0'
  }

  lemma EncodeFrom(src: seq<Byte>, i: nat)
    requires i + 3 <= |src|
    ensures Encode(src[i..]) == [Letter(src[i] / 4), Letter(src[i] % 4 * 16 + src[i + 1] / 16),
                                 Letter(src[i + 1] % 16 * 4 + src[i + 2] / 64), Letter(src[i + 2] % 64)] +
                                Encode(src[i + 3..])
  {
    ThreeBytes(src[i..]);
    assert src[i..][3..] == src[i + 3..];
  }

  /** b64_ntop: the text and its terminator, or -1 exactly when they do not fit. */
  method Ntop(src: seq<Byte>, target: array<char>, targsize: nat) returns (r: int)
    requires targsize <= target.Length
    modifies target
    ensures r == if |Encode(src)| < targsize then |Encode(src)| else -1
    ensures r >= 0 ==> target[..r] == Encode(src) && target[r] == '\0'
    ensures forall k :: 0 <= k < target.Length && (k >= targsize || 0 <= r < k) ==> target[k] == old(target[k])
  {
    hide Letter;
    hide Encode;
    var i: nat, srclength: nat, datalength := 0, |src|, 0;
    assert src[0..] == src && target[..0] == [];
    while 2 < srclength
      invariant i + srclength == |src| && datalength <= targsize
      invariant Encode(src) == target[..datalength] + Encode(src[i..])
      invariant forall k :: datalength <= k < target.Length ==> target[k] == old(target[k])
      decreases srclength
    {
      var input0, input1, input2 := src[i], src[i + 1], src[i + 2];
      EncodeFrom(src, i);
      i, srclength := i + 3, srclength - 3;
      if datalength + 4 > targsize {
        return -1;
      }
      Four(input0, input1, input2, target, datalength);
      datalength := datalength + 4;
    }
    if 0 != srclength {
      var ok := Last(src[i..], target, targsize, datalength);
      if !ok {
        return -1;
      }
      datalength := datalength + 4;
    } else {
      EncodeNothing(src[i..]);
    }
    if datalength >= targsize {
      return -1;
    }
    target[datalength] := '\0';
    assert target[..datalength] == Encode(src);
    return datalength;
  }

  /** The four letters of three bytes. */
  method Four(input0: Byte, input1: Byte, input2: Byte, target: array<char>, datalength: nat)
    requires datalength + 4 <= target.Length
    modifies target
    ensures target[..datalength + 4] == old(target[..datalength]) +
      [Letter(input0 / 4), Letter(input0 % 4 * 16 + input1 / 16), Letter(input1 % 16 * 4 + input2 / 64), Letter(input2 % 64)]
    ensures forall k :: datalength + 4 <= k < target.Length ==> target[k] == old(target[k])
  {
    hide Letter;
    ghost var done := target[..datalength];
    target[datalength] := Letter(input0 / 4);
    target[datalength + 1] := Letter(input0 % 4 * 16 + input1 / 16);
    target[datalength + 2] := Letter(input1 % 16 * 4 + input2 / 64);
    target[datalength + 3] := Letter(input2 % 64);
    assert target[..datalength + 4] == done + target[datalength..datalength + 4];
  }

  lemma EncodeNothing(b: seq<Byte>)
    requires |b| == 0
    ensures Encode(b) == ""
  {
  }

  /** The padded last group. */
  method Last(rest: seq<Byte>, target: array<char>, targsize: nat, datalength: nat) returns (ok: bool)
    requires 0 < |rest| < 3 && targsize <= target.Length && datalength <= targsize
    modifies target
    ensures |Encode(rest)| == 4 && (ok <==> datalength + 4 <= targsize)
    ensures ok ==> target[..datalength + 4] == old(target[..datalength]) + Encode(rest)
    ensures forall k :: 0 <= k < target.Length && !(ok && datalength <= k < datalength + 4) ==> target[k] == old(target[k])
  {
    hide Letter;
    var input0, input1 := rest[0], 0;
    if |rest| == 2 {
      input1 := rest[1];
    }
    if datalength + 4 > targsize {
      return false;
    }
    ghost var done := target[..datalength];
    target[datalength] := Letter(input0 / 4);
    target[datalength + 1] := Letter(input0 % 4 * 16 + input1 / 16);
    if |rest| == 1 {
      target[datalength + 2] := '=';
    } else {
      target[datalength + 2] := Letter(input1 % 16 * 4);
    }
    target[datalength + 3] := '=';
    assert target[datalength..datalength + 4] == Encode(rest);
    assert target[..datalength + 4] == done + target[datalength..datalength + 4];
    return true;
  }

  /** What is stored so far: the finished bytes, and the bits left over where the target has room for them. */
  ghost predicate Stored(target: seq<Byte>, targsize: nat, p: Progress)
    requires targsize <= |target|
  {
    |p.bytes| <= targsize && target[..|p.bytes|] == p.bytes && 0 <= p.state < 4 && (p.state == 0 ==> p.rest == 0) &&
    (p.state == 1 ==> |p.bytes| < targsize) &&
    (p.state != 0 ==> (if |p.bytes| < targsize then target[|p.bytes|] == p.rest else p.rest == 0))
  }

  /** More bytes than fit, or as many and bits of a further one. */
  ghost predicate Overfull(targsize: nat, p: Progress) {
    |p.bytes| > targsize || (|p.bytes| == targsize && (p.state == 1 || (p.state != 0 && p.rest != 0)))
  }

  /** The decoder's switch: a letter in one of the four states. */
  method Take(pos: Sextet, target: array?<Byte>, targsize: nat, state: int, tarindex: int, ghost p: Progress)
    returns (ok: bool, state': int, tarindex': int)
    requires target != null ==> targsize <= target.Length && Stored(target[..], targsize, p)
    requires p.state == state && |p.bytes| == tarindex && 0 <= state < 4
    modifies target
    ensures ok ==> 0 <= state' < 4 && Absorb(p, pos).state == state' && |Absorb(p, pos).bytes| == tarindex'
    ensures ok && target != null ==> Stored(target[..], targsize, Absorb(p, pos))
    ensures target == null ==> ok
    ensures !ok ==> Overfull(targsize, Absorb(p, pos))
    ensures target != null ==> forall k :: targsize <= k < target.Length ==> target[k] == old(target[k])
  {
    ok, state', tarindex' := true, state, tarindex;
    if state == 0 {
      if target != null {
        if tarindex >= targsize {
          return false, state, tarindex;
        }
        target[tarindex] := pos * 4 % 256;
      }
      state' := 1;
    } else if state == 1 {
      if target != null {
        if tarindex >= targsize {
          return false, state, tarindex;
        }
        target[tarindex] := Or(target[tarindex], pos / 16) % 256;
        var nextbyte := pos % 16 * 16;
        if tarindex + 1 < targsize {
          target[tarindex + 1] := nextbyte;
        } else if nextbyte != 0 {
          return false, state, tarindex;
        }
      }
      state', tarindex' := 2, tarindex + 1;
    } else if state == 2 {
      if target != null {
        if tarindex >= targsize {
          return false, state, tarindex;
        }
        target[tarindex] := Or(target[tarindex], pos / 4) % 256;
        var nextbyte := pos % 4 * 64;
        if tarindex + 1 < targsize {
          target[tarindex + 1] := nextbyte;
        } else if nextbyte != 0 {
          return false, state, tarindex;
        }
      }
      state', tarindex' := 3, tarindex + 1;
    } else {
      if target != null {
        if tarindex >= targsize {
          return false, state, tarindex;
        }
        target[tarindex] := Or(target[tarindex], pos) % 256;
      }
      state', tarindex' := 0, tarindex + 1;
    }
  }

  /** The rest of the text from a pad character on: `i` is the position after it. */
  method Tail(src: string, i: nat, state: int) returns (ok: bool)
    requires '\0' !in src && i <= |src| && 0 <= state < 4
    ensures ok <==> PadEnds(state, src[i..])
    ensures ok ==> state >= 2
  {
    hide Strip;
    if state < 2 {
      return false;
    }
    var j := i;
    if state == 2 {
      j := PastSpace(src, i);
      if At(src, j) != '=' {
        return false;
      }
      assert src[j..][1..] == src[j + 1..];
      j := j + 1;
    }
    ok := OnlySpace(src, j);
  }

  method PastSpace(src: string, i: nat) returns (j: nat)
    requires '\0' !in src && i <= |src|
    ensures i <= j <= |src| && SkipSpace(src[i..]) == src[j..]
  {
    hide Strip;
    j := i;
    var ch := At(src, j);
    while ch != '\0'
      invariant i <= j <= |src| && ch == At(src, j) && SkipSpace(src[j..]) == SkipSpace(src[i..])
      decreases |src| - j
    {
      if !Space(ch) { break; }
      assert src[j..][1..] == src[j + 1..];
      j := j + 1;
      ch := At(src, j);
    }
  }

  method OnlySpace(src: string, i: nat) returns (ok: bool)
    requires '\0' !in src && i <= |src|
    ensures ok <==> AllSpace(src[i..])
  {
    var j := i;
    var ch := At(src, j);
    while ch != '\0'
      invariant i <= j <= |src| && ch == At(src, j) && forall k :: i <= k < j ==> Space(src[k])
      decreases |src| - j
    {
      if !Space(ch) {
        assert src[i..][j - i] == ch;
        return false;
      }
      j := j + 1;
      ch := At(src, j);
    }
    return true;
  }

  lemma Refused(src: string, targsize: nat)
    ensures Scan(true, Start, src) == None ==> forall b :: |b| <= targsize ==> Strip(src) != Encode(b)
    ensures Scan(false, Start, src) == None ==> forall b :: Cleared(Strip(src)) != Encode(b)
  {
    forall b | Cleared(Strip(src)) == Encode(b) ensures Scan(false, Start, src) == Some(b) { LooseCanonical(src, b); }
    forall b | Strip(src) == Encode(b) ensures Scan(true, Start, src) == Some(b) { Canonical(src, b); }
  }

  lemma TooLong(src: string, targsize: nat, p: Progress, rest: string)
    requires Scan(true, Start, src) == Scan(true, p, rest) && Overfull(targsize, p)
    ensures forall b :: |b| <= targsize ==> Strip(src) != Encode(b)
  {
    forall b | |b| <= targsize ensures Strip(src) != Encode(b) {
      Canonical(src, b);
      if Scan(true, p, rest).Some? { ScanGrows(p, rest); }
    }
  }

  /** b64_pton: with a target, the text decodes exactly if it is, white space aside, the encoding of bytes
      that fit, and these are then in the target; without a target, exactly if it is that of some bytes once the bits
      left over in its last letter are cleared, and their number is returned. */
  method Pton(src: string, target: array?<Byte>, targsize: nat) returns (r: int)
    requires '\0' !in src && (target != null ==> targsize <= target.Length)
    modifies target
    ensures r == -1 || r >= 0
    ensures target != null && r >= 0 ==> r <= targsize && Strip(src) == Encode(target[..r])
    ensures target != null && r == -1 ==> forall b :: |b| <= targsize ==> Strip(src) != Encode(b)
    ensures target != null ==> forall k :: targsize <= k < target.Length ==> target[k] == old(target[k])
    ensures target == null && r >= 0 ==> exists b :: |b| == r && Cleared(Strip(src)) == Encode(b)
    ensures target == null && r == -1 ==> forall b :: Cleared(Strip(src)) != Encode(b)
  {
    hide Absorb;
    hide Value;
    hide Encode;
    hide Strip;
    hide PadEnds;
    hide Cleared;
    ghost var strict := target != null;
    ghost var p := Start;
    var i, state, tarindex := 0, 0, 0;
    assert src[0..] == src;
    var ch := At(src, i);
    while ch != '\0'
      invariant i <= |src| && ch == At(src, i) && Scan(strict, Start, src) == Scan(strict, p, src[i..])
      invariant p.state == state && |p.bytes| == tarindex && 0 <= state < 4
      invariant strict ==> Stored(target[..], targsize, p)
      invariant strict ==> forall k :: targsize <= k < target.Length ==> target[k] == old(target[k])
      decreases |src| - i
    {
      ghost var rest := src[i..];
      assert rest[0] == ch && rest[1..] == src[i + 1..];
      if Space(ch) {
        i := i + 1;
        ch := At(src, i);
        continue;
      }
      if ch == '=' { break; }
      var pos := Value(ch);
      if pos == None {
        Refused(src, targsize);
        return -1;
      }
      var ok;
      ok, state, tarindex := Take(pos.value, target, targsize, state, tarindex, p);
      p := Absorb(p, pos.value);
      i := i + 1;
      if !ok {
        if strict { TooLong(src, targsize, p, src[i..]); }
        return -1;
      }
      ch := At(src, i);
    }
    if ch == '=' {
      var ok := Tail(src, i + 1, state);
      if !ok {
        Refused(src, targsize);
        return -1;
      }
      if target != null && tarindex < targsize && target[tarindex] != 0 {
        Refused(src, targsize);
        return -1;
      }
    } else if state != 0 {
      Refused(src, targsize);
      return -1;
    }
    Canonical(src, p.bytes);
    LooseCanonical(src, p.bytes);
    return tarindex;
  }
}
