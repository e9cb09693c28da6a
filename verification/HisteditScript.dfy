/**
 What the text of a histedit script (got/got.c) means, line by line and piece by piece.
 */
module HisteditScript {
  import opened Common
  import opened Histedit

  // ---------- one line ----------

  /** The command of a word: its name or its letter. */
  function CommandOf(t: string): (c: Option<Cmd>) {
    if t == "pick" || t == "p" then Some(Pick)
    else if t == "edit" || t == "e" then Some(Edit)
    else if t == "fold" || t == "f" then Some(Fold)
    else if t == "drop" || t == "d" then Some(Drop)
    else if t == "mesg" || t == "m" then Some(Mesg)
    else None
  }

  predicate NoSpace(t: string) {
    forall i :: 0 <= i < |t| ==> !Space(t[i])
  }

  predicate AllSpace(t: string) {
    forall i :: 0 <= i < |t| ==> Space(t[i])
  }

  /** A word, and text that begins with white space. */
  lemma {:induction false} WordIs(t: string, rest: string)
    requires NoSpace(t) && (rest != "" ==> Space(rest[0]))
    ensures Word(t + rest) == t
  {
    if t == "" {
      assert t + rest == rest;
    } else {
      assert (t + rest)[1..] == t[1..] + rest;
      WordIs(t[1..], rest);
    }
  }

  lemma {:induction false} TrimIs(sp: string, t: string)
    requires AllSpace(sp) && (t != "" ==> !Space(t[0]))
    ensures TrimLeft(sp + t) == t
  {
    if sp == "" {
      assert sp + t == t;
    } else {
      assert (sp + t)[1..] == sp[1..] + t;
      TrimIs(sp[1..], t);
    }
  }

  /** A command matches a word that is its name or its letter and is followed by white space. */
  lemma MatchIs(c: Cmd, t: string, rest: string)
    requires NoSpace(t) && (rest != "" ==> Space(rest[0]))
    ensures Match(c, t + rest) == if rest != "" && (t == Name(c) || t == [Code(c)]) then Some(rest) else None
  {
    var p := t + rest;
    NameNoSpace(c);
    assert t == p[..|t|] && rest == p[|t|..];
    assert Space('p') == Space('e') == Space('f') == Space('d') == Space('m') == false;
    if Name(c) <= p && |p| > 4 && Space(p[4]) {
      assert forall i :: 0 <= i < 4 ==> Name(c)[i] == p[i];
      assert |t| == 4;
    } else if |p| > 1 && p[0] == Code(c) && Space(p[1]) {
      assert |t| == 1;
    }
  }

  lemma NameNoSpace(c: Cmd)
    ensures NoSpace(Name(c)) && !Space(Code(c))
  {
  }

  lemma CommandOfIs(c: Cmd, t: string)
    ensures CommandOf(t) == Some(c) <==> t == Name(c) || t == [Code(c)]
  {
  }

  /** The command of a line is that of its first word, if white space follows it. */
  lemma CommandIs(t: string, rest: string)
    requires NoSpace(t) && (rest != "" ==> Space(rest[0]))
    ensures Command(0, t + rest) ==
            if rest == "" || CommandOf(t) == None then None else Some((CommandOf(t).value, rest))
  {
    hide Match;
    hide CommandOf;
    var p := t + rest;
    MatchIs(Pick, t, rest);
    MatchIs(Edit, t, rest);
    MatchIs(Fold, t, rest);
    MatchIs(Drop, t, rest);
    MatchIs(Mesg, t, rest);
    CommandOfIs(Pick, t);
    CommandOfIs(Edit, t);
    CommandOfIs(Fold, t);
    CommandOfIs(Drop, t);
    CommandOfIs(Mesg, t);
    if CommandOf(t).Some? { CommandOfIs(CommandOf(t).value, t); }
    assert Command(5, p) == None;
    LastCommand(p);
  }

  /** The search through the table, spelled out. */
  lemma LastCommand(p: string)
    ensures Command(0, p) ==
            if Match(Pick, p).Some? then Some((Pick, Match(Pick, p).value))
            else if Match(Edit, p).Some? then Some((Edit, Match(Edit, p).value))
            else if Match(Fold, p).Some? then Some((Fold, Match(Fold, p).value))
            else if Match(Drop, p).Some? then Some((Drop, Match(Drop, p).value))
            else if Match(Mesg, p).Some? then Some((Mesg, Match(Mesg, p).value)) else None
  {
    hide Match;
    assert Command(5, p) == None;
    assert Command(4, p) == if Match(Mesg, p).Some? then Some((Mesg, Match(Mesg, p).value)) else None;
    assert Command(3, p) == if Match(Drop, p).Some? then Some((Drop, Match(Drop, p).value)) else Command(4, p);
    assert Command(2, p) == if Match(Fold, p).Some? then Some((Fold, Match(Fold, p).value)) else Command(3, p);
    assert Command(1, p) == if Match(Edit, p).Some? then Some((Edit, Match(Edit, p).value)) else Command(2, p);
  }

  /** A line of a word, white space, a second word, and more after white space. */
  lemma LineIs(sp: string, t: string, gap: string, w: string, tail: string, repo: Repo)
    requires AllSpace(sp) && NoSpace(t) && t != "" && t[0] != '#' && AllSpace(gap) && gap != "" && NoSpace(w)
    requires (tail != "" ==> Space(tail[0])) && (w == "" ==> tail == "")
    ensures ParseLine(sp + (t + (gap + (w + tail))), repo) ==
            match CommandOf(t)
            case None => Bad
            case Some(c) =>
              (match repo.resolve(w)
               case None => Bad
               case Some(id) => Good(Entry(c, id)))
  {
    hide Command;
    hide CommandOf;
    hide TrimLeft;
    hide Word;
    var rest := gap + (w + tail);
    var p := t + rest;
    assert p[0] == t[0] && !Space(t[0]) && rest[0] == gap[0];
    TrimIs(sp, p);
    CommandIs(t, rest);
    assert w + tail != "" ==> (w + tail)[0] == w[0];
    TrimIs(gap, w + tail);
    WordIs(w, tail);
  }

  /** A line of one word is no command. */
  lemma OneWordIs(sp: string, t: string, repo: Repo)
    requires AllSpace(sp) && NoSpace(t) && t != "" && t[0] != '#'
    ensures ParseLine(sp + t, repo) == Bad
  {
    hide Command;
    hide TrimLeft;
    TrimIs(sp, t);
    assert t + "" == t;
    CommandIs(t, "");
  }

  /** A line that is blank, or a comment after white space. */
  predicate Comment(a: string) {
    TrimLeft(a) == "" || TrimLeft(a)[0] == '#'
  }

  lemma {:induction false} Trimmed(a: string, i: nat)
    requires i < |a| - |TrimLeft(a)|
    ensures Space(a[i])
  {
    if i > 0 { Trimmed(a[1..], i - 1); }
  }

  lemma TrimSplit(a: string) returns (sp: string)
    ensures a == sp + TrimLeft(a) && AllSpace(sp)
  {
    hide TrimLeft;
    sp := a[..|a| - |TrimLeft(a)|];
    forall i | 0 <= i < |sp| ensures Space(sp[i]) { Trimmed(a, i); }
  }

  lemma TrimNewline(a: string)
    ensures TrimLeft(a + "\n") == if TrimLeft(a) == "" then "" else TrimLeft(a) + "\n"
  {
    hide TrimLeft;
    var sp := TrimSplit(a);
    var t := TrimLeft(a);
    if t == "" {
      assert a + "\n" == sp + "\n" + "";
      TrimIs(sp + "\n", "");
    } else {
      assert a + "\n" == sp + (t + "\n") && (t + "\n")[0] == t[0];
      TrimIs(sp, t + "\n");
    }
  }

  /** A blank line or a comment, anywhere, adds nothing and counts as a line. */
  lemma SkippedLine(a: string, rest: string, repo: Repo, n: nat)
    requires '\n' !in a && Comment(a)
    ensures ParseText(a + "\n" + rest, repo, n) == ParseText(rest, repo, n + 1)
  {
    hide TrimLeft;
    hide Command;
    FirstLineOf(a, rest);
    TrimNewline(a);
    var text := a + "\n" + rest;
    assert text[|a| + 1..] == rest;
    assert ParseLine(a + "\n", repo) == Nothing;
  }

  // ---------- whole lines ----------

  /** The number of newlines. */
  function Lines(x: string): (n: nat) {
    if x == "" then 0 else (if x[0] == '\n' then 1 else 0) + Lines(x[1..])
  }

  predicate WholeLines(x: string) {
    x != "" ==> x[|x| - 1] == '\n'
  }

  /** The first of some whole lines, whatever follows them. */
  lemma {:induction false} FirstOfLines(x: string, y: string)
    requires WholeLines(x) && x != ""
    ensures FirstLine(x + y) == FirstLine(x) && WholeLines(x[|FirstLine(x)|..])
    ensures Lines(x) == 1 + Lines(x[|FirstLine(x)|..])
  {
    assert (x + y)[1..] == x[1..] + y;
    if x[0] != '\n' {
      FirstOfLines(x[1..], y);
      assert x[|FirstLine(x)|..] == x[1..][|FirstLine(x[1..])|..];
    } else {
      assert x[1..] == "" || x[1..][|x| - 2] == x[|x| - 1];
    }
  }

  /** The first line and the rest. */
  lemma ParseFirst(text: string, line: string, rest: string, repo: Repo, n: nat)
    requires text != "" && line == FirstLine(text) && rest == text[|line|..]
    ensures ParseText(text, repo, n) ==
            match ParseLine(line, repo)
            case Nothing => ParseText(rest, repo, n + 1)
            case Bad => SyntaxError(n + 1)
            case Good(e) => Prepend([e], ParseText(rest, repo, n + 1))
  {
  }

  /** Text in pieces of whole lines parses to the entries of the pieces, one after the other. */
  lemma {:induction false} ParsePieces(x: string, y: string, repo: Repo, n: nat)
    requires WholeLines(x)
    ensures ParseText(x + y, repo, n) ==
            match ParseText(x, repo, n)
            case SyntaxError(k) => SyntaxError(k)
            case Script(s) => Prepend(s, ParseText(y, repo, n + Lines(x)))
    decreases |x|
  {
    hide ParseLine;
    hide FirstLine;
    if x == "" {
      assert x + y == y;
      NoEntries(ParseText(y, repo, n));
    } else {
      hide ParseText;
      hide Lines;
      FirstOfLines(x, y);
      var line := FirstLine(x);
      var x' := x[|line|..];
      assert (x + y)[|line|..] == x' + y;
      ParseFirst(x, line, x', repo, n);
      ParseFirst(x + y, line, x' + y, repo, n);
      ParsePieces(x', y, repo, n + 1);
      if ParseLine(line, repo).Good? && ParseText(x', repo, n + 1).Script? {
        OneMore(ParseLine(line, repo).entry, ParseText(x', repo, n + 1).entries, ParseText(y, repo, n + Lines(x)));
      }
    }
  }

  lemma NoEntries(r: Result)
    ensures Prepend([], r) == r
  {
  }

  lemma OneMore(e: Entry, s: seq<Entry>, r: Result)
    ensures Prepend([e], Prepend(s, r)) == Prepend([e] + s, r)
  {
    if r.Script? { assert [e] + (s + r.entries) == [e] + s + r.entries; }
  }

  /** A line, at the end of the text or with its newline. */
  predicate IsLine(line: string, rest: string) {
    line != "" && FirstLine(line + rest) == line
  }

  /** A bad line after good ones is reported by its number. */
  lemma BadLine(x: string, line: string, rest: string, repo: Repo, n: nat)
    requires WholeLines(x) && ParseText(x, repo, n).Script? && IsLine(line, rest) && ParseLine(line, repo) == Bad
    ensures ParseText(x + (line + rest), repo, n) == SyntaxError(n + Lines(x) + 1)
  {
    hide ParseLine;
    hide ParseText;
    hide FirstLine;
    ParsePieces(x, line + rest, repo, n);
    BadFirst(line + rest, repo, n + Lines(x));
  }

  lemma BadFirst(text: string, repo: Repo, n: nat)
    requires text != "" && ParseLine(FirstLine(text), repo) == Bad
    ensures ParseText(text, repo, n) == SyntaxError(n + 1)
  {
  }

  /** The error is that of the first bad line: everything before it parses. */
  lemma {:induction false} FirstBadLine(text: string, repo: Repo, n: nat) returns (x: string, line: string, rest: string)
    requires ParseText(text, repo, n).SyntaxError?
    ensures text == x + (line + rest) && WholeLines(x) && ParseText(x, repo, n).Script?
    ensures IsLine(line, rest) && ParseLine(line, repo) == Bad
    ensures ParseText(text, repo, n) == SyntaxError(n + Lines(x) + 1)
    decreases |text|
  {
    hide ParseLine;
    hide FirstLine;
    var first := FirstLine(text);
    var more := text[|first|..];
    assert first + more == text;
    if ParseLine(first, repo) == Bad {
      x, line, rest := "", first, more;
      assert x + (line + rest) == text;
    } else {
      var x';
      x', line, rest := FirstBadLine(more, repo, n + 1);
      FirstEnds(text);
      x := first + x';
      assert x + (line + rest) == text;
      FirstThen(first, x');
      assert x[|first|..] == x';
    }
  }

  /** A line with something after it ends with a newline. */
  lemma {:induction false} FirstEnds(text: string)
    ensures |FirstLine(text)| < |text| ==> WholeLines(FirstLine(text)) && FirstLine(text) != ""
    ensures FirstLine(FirstLine(text)) == FirstLine(text)
  {
    if text != "" && text[0] != '\n' {
      FirstEnds(text[1..]);
      assert FirstLine(text)[1..] == FirstLine(text[1..]);
    }
  }

  /** One line before others. */
  lemma {:induction false} FirstThen(first: string, x: string)
    requires first != "" && first[|first| - 1] == '\n' && FirstLine(first) == first && WholeLines(x)
    ensures WholeLines(first + x) && FirstLine(first + x) == first && Lines(first + x) == 1 + Lines(x)
  {
    FirstOfLines(first, x);
    assert x != "" ==> (first + x)[|first + x| - 1] == x[|x| - 1];
    FirstOfLines(first + x, "");
    assert first + x + "" == first + x && (first + x)[|first|..] == x;
  }

  // ---------- what is written ----------

  /** The short log message is as much of the first line as fits, without leading white space. */
  lemma ShortLogIs(msg: string, limit: nat)
    ensures var s, r := TrimLeft(msg), ShortLog(msg, limit);
      r <= s && |r| <= limit && '\n' !in r && (|r| == |s| || |r| == limit || s[|r|] == '\n')
  {
    var s := TrimLeft(msg);
    UpToIs(if |s| > limit then s[..limit] else s);
  }

  lemma {:induction false} UpToIs(s: string)
    ensures var r := UpToNewline(s); r <= s && '\n' !in r && (|r| == |s| || s[|r|] == '\n')
  {
    if s != "" && s[0] != '\n' { UpToIs(s[1..]); }
  }
}
