/**
 The histedit scripts of got/got.c: writing a script, parsing it, checking it against the commits to edit, and
 gathering the log messages of folded commits.
 */
module Histedit {
  import opened Common

  datatype Cmd = Pick | Edit | Fold | Drop | Mesg
  datatype Entry = Entry(cmd: Cmd, id: string)

  const Commands: seq<Cmd> := [Pick, Edit, Fold, Drop, Mesg]

  function Name(c: Cmd): (s: string)
    ensures |s| == 4
  {
    match c
    case Pick => "pick"
    case Edit => "edit"
    case Fold => "fold"
    case Drop => "drop"
    case Mesg => "mesg"
  }

  function Code(c: Cmd): (r: char)
    ensures r == Name(c)[0]
  {
    match c
    case Pick => 'p'
    case Edit => 'e'
    case Fold => 'f'
    case Drop => 'd'
    case Mesg => 'm'
  }

  /** The log messages of commits by their ids, and what a string resolves to as an object id. */
  datatype Repo = Repo(logs: map<string, string>, resolve: string -> Option<string>)

  /** An id has no white space and resolves to itself. */
  ghost predicate WellFormed(repo: Repo) {
    forall id :: id in repo.logs ==> id != "" && repo.resolve(id) == Some(id) && forall i :: 0 <= i < |id| ==> !Space(id[i])
  }

  /** The text up to white space. */
  function Word(s: string): (r: string)
    ensures r <= s
  {
    if s == "" || Space(s[0]) then "" else [s[0]] + Word(s[1..])
  }

  /** The text up to a newline. */
  function UpToNewline(s: string): (r: string)
    ensures r <= s && '\n' !in r
  {
    if s == "" || s[0] == '\n' then "" else [s[0]] + UpToNewline(s[1..])
  }

  /** get_short_logmsg and trim_logmsg */
  function ShortLog(msg: string, limit: nat): (r: string)
    ensures |r| <= limit && '\n' !in r
  {
    var s := TrimLeft(msg);
    UpToNewline(if |s| > limit then s[..limit] else s)
  }

  /** The line that histedit_write_commit prints. */
  function Line(e: Entry, repo: Repo): (r: string)
    requires e.id in repo.logs
  {
    Name(e.cmd) + " " + e.id + " " + ShortLog(repo.logs[e.id], 34) + "\n"
  }

  predicate Known(script: seq<Entry>, repo: Repo) {
    forall i :: 0 <= i < |script| ==> script[i].id in repo.logs
  }

  /** The text of a whole script. */
  function Text(script: seq<Entry>, repo: Repo): (r: string)
    requires Known(script, repo)
  {
    if script == [] then "" else Line(script[0], repo) + Text(script[1..], repo)
  }

  /** Whether a command stands at the start of the text, by name or by letter, and what follows it. */
  function Match(c: Cmd, p: string): (r: Option<string>)
    ensures r.Some? ==> |r.value| < |p|
  {
    if Name(c) <= p && |p| > 4 && Space(p[4]) then Some(p[4..])
    else if |p| > 1 && p[0] == Code(c) && Space(p[1]) then Some(p[1..])
    else None
  }

  /** The first command of the table that matches. */
  function Command(i: nat, p: string): (r: Option<(Cmd, string)>)
    requires i <= 5
    ensures r.Some? ==> exists c :: Match(c, p) == Some(r.value.1) && r.value.0 == c
    decreases 5 - i
  {
    if i == 5 then None
    else
      match Match(Commands[i], p)
      case Some(rest) => Some((Commands[i], rest))
      case None => Command(i + 1, p)
  }

  datatype Parsed = Nothing | Bad | Good(entry: Entry)

  /** One line of a script. */
  function ParseLine(line: string, repo: Repo): (r: Parsed) {
    var p := TrimLeft(line);
    if p == "" || p[0] == '#' then Nothing
    else
      match Command(0, p)
      case None => Bad
      case Some(m) =>
        match repo.resolve(Word(TrimLeft(m.1)))
        case None => Bad
        case Some(id) => Good(Entry(m.0, id))
  }

  /** What getline reads: through the next newline, or all of the text. */
  function FirstLine(text: string): (r: string)
    ensures r <= text && (text != "" ==> r != "")
  {
    if text == "" then "" else if text[0] == '\n' then "\n" else [text[0]] + FirstLine(text[1..])
  }

  datatype Result = Script(entries: seq<Entry>) | SyntaxError(lineno: nat)

  function ParseText(text: string, repo: Repo, lineno: nat): (r: Result)
    decreases |text|
  {
    if text == "" then Script([])
    else
      var line := FirstLine(text);
      var rest := text[|line|..];
      match ParseLine(line, repo)
      case Nothing => ParseText(rest, repo, lineno + 1)
      case Bad => SyntaxError(lineno + 1)
      case Good(e) =>
        match ParseText(rest, repo, lineno + 1)
        case Script(s) => Script([e] + s)
        case SyntaxError(n) => SyntaxError(n)
  }

  lemma {:induction false} FirstLineOf(a: string, rest: string)
    requires '\n' !in a
    ensures FirstLine(a + "\n" + rest) == a + "\n"
  {
    if a == "" {
      assert a + "\n" + rest == "\n" + rest;
    } else {
      assert (a + "\n" + rest)[1..] == a[1..] + "\n" + rest;
      FirstLineOf(a[1..], rest);
    }
  }

  lemma {:induction false} WordOf(id: string, rest: string)
    requires forall i :: 0 <= i < |id| ==> !Space(id[i])
    requires rest != "" && Space(rest[0])
    ensures Word(id + rest) == id
  {
    if id != "" {
      assert (id + rest)[1..] == id[1..] + rest;
      WordOf(id[1..], rest);
    }
  }

  lemma MatchName(c: Cmd, d: Cmd, rest: string)
    ensures Match(c, Name(d) + " " + rest) == if c == d then Some(" " + rest) else None
  {
    var p := Name(d) + " " + rest;
    assert p[4] == ' ' && p[4..] == " " + rest && p[..4] == Name(d);
    assert p[1] == Name(d)[1] && !Space(p[1]);
    if c != d { assert Name(c)[0] != Name(d)[0] && p[0] == Name(d)[0]; }
  }

  lemma CommandName(d: Cmd, rest: string)
    ensures Command(0, Name(d) + " " + rest) == Some((d, " " + rest))
  {
    hide Match;
    var p := Name(d) + " " + rest;
    MatchName(Pick, d, rest);
    MatchName(Edit, d, rest);
    MatchName(Fold, d, rest);
    MatchName(Drop, d, rest);
    MatchName(Mesg, d, rest);
    assert Command(5, p) == None;
    assert d == Mesg ==> Command(4, p) == Some((d, " " + rest));
    assert d == Drop || d == Mesg ==> Command(3, p) == Some((d, " " + rest));
    assert d != Pick && d != Edit ==> Command(2, p) == Some((d, " " + rest));
  }

  lemma Trimmed(s: string)
    requires s != "" && !Space(s[0])
    ensures TrimLeft(s) == s && TrimLeft(" " + s) == s
  {
    assert (" " + s)[1..] == s;
  }

  lemma NameStart(c: Cmd)
    ensures !Space(Name(c)[0]) && Name(c)[0] != '#'
  {
  }

  lemma ParseWritten(cmd: Cmd, id: string, tail: string, repo: Repo)
    requires repo.resolve(id) == Some(id) && id != "" && (forall i :: 0 <= i < |id| ==> !Space(id[i])) && tail != "" && Space(tail[0])
    ensures ParseLine(Name(cmd) + " " + (id + tail), repo) == Good(Entry(cmd, id))
  {
    hide Command;
    hide TrimLeft;
    hide Word;
    hide Name;
    hide Space;
    hide ParseLine;
    var rest := id + tail;
    var line := Name(cmd) + " " + rest;
    NameStart(cmd);
    assert line[0] == Name(cmd)[0];
    Trimmed(line);
    CommandName(cmd, rest);
    assert rest[0] == id[0];
    Trimmed(rest);
    WordOf(id, tail);
    ParseSteps(line, cmd, " " + rest, id, repo);
  }

  lemma ParseSteps(line: string, cmd: Cmd, rest: string, id: string, repo: Repo)
    requires line != "" && line[0] != '#' && TrimLeft(line) == line && Command(0, line) == Some((cmd, rest))
    requires Word(TrimLeft(rest)) == id && repo.resolve(id) == Some(id)
    ensures ParseLine(line, repo) == Good(Entry(cmd, id))
  {
    hide Command;
    hide TrimLeft;
    hide Word;
  }

  /** A line that was written reads back. */
  lemma LineRoundTrip(e: Entry, repo: Repo)
    requires WellFormed(repo) && e.id in repo.logs
    ensures ParseLine(Line(e, repo), repo) == Good(e)
  {
    hide ShortLog;
    hide ParseLine;
    hide Name;
    var tail := " " + ShortLog(repo.logs[e.id], 34) + "\n";
    assert Line(e, repo) == Name(e.cmd) + " " + (e.id + tail);
    ParseWritten(e.cmd, e.id, tail, repo);
  }

  /** Saving a script and parsing it gives the same commands and commits. */
  lemma {:induction false} RoundTrip(script: seq<Entry>, repo: Repo, lineno: nat)
    requires WellFormed(repo) && Known(script, repo)
    ensures ParseText(Text(script, repo), repo, lineno) == Script(script)
  {
    hide ParseLine;
    hide ShortLog;
    if script != [] {
      var e := script[0];
      var a := Name(e.cmd) + " " + e.id + " " + ShortLog(repo.logs[e.id], 34);
      var rest := Text(script[1..], repo);
      NoNewline(e, repo);
      FirstLineOf(a, rest);
      assert Text(script, repo) == a + "\n" + rest && Line(e, repo) == a + "\n";
      assert (a + "\n" + rest)[|a| + 1..] == rest;
      LineRoundTrip(e, repo);
      RoundTrip(script[1..], repo, lineno + 1);
      assert [e] + script[1..] == script;
    }
  }

  lemma NoNewline(e: Entry, repo: Repo)
    requires WellFormed(repo) && e.id in repo.logs
    ensures '\n' !in Name(e.cmd) + " " + e.id + " " + ShortLog(repo.logs[e.id], 34)
  {
    hide ShortLog;
    assert '\n' !in Name(e.cmd) + " ";
    assert '\n' !in e.id;
  }

  /** histedit_write_commit_list: which command is written for commit `i`. */
  function Chosen(i: nat, n: nat, mesgOnly: bool, foldOnly: bool, dropOnly: bool, editOnly: bool): (c: Cmd)
    ensures c == Fold ==> i + 1 < n
  {
    if dropOnly then Drop else if editOnly then Edit else if foldOnly && i + 1 < n then Fold
    else if mesgOnly then Mesg else Pick
  }

  function Generated(commits: seq<string>, mesgOnly: bool, foldOnly: bool, dropOnly: bool, editOnly: bool): (r: seq<Entry>)
    ensures |r| == |commits| && forall i :: 0 <= i < |r| ==> r[i].id == commits[i]
  {
    seq(|commits|, i requires 0 <= i < |commits| =>
      Entry(Chosen(i, |commits|, mesgOnly, foldOnly, dropOnly, editOnly), commits[i]))
  }

  datatype Verdict = Fine | NoCommands | NoCommits | Duplicate | Missing | LastFolded

  ghost predicate DistinctIds(script: seq<Entry>) {
    forall i, j :: 0 <= i < j < |script| ==> script[i].id != script[j].id
  }

  ghost predicate Lists(script: seq<Entry>, id: string) {
    exists i :: 0 <= i < |script| && script[i].id == id
  }

  ghost predicate ListsAll(script: seq<Entry>, commits: seq<string>) {
    forall k :: 0 <= k < |commits| ==> Lists(script, commits[k])
  }

  /** histedit_check_script */
  method CheckScript(script: seq<Entry>, commits: seq<string>) returns (r: Verdict)
    ensures r == NoCommands <==> script == []
    ensures r == NoCommits <==> script != [] && commits == []
    ensures r == Duplicate <==> script != [] && commits != [] && !DistinctIds(script)
    ensures r == Missing <==> script != [] && commits != [] && DistinctIds(script) && !ListsAll(script, commits)
    ensures r == LastFolded <==> script != [] && commits != [] && DistinctIds(script) && ListsAll(script, commits) &&
                                 script[|script| - 1].cmd == Fold
  {
    if script == [] {
      return NoCommands;
    }
    if commits == [] {
      return NoCommits;
    }
    for i := 0 to |script|
      invariant forall a, b :: 0 <= a < i && 0 <= b < |script| && a != b ==> script[a].id != script[b].id
    {
      for j := 0 to |script|
        invariant forall b :: 0 <= b < j && b != i ==> script[i].id != script[b].id
      {
        if i == j || script[i].id != script[j].id {
          continue;
        }
        return Duplicate;
      }
    }
    for k := 0 to |commits|
      invariant forall m :: 0 <= m < k ==> Lists(script, commits[m])
    {
      var j := 0;
      while j < |script| && script[j].id != commits[k]
        invariant j <= |script| && forall b :: 0 <= b < j ==> script[b].id != commits[k]
      {
        j := j + 1;
      }
      if j == |script| {
        assert !Lists(script, commits[k]);
        return Missing;
      }
    }
    if script[|script| - 1].cmd == Fold {
      return LastFolded;
    }
    return Fine;
  }

  ghost predicate Acceptable(script: seq<Entry>, commits: seq<string>) {
    script != [] && commits != [] && DistinctIds(script) && ListsAll(script, commits) && script[|script| - 1].cmd != Fold
  }

  /** The script written for distinct commits passes the check, as written and as parsed back. */
  lemma GeneratedPasses(commits: seq<string>, mesgOnly: bool, foldOnly: bool, dropOnly: bool, editOnly: bool, repo: Repo)
    requires WellFormed(repo) && commits != [] && forall i :: 0 <= i < |commits| ==> commits[i] in repo.logs
    requires forall i, j :: 0 <= i < j < |commits| ==> commits[i] != commits[j]
    ensures var script := Generated(commits, mesgOnly, foldOnly, dropOnly, editOnly);
      Acceptable(script, commits) && Known(script, repo) && ParseText(Text(script, repo), repo, 0) == Script(script)
  {
    var script := Generated(commits, mesgOnly, foldOnly, dropOnly, editOnly);
    RoundTrip(script, repo, 0);
    forall k | 0 <= k < |commits| ensures Lists(script, commits[k]) {
      assert script[k].id == commits[k];
    }
  }

  predicate Used(c: Cmd) {
    c == Pick || c == Edit || c == Mesg
  }

  /** Whether entry `k` comes after fold entry `f` with only folds and drops between. */
  predicate GathersFrom(script: seq<Entry>, f: int, k: int) {
    0 <= f < k < |script| && script[f].cmd == Fold && forall i :: f <= i < k ==> !Used(script[i].cmd)
  }

  /** get_folded_commits: the first fold that entry `k` gathers, or -1. */
  method GetFolded(script: seq<Entry>, k: nat) returns (folded: int)
    requires k < |script|
    ensures folded == -1 ==> forall f :: !GathersFrom(script, f, k)
    ensures folded != -1 ==> GathersFrom(script, folded, k) && forall f :: GathersFrom(script, f, k) ==> folded <= f
  {
    folded := -1;
    var prev := k - 1;
    while prev >= 0 && (script[prev].cmd == Fold || script[prev].cmd == Drop)
      invariant -1 <= prev < k && (forall i :: prev < i < k ==> !Used(script[i].cmd))
      invariant folded == -1 ==> forall f :: prev < f ==> !GathersFrom(script, f, k)
      invariant folded != -1 ==> prev < folded && GathersFrom(script, folded, k)
      invariant folded != -1 ==> forall f :: prev < f && GathersFrom(script, f, k) ==> folded <= f
    {
      if script[prev].cmd == Fold {
        folded := prev;
      }
      prev := prev - 1;
    }
    assert forall f :: GathersFrom(script, f, k) ==> prev < f;
  }

  /** The loop of histedit_edit_logmsg: the folds whose messages entry `k` takes, each once and in order. */
  method Gather(script: seq<Entry>, k: nat) returns (r: seq<int>)
    requires k < |script|
    ensures forall f :: f in r <==> GathersFrom(script, f, k)
    ensures forall i, j :: 0 <= i < j < |r| ==> r[i] < r[j]
  {
    r := [];
    var folded := GetFolded(script, k);
    if folded == -1 {
      return;
    }
    while folded != k
      invariant 0 <= folded <= k && forall i :: folded <= i < k ==> !Used(script[i].cmd)
      invariant forall f :: f in r <==> GathersFrom(script, f, k) && f < folded
      invariant forall i, j :: 0 <= i < j < |r| ==> r[i] < r[j]
      decreases k - folded
    {
      if script[folded].cmd != Drop {
        assert GathersFrom(script, folded, k);
        assert forall i :: 0 <= i < |r| ==> r[i] in r;
        r := r + [folded];
      }
      folded := folded + 1;
    }
  }

  /** The first entry at or after `i` that uses its commit. */
  function NextUsed(script: seq<Entry>, i: nat): (r: Option<nat>)
    requires i <= |script|
    decreases |script| - i
  {
    if i == |script| then None else if Used(script[i].cmd) then Some(i) else NextUsed(script, i + 1)
  }

  /** A fold goes to the first used entry after it, and to no other. */
  lemma {:induction false} FoldOwner(script: seq<Entry>, f: nat, from: nat, k: nat)
    requires f < from <= |script| && script[f].cmd == Fold && k < |script| && Used(script[k].cmd)
    requires forall i :: f <= i < from ==> !Used(script[i].cmd)
    ensures GathersFrom(script, f, k) <==> NextUsed(script, from) == Some(k)
    decreases |script| - from
  {
    if from < |script| && !Used(script[from].cmd) {
      FoldOwner(script, f, from + 1, k);
    }
  }

  lemma {:induction false} NoneUsed(script: seq<Entry>, i: nat)
    requires i <= |script|
    ensures NextUsed(script, i) == None <==> forall k :: i <= k < |script| ==> !Used(script[k].cmd)
    ensures NextUsed(script, i).Some? ==> NextUsed(script, i).value < |script| && Used(script[NextUsed(script, i).value].cmd)
    decreases |script| - i
  {
    if i < |script| { NoneUsed(script, i + 1); }
  }

  /** Whether no used entry gathers the fold. */
  ghost predicate Lost(script: seq<Entry>, f: nat) {
    forall k :: 0 <= k < |script| && Used(script[k].cmd) ==> !GathersFrom(script, f, k)
  }

  /** In a script that passes the check, a fold is lost if and only if only folds and drops follow it, the last of
      them a drop. */
  lemma FoldLost(script: seq<Entry>, commits: seq<string>, f: nat)
    requires Acceptable(script, commits) && f < |script| && script[f].cmd == Fold
    ensures Lost(script, f) <==>
      script[|script| - 1].cmd == Drop && forall k :: f < k < |script| ==> !Used(script[k].cmd)
  {
    hide DistinctIds;
    hide ListsAll;
    hide NextUsed;
    NoneUsed(script, f + 1);
    var n := NextUsed(script, f + 1);
    if n.Some? {
      FoldOwner(script, f, f + 1, n.value);
    } else {
      assert f < |script| - 1;
    }
  }

  /** The check lets a fold through that no entry gathers. */
  lemma FoldLostExample()
    ensures var script := [Entry(Fold, "a"), Entry(Drop, "b")]; Acceptable(script, ["a", "b"]) && Lost(script, 0)
  {
    var script := [Entry(Fold, "a"), Entry(Drop, "b")];
    assert script[0].id == "a" && script[1].id == "b";
    assert Lists(script, "a") && Lists(script, "b");
    assert ListsAll(script, ["a", "b"]);
  }

  /** histedit_save_list and the loop of histedit_write_commit_list */
  method Write(script: seq<Entry>, repo: Repo) returns (text: string)
    requires Known(script, repo)
    ensures text == Text(script, repo)
  {
    text := "";
    assert script[0..] == script;
    for i := 0 to |script|
      invariant Text(script, repo) == text + Text(script[i..], repo)
    {
      assert script[i..][0] == script[i] && script[i..][1..] == script[i + 1..];
      var e := script[i];
      var line := Name(e.cmd) + " " + e.id + " " + ShortLog(repo.logs[e.id], 34) + "\n";
      text := text + line;
    }
  }

  /** histedit_write_commit_list: nothing can be written for no commits. */
  method WriteCommitList(commits: seq<string>, mesgOnly: bool, foldOnly: bool, dropOnly: bool, editOnly: bool, repo: Repo)
    returns (text: Option<string>)
    requires forall i :: 0 <= i < |commits| ==> commits[i] in repo.logs
    ensures commits == [] ==> text == None
    ensures commits != [] ==> var script := Generated(commits, mesgOnly, foldOnly, dropOnly, editOnly);
      Known(script, repo) && text == Some(Text(script, repo))
  {
    hide Text;
    if commits == [] {
      return None;
    }
    var script := [];
    for i := 0 to |commits|
      invariant |script| == i && script == Generated(commits, mesgOnly, foldOnly, dropOnly, editOnly)[..i]
    {
      var cmd := Pick;
      if dropOnly {
        cmd := Drop;
      } else if editOnly {
        cmd := Edit;
      } else if foldOnly && i + 1 != |commits| {
        cmd := Fold;
      } else if mesgOnly {
        cmd := Mesg;
      }
      script := script + [Entry(cmd, commits[i])];
    }
    assert script == Generated(commits, mesgOnly, foldOnly, dropOnly, editOnly);
    var t := Write(script, repo);
    return Some(t);
  }

  /** With one flag every commit gets its command; folding leaves the last commit, which is picked or edited. */
  lemma GeneratedCommands(commits: seq<string>, i: nat)
    requires i < |commits|
    ensures Generated(commits, false, false, false, false)[i].cmd == Pick
    ensures Generated(commits, false, false, true, false)[i].cmd == Drop
    ensures Generated(commits, false, false, false, true)[i].cmd == Edit
    ensures Generated(commits, true, false, false, false)[i].cmd == Mesg
    ensures Generated(commits, false, true, false, false)[i].cmd == if i + 1 < |commits| then Fold else Pick
    ensures Generated(commits, true, true, false, false)[i].cmd == if i + 1 < |commits| then Fold else Mesg
  {
  }

  /** The loops of histedit_parse_list over one line. */
  method ReadLine(line: string, repo: Repo) returns (r: Parsed)
    ensures r == ParseLine(line, repo)
  {
    hide Command;
    hide TrimLeft;
    hide Word;
    var p := SkipSpace(line);
    if p == "" || p[0] == '#' {
      return Nothing;
    }
    var cmd := FindCommand(p);
    if cmd == None {
      return Bad;
    }
    var q := SkipSpace(cmd.value.1);
    var word := TakeWord(q);
    var id := repo.resolve(word);
    if id == None {
      return Bad;
    }
    return Good(Entry(cmd.value.0, id.value));
  }

  method FindCommand(p: string) returns (r: Option<(Cmd, string)>)
    ensures r == Command(0, p)
  {
    hide Match;
    for i := 0 to 5
      invariant Command(0, p) == Command(i, p)
    {
      var rest := Match(Commands[i], p);
      if rest.Some? {
        return Some((Commands[i], rest.value));
      }
    }
    return None;
  }

  lemma WordStep(q: string, end: nat)
    requires end < |q| && !Space(q[end])
    ensures q[..end] + Word(q[end..]) == q[..end + 1] + Word(q[end + 1..])
  {
    assert q[end..][1..] == q[end + 1..];
    assert q[..end] + ([q[end]] + Word(q[end + 1..])) == q[..end + 1] + Word(q[end + 1..]);
  }

  method TakeWord(q: string) returns (r: string)
    ensures r == Word(q)
  {
    hide Word;
    var end := 0;
    assert q[0..] == q;
    while end < |q| && !Space(q[end])
      invariant end <= |q| && Word(q) == q[..end] + Word(q[end..])
    {
      WordStep(q, end);
      end := end + 1;
    }
    WordEnd(q[end..]);
    return q[..end];
  }

  lemma WordEnd(q: string)
    requires q == "" || Space(q[0])
    ensures Word(q) == ""
  {
  }

  method SkipSpace(s: string) returns (r: string)
    ensures r == TrimLeft(s)
  {
    var i := 0;
    assert s[0..] == s;
    while i < |s| && Space(s[i])
      invariant i <= |s| && TrimLeft(s) == TrimLeft(s[i..])
    {
      assert s[i..][1..] == s[i + 1..];
      i := i + 1;
    }
    r := s[i..];
  }

  function Prepend(s: seq<Entry>, r: Result): (u: Result) {
    match r
    case Script(t) => Script(s + t)
    case SyntaxError(n) => r
  }

  /** histedit_parse_list */
  method ParseList(text: string, repo: Repo) returns (r: Result)
    ensures r == ParseText(text, repo, 0)
  {
    hide ParseLine;
    hide FirstLine;
    var entries, lineno, rest := [], 0, text;
    while rest != ""
      invariant ParseText(text, repo, 0) == Prepend(entries, ParseText(rest, repo, lineno))
      decreases |rest|
    {
      var line := FirstLine(rest);
      lineno := lineno + 1;
      var parsed := ReadLine(line, repo);
      rest := rest[|line|..];
      if parsed == Bad {
        return SyntaxError(lineno);
      }
      if parsed.Good? {
        ghost var tail := ParseText(rest, repo, lineno);
        assert tail.Script? ==> entries + ([parsed.entry] + tail.entries) == entries + [parsed.entry] + tail.entries;
        entries := entries + [parsed.entry];
      }
    }
    return Script(entries);
  }
}
