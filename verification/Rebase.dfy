/**
 The replay of `got rebase` in got/got.c: collecting the commits of a branch, merging them one by one, stopping
 when a merge leaves something to resolve, and going on later.
 */
module Rebase {
  import opened Common

  type Id = int

  datatype Error = NoError | Ancestry | Path | NotRebasing | Unresolved

  /** Commits with their parents; `age` is a witness that history has no cycles. */
  datatype Repo = Repo(parents: map<Id, seq<Id>>, age: map<Id, nat>)

  function FirstParent(repo: Repo, c: Id): (p: Option<Id>) {
    if c in repo.parents && repo.parents[c] != [] then Some(repo.parents[c][0]) else None
  }

  ghost predicate Acyclic(repo: Repo) {
    forall c :: c in repo.parents ==> c in repo.age && (repo.parents[c] != [] ==>
      repo.parents[c][0] in repo.parents && repo.parents[c][0] in repo.age &&
      repo.age[repo.parents[c][0]] < repo.age[c])
  }

  ghost function Age(repo: Repo, c: Id): (n: nat) {
    if c in repo.age then repo.age[c] else 0
  }

  /** Whether `stop` is `c` or one of its first-parent ancestors. */
  ghost predicate OnChain(repo: Repo, c: Id, stop: Id)
    requires Acyclic(repo)
    decreases Age(repo, c)
  {
    c == stop || (FirstParent(repo, c).Some? && OnChain(repo, FirstParent(repo, c).value, stop))
  }

  /** The first-parent commits after `stop` up to `c`, oldest first. */
  ghost function Between(repo: Repo, c: Id, stop: Id): (s: seq<Id>)
    requires Acyclic(repo) && OnChain(repo, c, stop)
    decreases Age(repo, c)
  {
    if c == stop then [] else Between(repo, FirstParent(repo, c).value, stop) + [c]
  }

  /** Whether every change between `c` and `stop`, or the end of history, stays inside the path prefix. */
  ghost predicate Inside(repo: Repo, inside: (Id, Id) -> bool, c: Id, stop: Id)
    requires Acyclic(repo)
    decreases Age(repo, c)
  {
    c == stop || FirstParent(repo, c) == None ||
    (inside(FirstParent(repo, c).value, c) && Inside(repo, inside, FirstParent(repo, c).value, stop))
  }

  /** Every commit paired with its first parent. */
  ghost function Merges(repo: Repo, s: seq<Id>): (r: seq<(Option<Id>, Id)>)
    ensures |r| == |s|
  {
    seq(|s|, i requires 0 <= i < |s| => (FirstParent(repo, s[i]), s[i]))
  }

  lemma MergesStep(repo: Repo, s: seq<Id>, p: Id, c: Id)
    requires FirstParent(repo, c) == Some(p)
    ensures Merges(repo, s) + [(Some(p), c)] == Merges(repo, s + [c])
  {
  }

  /** A position in the list: the commits up to it lead there, and its predecessor is its first parent. */
  lemma {:induction false} BetweenAt(repo: Repo, c: Id, stop: Id, i: nat)
    requires Acyclic(repo) && OnChain(repo, c, stop) && i < |Between(repo, c, stop)|
    ensures OnChain(repo, c, Between(repo, c, stop)[i]) && OnChain(repo, Between(repo, c, stop)[i], stop)
    ensures Between(repo, Between(repo, c, stop)[i], stop) == Between(repo, c, stop)[..i + 1]
    ensures FirstParent(repo, Between(repo, c, stop)[i]) == Some(if i == 0 then stop else Between(repo, c, stop)[i - 1])
    ensures var s := Between(repo, c, stop);
      s[i] in repo.parents && repo.parents[s[i]] != [] && repo.parents[s[i]][0] == if i == 0 then stop else s[i - 1]
    ensures Between(repo, c, stop)[i] != stop
    decreases Age(repo, c)
  {
    var p := FirstParent(repo, c).value;
    var s := Between(repo, p, stop);
    if i < |s| {
      BetweenAt(repo, p, stop, i);
      assert Between(repo, c, stop)[..i + 1] == s[..i + 1];
    } else {
      assert Between(repo, c, stop)[..i + 1] == Between(repo, c, stop);
      if i > 0 { BetweenLast(repo, p, stop); } else { assert p == stop; }
    }
  }

  lemma BetweenLast(repo: Repo, c: Id, stop: Id)
    requires Acyclic(repo) && OnChain(repo, c, stop) && c != stop
    ensures Between(repo, c, stop) != [] && Between(repo, c, stop)[|Between(repo, c, stop)| - 1] == c
  {
  }

  lemma {:induction false} ChainAge(repo: Repo, c: Id, stop: Id)
    requires Acyclic(repo) && OnChain(repo, c, stop) && c != stop
    ensures Age(repo, stop) < Age(repo, c)
    decreases Age(repo, c)
  {
    var p := FirstParent(repo, c).value;
    if p != stop { ChainAge(repo, p, stop); }
  }

  lemma {:induction false} BetweenSplit(repo: Repo, c: Id, mid: Id, stop: Id)
    requires Acyclic(repo) && OnChain(repo, c, mid) && OnChain(repo, mid, stop)
    ensures OnChain(repo, c, stop) && Between(repo, c, stop) == Between(repo, mid, stop) + Between(repo, c, mid)
    decreases Age(repo, c)
  {
    if c == mid {
      assert Between(repo, mid, stop) + [] == Between(repo, mid, stop);
    } else {
      ChainAge(repo, c, mid);
      if mid != stop { ChainAge(repo, mid, stop); }
      BetweenSplit(repo, FirstParent(repo, c).value, mid, stop);
    }
  }

  /** Nothing outside the prefix up to `stop` means nothing outside it up to a commit on the way. */
  lemma {:induction false} InsideSplit(repo: Repo, inside: (Id, Id) -> bool, c: Id, mid: Id, stop: Id)
    requires Acyclic(repo) && OnChain(repo, c, mid) && OnChain(repo, mid, stop) && Inside(repo, inside, c, stop)
    ensures Inside(repo, inside, c, mid)
    decreases Age(repo, c)
  {
    if c != mid {
      ChainAge(repo, c, mid);
      if mid != stop { ChainAge(repo, mid, stop); }
      InsideSplit(repo, inside, FirstParent(repo, c).value, mid, stop);
    }
  }

  // ---------- chains as paths over the recorded parents ----------

  /** Each commit of a path is followed by the first of its recorded parents. */
  ghost predicate FirstParents(repo: Repo, s: seq<Id>) {
    s != [] && forall i :: 0 <= i < |s| - 1 ==>
      s[i] in repo.parents && repo.parents[s[i]] != [] && repo.parents[s[i]][0] == s[i + 1]
  }

  ghost predicate PathTo(repo: Repo, s: seq<Id>, c: Id, stop: Id) {
    FirstParents(repo, s) && s[0] == c && s[|s| - 1] == stop
  }

  lemma PathTail(repo: Repo, s: seq<Id>)
    requires FirstParents(repo, s) && |s| > 1
    ensures FirstParents(repo, s[1..])
  {
    var t := s[1..];
    assert forall i :: 0 <= i < |t| ==> t[i] == s[i + 1];
  }

  lemma NotLater(s: seq<Id>, x: Id)
    requires s != [] && x !in s
    ensures x !in s[1..]
  {
  }

  function Reversed(s: seq<Id>): (r: seq<Id>) {
    if s == [] then [] else Reversed(s[1..]) + [s[0]]
  }

  lemma {:induction false} PathOfChain(repo: Repo, c: Id, stop: Id) returns (s: seq<Id>)
    requires Acyclic(repo) && OnChain(repo, c, stop)
    ensures PathTo(repo, s, c, stop)
    decreases Age(repo, c)
  {
    if c == stop {
      s := [c];
    } else {
      var t := PathOfChain(repo, FirstParent(repo, c).value, stop);
      s := [c] + t;
    }
  }

  lemma {:induction false} ChainOfPath(repo: Repo, s: seq<Id>)
    requires Acyclic(repo) && FirstParents(repo, s)
    ensures OnChain(repo, s[0], s[|s| - 1])
    ensures Between(repo, s[0], s[|s| - 1]) == Reversed(s[..|s| - 1])
    decreases |s|
  {
    if |s| > 1 {
      var t := s[1..];
      PathTail(repo, s);
      ChainOfPath(repo, t);
      PathAges(repo, s);
      assert s[..|s| - 1][1..] == t[..|t| - 1];
    }
  }

  lemma {:induction false} PathAges(repo: Repo, s: seq<Id>)
    requires Acyclic(repo) && FirstParents(repo, s) && |s| > 1
    ensures Age(repo, s[|s| - 1]) < Age(repo, s[0]) && s[0] != s[|s| - 1]
    decreases |s|
  {
    if |s| > 2 {
      PathTail(repo, s);
      PathAges(repo, s[1..]);
    }
  }

  /** A commit is on the chain if and only if a path of first recorded parents leads to it. */
  lemma ChainIff(repo: Repo, c: Id, stop: Id)
    requires Acyclic(repo)
    ensures OnChain(repo, c, stop) <==> exists s :: PathTo(repo, s, c, stop)
  {
    if OnChain(repo, c, stop) {
      var s := PathOfChain(repo, c, stop);
    }
    if s :| PathTo(repo, s, c, stop) {
      ChainOfPath(repo, s);
    }
  }

  /** A path that has not come to `stop` before its end. */
  ghost predicate Before(repo: Repo, s: seq<Id>, c: Id, stop: Id) {
    FirstParents(repo, s) && s[0] == c && |s| >= 2 && stop !in s[..|s| - 1]
  }

  lemma {:induction false} InsidePath(repo: Repo, inside: (Id, Id) -> bool, c: Id, stop: Id, s: seq<Id>)
    requires Acyclic(repo) && Inside(repo, inside, c, stop) && Before(repo, s, c, stop)
    ensures inside(s[|s| - 1], s[|s| - 2])
    decreases |s|
  {
    assert s[0] in s[..|s| - 1];
    if |s| > 2 {
      var t := s[1..];
      PathTail(repo, s);
      assert t[..|t| - 1] == s[..|s| - 1][1..];
      NotLater(s[..|s| - 1], stop);
      InsidePath(repo, inside, s[1], stop, t);
    }
  }

  lemma {:induction false} OutsidePath(repo: Repo, inside: (Id, Id) -> bool, c: Id, stop: Id) returns (s: seq<Id>)
    requires Acyclic(repo) && !Inside(repo, inside, c, stop)
    ensures Before(repo, s, c, stop) && !inside(s[|s| - 1], s[|s| - 2])
    decreases Age(repo, c)
  {
    var p := FirstParent(repo, c).value;
    if !inside(p, c) {
      s := [c, p];
      assert s[..1] == [c];
    } else {
      var t := OutsidePath(repo, inside, p, stop);
      s := [c] + t;
      assert s[..|s| - 1] == [c] + t[..|t| - 1];
    }
  }

  /** Everything stays inside the prefix if and only if every step of every path does that has not come to `stop`. */
  lemma InsideIff(repo: Repo, inside: (Id, Id) -> bool, c: Id, stop: Id)
    requires Acyclic(repo)
    ensures Inside(repo, inside, c, stop) <==>
      forall s :: Before(repo, s, c, stop) ==> inside(s[|s| - 1], s[|s| - 2])
  {
    if Inside(repo, inside, c, stop) {
      forall s | Before(repo, s, c, stop) ensures inside(s[|s| - 1], s[|s| - 2]) {
        InsidePath(repo, inside, c, stop, s);
      }
    } else {
      var s := OutsidePath(repo, inside, c, stop);
    }
  }

  /** Every commit of the list is merged against the first of its recorded parents. */
  lemma MergedParents(repo: Repo, c: Id, stop: Id, i: nat)
    requires Acyclic(repo) && OnChain(repo, c, stop) && i < |Between(repo, c, stop)|
    ensures var x := Between(repo, c, stop)[i];
      x in repo.parents && repo.parents[x] != [] && Merges(repo, Between(repo, c, stop))[i] == (Some(repo.parents[x][0]), x)
  {
    hide Between;
    BetweenAt(repo, c, stop, i);
  }

  /** collect_commits: walks the first-parent graph from `start`, the parent of `initial`. */
  method CollectCommits(repo: Repo, inside: (Id, Id) -> bool, initial: Id, start: Id, stop: Id)
    returns (commits: seq<Id>, err: Error)
    requires Acyclic(repo) && FirstParent(repo, initial) == Some(start)
    ensures err == Path <==> !Inside(repo, inside, initial, stop)
    ensures err == Ancestry <==> Inside(repo, inside, initial, stop) && !OnChain(repo, initial, stop)
    ensures err == NoError <==> Inside(repo, inside, initial, stop) && OnChain(repo, initial, stop)
    ensures err == NoError ==> commits == Between(repo, initial, stop)
  {
    commits := [];
    var graph := Some(start);
    var commit := initial;
    while commit != stop
      invariant graph == FirstParent(repo, commit)
      invariant OnChain(repo, initial, stop) <==> OnChain(repo, commit, stop)
      invariant Inside(repo, inside, initial, stop) <==> Inside(repo, inside, commit, stop)
      invariant OnChain(repo, commit, stop) ==> Between(repo, initial, stop) == Between(repo, commit, stop) + commits
      decreases Age(repo, commit)
    {
      if graph == None {
        return commits, Ancestry;
      }
      var parent := graph.value;
      graph := FirstParent(repo, parent);
      if !inside(parent, commit) {
        return commits, Path;
      }
      commits := [commit] + commits;
      commit := parent;
    }
    return commits, NoError;
  }

  /** The first commit of a list whose merge leaves something to resolve, or the end of the list. */
  function FirstStop(s: seq<Id>, conflict: Id -> bool): (i: nat)
    ensures i <= |s| && (i < |s| ==> conflict(s[i])) && forall k :: 0 <= k < i ==> !conflict(s[k])
  {
    if s == [] || conflict(s[0]) then 0 else 1 + FirstStop(s[1..], conflict)
  }

  lemma StopUnique(s: seq<Id>, conflict: Id -> bool, i: nat)
    requires i <= |s| && (i < |s| ==> conflict(s[i])) && forall k :: 0 <= k < i ==> !conflict(s[k])
    ensures FirstStop(s, conflict) == i
  {
  }

  /** Where a rebase is: not begun, stopped at a commit whose merge needs attention, or complete. */
  datatype Phase = Idle | Stopped(at: Id) | Complete

  /** What the branch reference names: its commit, or the given commits on top of the new base. */
  datatype Branch = Head(id: Id) | Rebased(picked: seq<Id>)

  /** The branch being rebased, the work tree's record of the rebase, and what was merged and committed. */
  class Rebasing {
    const repo: Repo
    const inside: (Id, Id) -> bool
    const head: Id
    const yca: Id
    var branch: Branch
    var phase: Phase
    var merged: seq<(Option<Id>, Id)>
    var picked: seq<Id>

    /** The common ancestor is an ancestor of the branch, so a branch of one root commit is that ancestor. */
    ghost predicate Input() {
      Acyclic(repo) && (FirstParent(repo, head) == None ==> yca == head)
    }

    /** Whether the commits to rebase can be collected. */
    ghost predicate Feasible()
      requires Acyclic(repo)
    {
      OnChain(repo, head, yca) && Inside(repo, inside, head, yca)
    }

    /** What was merged are the commits in order up to where the rebase stopped, each against its first parent;
        what was committed are those before it; the branch does not change until all is done. */
    ghost predicate Valid()
      reads this
    {
      Input() &&
      match phase
      case Idle => merged == [] && picked == [] && branch == Head(head)
      case Stopped(c) =>
        Feasible() && OnChain(repo, head, c) && OnChain(repo, c, yca) && c != yca &&
        picked + [c] == Between(repo, c, yca) && merged == Merges(repo, Between(repo, c, yca)) && branch == Head(head)
      case Complete =>
        Feasible() && picked == Between(repo, head, yca) && merged == Merges(repo, picked) && branch == Rebased(picked)
    }

    constructor (repo: Repo, inside: (Id, Id) -> bool, head: Id, yca: Id)
      requires Acyclic(repo) && (FirstParent(repo, head) == None ==> yca == head)
      ensures Valid() && phase == Idle && this.repo == repo && this.inside == inside && this.head == head && this.yca == yca
    {
      this.repo, this.inside, this.head, this.yca := repo, inside, head, yca;
      branch, phase, merged, picked := Head(head), Idle, [], [];
    }

    /** The commits of the branch after `from`. */
    method Collect(from: Id) returns (commits: seq<Id>, err: Error)
      requires Input() && (FirstParent(repo, head) == None ==> from == head)
      ensures err == NoError <==> Inside(repo, inside, head, from) && OnChain(repo, head, from)
      ensures err == NoError ==> commits == Between(repo, head, from)
    {
      commits, err := [], NoError;
      if FirstParent(repo, head).Some? {
        commits, err := CollectCommits(repo, inside, head, FirstParent(repo, head).value, from);
      }
    }

    /** The replay loop: `conflict` says which merges leave something to resolve. */
    method Replay(commits: seq<Id>, from: Id, conflict: Id -> bool)
      requires Input() && Feasible() && OnChain(repo, head, from) && OnChain(repo, from, yca) && branch == Head(head)
      requires commits == Between(repo, head, from)
      requires picked == Between(repo, from, yca) && merged == Merges(repo, picked)
      modifies this
      ensures Valid() && phase != Idle
      ensures phase.Stopped? ==> |Between(repo, head, phase.at)| < |commits|
      ensures var i := FirstStop(commits, conflict);
        phase == (if i == |commits| then Complete else Stopped(commits[i])) && |picked| == |old(picked)| + i
    {
      hide OnChain;
      hide Between;
      hide Inside;
      hide Merges;
      hide FirstParent;
      hide Acyclic;
      var pid := None;
      var i := 0;
      assert picked == Between(repo, from, yca) + commits[..0];
      while i < |commits|
        invariant i <= |commits| && branch == Head(head)
        invariant pid == if i == 0 then None else Some(commits[i - 1])
        invariant picked == Between(repo, from, yca) + commits[..i] && merged == Merges(repo, picked)
        invariant forall k :: 0 <= k < i ==> !conflict(commits[k])
      {
        var commit := commits[i];
        var parent := if pid.Some? then pid.value else from;
        pid := Some(commit);
        Position(from, i);
        MergesStep(repo, picked, parent, commit);
        merged := merged + [(Some(parent), commit)];
        if conflict(commit) {
          StopUnique(commits, conflict, i);
          phase := Stopped(commit);
          return;
        }
        picked := picked + [commit];
        assert commits[..i + 1] == commits[..i] + [commit];
        i := i + 1;
      }
      assert commits[..|commits|] == commits;
      StopUnique(commits, conflict, i);
      BetweenSplit(repo, head, from, yca);
      phase, branch := Complete, Rebased(picked);
    }

    lemma Position(from: Id, i: nat)
      requires Input() && OnChain(repo, head, from) && OnChain(repo, from, yca) && i < |Between(repo, head, from)|
      ensures var s := Between(repo, head, from);
        FirstParent(repo, s[i]) == Some(if i == 0 then from else s[i - 1]) && s[i] != yca &&
        OnChain(repo, head, s[i]) && OnChain(repo, s[i], yca) &&
        Between(repo, s[i], yca) == Between(repo, from, yca) + s[..i] + [s[i]] &&
        |Between(repo, head, s[i])| < |s|
    {
      hide Inside;
      hide Merges;
      hide Acyclic;
      hide FirstParent;
      hide OnChain;
      hide Between;
      var s := Between(repo, head, from);
      BetweenAt(repo, head, from, i);
      BetweenSplit(repo, s[i], from, yca);
      assert s[..i + 1] == s[..i] + [s[i]];
      BetweenSplit(repo, head, s[i], from);
      ChainAge(repo, s[i], from);
      if from != yca { ChainAge(repo, from, yca); }
    }

    /** `got rebase branch` */
    method Start(conflict: Id -> bool) returns (err: Error)
      requires Valid() && phase == Idle
      modifies this
      ensures Valid() && (err == NoError <==> Feasible())
      ensures if err == NoError then phase != Idle else phase == Idle
      ensures err == NoError ==> var plan := Between(repo, head, yca); var i := FirstStop(plan, conflict);
        phase == (if i == |plan| then Complete else Stopped(plan[i])) && |picked| == i
    {
      var commits;
      commits, err := Collect(yca);
      if err != NoError {
        return;
      }
      if commits == [] {
        branch := Rebased([]);
        phase := Complete;
        return;
      }
      Replay(commits, yca, conflict);
    }

    /** What is left to merge after a stop. */
    ghost function Remaining(): (s: seq<Id>)
      requires Valid()
      reads this
    {
      match phase
      case Idle => []
      case Stopped(c) => Between(repo, head, c)
      case Complete => []
    }

    /** `got rebase -c`: commits what was resolved, and goes on after it. */
    method Continue(resolved: bool, conflict: Id -> bool) returns (err: Error)
      requires Valid()
      modifies this
      ensures Valid()
      ensures err == NotRebasing <==> !old(phase).Stopped?
      ensures err == Unresolved <==> old(phase).Stopped? && !resolved
      ensures err == NoError <==> old(phase).Stopped? && resolved
      ensures err != NoError ==> phase == old(phase) && merged == old(merged) && picked == old(picked) && branch == old(branch)
      ensures err == NoError ==> phase != Idle && |picked| > |old(picked)|
      ensures err == NoError ==> phase == Complete || |Remaining()| < |old(Remaining())|
      ensures err == NoError ==> var rest := old(Remaining()); var i := FirstStop(rest, conflict);
        phase == (if i == |rest| then Complete else Stopped(rest[i])) && |picked| == |old(picked)| + 1 + i
    {
      hide Between;
      hide Inside;
      hide Merges;
      hide Acyclic;
      hide FirstParent;
      if !phase.Stopped? {
        return NotRebasing;
      }
      if !resolved {
        return Unresolved;
      }
      var c := phase.at;
      picked := picked + [c];
      InsideSplit(repo, inside, head, c, yca);
      var commits;
      commits, err := Collect(c);
      Replay(commits, c, conflict);
    }
  }

  /** Where a run ends that stopped at commit `i` and is continued with each of these: at the commit that stops the
      last of them, or at the end of the list. */
  function StopFrom(plan: seq<Id>, i: nat, conflicts: seq<Id -> bool>): (j: nat)
    requires i < |plan|
    ensures j <= |plan|
    decreases |conflicts|
  {
    if conflicts == [] then i
    else
      var k := i + 1 + FirstStop(plan[i + 1..], conflicts[0]);
      if k == |plan| then k else StopFrom(plan, k, conflicts[1..])
  }

  /** Where a whole run ends. */
  function StopOf(plan: seq<Id>, conflicts: seq<Id -> bool>): (j: nat)
    requires conflicts != []
    ensures j <= |plan|
  {
    var k := FirstStop(plan, conflicts[0]);
    if k == |plan| then k else StopFrom(plan, k, conflicts[1..])
  }

  lemma FirstCall(plan: seq<Id>, conflicts: seq<Id -> bool>)
    requires conflicts != []
    ensures var k := FirstStop(plan, conflicts[0]);
      StopOf(plan, conflicts) == if k == |plan| then k else StopFrom(plan, k, conflicts[1..])
  {
  }

  lemma NextCall(plan: seq<Id>, i: nat, conflicts: seq<Id -> bool>, n: nat)
    requires i < |plan| && n < |conflicts|
    ensures var k := i + 1 + FirstStop(plan[i + 1..], conflicts[n]);
      StopFrom(plan, i, conflicts[n..]) == if k == |plan| then k else StopFrom(plan, k, conflicts[n + 1..])
  {
    assert conflicts[n..][1..] == conflicts[n + 1..];
  }

  lemma LastCall(plan: seq<Id>, i: nat, conflicts: seq<Id -> bool>, n: nat)
    requires i < |plan| && n == |conflicts|
    ensures StopFrom(plan, i, conflicts[n..]) == i
  {
  }

  /** Whole runs: the first call and any number of continuations, where `conflicts[k]` says which merges stop call
      `k`. What was committed is always the beginning of the list, every merge is of the next commit against its
      first parent, and no run stops more often than there are commits. */
  method Run(repo: Repo, inside: (Id, Id) -> bool, head: Id, yca: Id, conflicts: seq<Id -> bool>)
    returns (picked: seq<Id>, merged: seq<(Option<Id>, Id)>, complete: bool)
    requires Acyclic(repo) && (FirstParent(repo, head) == None ==> yca == head) && |conflicts| > 0
    requires OnChain(repo, head, yca) && Inside(repo, inside, head, yca)
    ensures |merged| <= |Between(repo, head, yca)|
    ensures picked == Between(repo, head, yca)[..StopOf(Between(repo, head, yca), conflicts)]
    ensures complete <==> StopOf(Between(repo, head, yca), conflicts) == |Between(repo, head, yca)|
    ensures merged == Merges(repo, Between(repo, head, yca)[..|merged|])
    ensures |merged| == |picked| + if complete then 0 else 1
    ensures complete ==> picked == Between(repo, head, yca)
    ensures |conflicts| > |Between(repo, head, yca)| ==> complete
  {
    hide Between;
    hide Inside;
    hide Merges;
    hide Acyclic;
    hide FirstParent;
    hide OnChain;
    hide Expects;
    var r := new Rebasing(repo, inside, head, yca);
    ghost var plan := Between(repo, head, yca);
    ghost var end := StopOf(plan, conflicts);
    First(r, conflicts);
    var k := 1;
    while k < |conflicts| && r.phase.Stopped?
      invariant 1 <= k <= |conflicts| && fresh(r) && Expects(r, plan, conflicts, k, end)
      invariant r.repo == repo && r.inside == inside && r.head == head && r.yca == yca
      decreases |conflicts| - k
    {
      Again(r, conflicts, k, plan, end);
      k := k + 1;
    }
    Ended(r, plan, conflicts, k, end);
    picked, merged, complete := r.picked, r.merged, r.phase == Complete;
  }

  /** After `k` calls the run is on its way to `end`. */
  ghost predicate Expects(r: Rebasing, plan: seq<Id>, conflicts: seq<Id -> bool>, k: nat, end: nat)
    reads r
  {
    k <= |conflicts| && r.Valid() && r.phase != Idle && plan == Between(r.repo, r.head, r.yca) &&
    (r.phase == Complete ==> end == |plan|) &&
    (r.phase.Stopped? ==> |r.picked| < |plan| && k <= |r.picked| + 1) &&
    (r.phase.Stopped? ==> end == StopFrom(plan, |r.picked|, conflicts[k..]))
  }

  method First(r: Rebasing, conflicts: seq<Id -> bool>)
    requires r.Valid() && r.phase == Idle && r.Feasible() && conflicts != []
    modifies r
    ensures Expects(r, Between(r.repo, r.head, r.yca), conflicts, 1, StopOf(Between(r.repo, r.head, r.yca), conflicts))
  {
    hide Between;
    hide Inside;
    hide Merges;
    hide Acyclic;
    hide FirstParent;
    hide OnChain;
    hide StopFrom;
    hide StopOf;
    hide FirstStop;
    FirstCall(Between(r.repo, r.head, r.yca), conflicts);
    var _ := r.Start(conflicts[0]);
    Stop(r);
  }

  method Again(r: Rebasing, conflicts: seq<Id -> bool>, k: nat, ghost plan: seq<Id>, ghost end: nat)
    requires k < |conflicts| && r.phase.Stopped? && Expects(r, plan, conflicts, k, end)
    modifies r
    ensures Expects(r, plan, conflicts, k + 1, end)
  {
    hide Between;
    hide Inside;
    hide Merges;
    hide Acyclic;
    hide FirstParent;
    hide OnChain;
    hide StopFrom;
    hide FirstStop;
    Stop(r);
    NextCall(plan, |r.picked|, conflicts, k);
    var _ := r.Continue(true, conflicts[k]);
    Stop(r);
  }

  lemma Ended(r: Rebasing, plan: seq<Id>, conflicts: seq<Id -> bool>, k: nat, end: nat)
    requires Expects(r, plan, conflicts, k, end) && (k == |conflicts| || !r.phase.Stopped?)
    ensures r.picked <= plan && |r.merged| <= |plan| && r.merged == Merges(r.repo, plan[..|r.merged|])
    ensures end <= |plan| && r.picked == plan[..end] && (r.phase == Complete <==> end == |plan|)
    ensures |r.merged| == |r.picked| + if r.phase == Complete then 0 else 1
    ensures |conflicts| > |plan| ==> r.phase == Complete
  {
    hide Between;
    hide Merges;
    hide StopFrom;
    Stop(r);
    if r.phase.Stopped? { LastCall(plan, |r.picked|, conflicts, k); }
  }

  /** What the invariant says about the list of commits. */
  lemma Stop(r: Rebasing)
    requires r.Valid() && r.phase != Idle
    ensures var plan := Between(r.repo, r.head, r.yca);
      r.picked <= plan && |r.merged| <= |plan| && r.merged == Merges(r.repo, plan[..|r.merged|]) &&
      (r.phase.Stopped? ==> |r.merged| == |r.picked| + 1 && r.Remaining() == plan[|r.merged|..] && |r.merged| <= |plan|) &&
      (r.phase == Complete ==> r.picked == plan && |r.merged| == |plan|)
  {
    var plan := Between(r.repo, r.head, r.yca);
    match r.phase
    case Stopped(c) =>
      BetweenSplit(r.repo, r.head, c, r.yca);
      assert plan[..|r.merged|] == Between(r.repo, c, r.yca) && plan[|r.merged|..] == Between(r.repo, r.head, c);
    case Complete =>
      assert plan[..|r.merged|] == plan;
  }
}
