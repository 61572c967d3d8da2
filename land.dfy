/**
 * `land`: the bottom PR of a verified stack is squash-merged, the rest of
 * the stack is rebased onto the target, and the landed branches are
 * deleted. The git and GitHub commands are recorded as steps of a log; the
 * `gh pr view` answers and the `git for-each-ref` output are passed in.
 */
module Land {
  import opened Wrappers
  import opened Text
  import Stack
  import Verifier
  import PrText
  import CommitHeaders
  import Allocator

  // ---------------------------------------------------------------------------
  // Deleting branches
  // ---------------------------------------------------------------------------

  /**
   * `delete_local_branches`: `git branch -D` with the head of every entry
   * whose head is not empty, in stack order; an unset head makes the
   * getter in the filter raise.
   */
  function DeleteLocalCommand(heads: seq<Option<string>>): (r: Result<seq<string>, string>)
    ensures r.Err? <==> exists i | 0 <= i < |heads| :: heads[i].None?
    ensures r.Ok? ==> |r.value| >= 3 && r.value[..3] == ["git", "branch", "-D"]
    ensures r.Ok? ==> forall b :: b in r.value[3..] <==> b != [] && Some(b) in heads
    decreases |heads|
  {
    if heads == [] then Ok(["git", "branch", "-D"])
    else
      match DeleteLocalCommand(heads[..|heads| - 1])
      case Err(e) => Err(e)
      case Ok(cmd) =>
        match Stack.Get(heads[|heads| - 1], "head")
        case Err(e) => Err(e)
        case Ok(h) =>
          assert heads == heads[..|heads| - 1] + [Some(h)];
          assert (cmd + [h])[3..] == cmd[3..] + [h];
          Ok(if h == [] then cmd else cmd + [h])
  }

  /** The prefix `delete_remote_branches` removes from each ref: `refs/remotes/<remote>/`. */
  function RemotePrefix(remote: string): (p: string)
    ensures p != [] && p[0] == 'r'
  {
    "refs/remotes/" + remote + "/"
  }

  /** The refs as `delete_remote_branches` reads them: each word of the output with the prefix removed. */
  function RemoteRefs(refsOutput: string, remote: string): (refs: seq<string>)
    ensures |refs| == |SplitWords(refsOutput)|
  {
    var words := SplitWords(refsOutput);
    seq(|words|, i requires 0 <= i < |words| => ReplaceAll(words[i], RemotePrefix(remote), ""))
  }

  /**
   * `remote_branches_to_delete`: the heads of the entries that are among
   * the refs, in stack order; an unset head makes its getter raise.
   */
  function BranchesToDelete(heads: seq<Option<string>>, refs: seq<string>): (r: Result<seq<string>, string>)
    ensures r.Err? <==> exists i | 0 <= i < |heads| :: heads[i].None?
    ensures r.Ok? ==> forall b :: b in r.value <==> b in refs && Some(b) in heads
    decreases |heads|
  {
    if heads == [] then Ok([])
    else
      match BranchesToDelete(heads[..|heads| - 1], refs)
      case Err(e) => Err(e)
      case Ok(bs) =>
        match Stack.Get(heads[|heads| - 1], "head")
        case Err(e) => Err(e)
        case Ok(h) =>
          assert heads == heads[..|heads| - 1] + [Some(h)];
          Ok(if h in refs then bs + [h] else bs)
  }

  /**
   * The push that deletes the selected remote branches, one `:<branch>`
   * refspec each; nothing is run when none is selected.
   */
  function DeleteRemoteCommand(remote: string, branches: seq<string>): (r: Option<seq<string>>)
    ensures r.None? <==> branches == []
    ensures r.Some? ==> |r.value| == 4 + |branches| && r.value[..4] == ["git", "push", "-f", remote]
    ensures r.Some? ==> forall i | 0 <= i < |branches| :: r.value[4 + i] == ":" + branches[i]
  {
    if branches == [] then None
    else Some(["git", "push", "-f", remote] + seq(|branches|, i requires 0 <= i < |branches| => ":" + branches[i]))
  }

  /** Every word of the output starts with a quote, as `--format='%(refname)'` prints them. */
  predicate QuotedWords(refsOutput: string)
  {
    forall k | 0 <= k < |SplitWords(refsOutput)| :: SplitWords(refsOutput)[k][0] == '\''
  }

  /**
   * As written, removing the prefix keeps the quote in front of every ref,
   * so no branch whose name does not start with a quote is ever selected
   * for deletion on the remote.
   */
  lemma {:induction false} QuotedRefsNeverMatch(refsOutput: string, remote: string, head: string)
    requires QuotedWords(refsOutput)
    requires head == [] || head[0] != '\''
    ensures head !in RemoteRefs(refsOutput, remote)
  {
    var words := SplitWords(refsOutput);
    var refs := RemoteRefs(refsOutput, remote);
    forall k | 0 <= k < |refs|
      ensures refs[k] != head
    {
      ReplaceKeepsFirst(words[k], RemotePrefix(remote));
    }
  }

  /**
   * The stack branches `<user>/stack/<n>` of the landed entries are never
   * deleted on the remote: with the refs `git for-each-ref` prints, the
   * selection is empty.
   */
  lemma {:induction false} NothingDeletedOnRemote(heads: seq<Option<string>>, refsOutput: string, remote: string)
    requires QuotedWords(refsOutput)
    requires forall i | 0 <= i < |heads| :: heads[i].Some? && (heads[i].value == [] || heads[i].value[0] != '\'')
    ensures BranchesToDelete(heads, RemoteRefs(refsOutput, remote)) == Ok([])
    ensures DeleteRemoteCommand(remote, BranchesToDelete(heads, RemoteRefs(refsOutput, remote)).value).None?
  {
    var r := BranchesToDelete(heads, RemoteRefs(refsOutput, remote));
    if r.value != [] {
      var b := r.value[0];
      assert b in r.value;
      var i :| 0 <= i < |heads| && heads[i] == Some(b);
      QuotedRefsNeverMatch(refsOutput, remote, b);
      assert false;
    }
  }

  /** The refs with their quotes stripped before the prefix is removed. */
  function UnquotedRemoteRefs(refsOutput: string, remote: string): (refs: seq<string>)
    ensures |refs| == |SplitWords(refsOutput)|
  {
    var words := SplitWords(refsOutput);
    seq(|words|, i requires 0 <= i < |words| => ReplaceAll(StripChar(words[i], '\''), RemotePrefix(remote), ""))
  }

  /** The way `git for-each-ref --format='%(refname)'` prints the remote branch `head`. */
  function QuotedRemoteRef(remote: string, head: string): string
  {
    "'" + RemotePrefix(remote) + head + "'"
  }

  /**
   * With the quotes stripped, every remote branch `git for-each-ref`
   * prints is read back as its branch name, so a landed head that exists
   * on the remote is selected for deletion.
   */
  lemma {:induction false} UnquotedRefsMatch(refsOutput: string, remote: string, head: string)
    requires head != [] && head[|head| - 1] != '\'' && !Contains(head, RemotePrefix(remote))
    requires QuotedRemoteRef(remote, head) in SplitWords(refsOutput)
    ensures head in UnquotedRemoteRefs(refsOutput, remote)
  {
    var words := SplitWords(refsOutput);
    var k :| 0 <= k < |words| && words[k] == QuotedRemoteRef(remote, head);
    UnquotedRef(remote, head);
    assert UnquotedRemoteRefs(refsOutput, remote)[k] == head;
  }

  /** Stripping the quotes and then the prefix gives back the branch name. */
  lemma {:induction false} UnquotedRef(remote: string, head: string)
    requires head != [] && head[|head| - 1] != '\'' && !Contains(head, RemotePrefix(remote))
    ensures ReplaceAll(StripChar(QuotedRemoteRef(remote, head), '\''), RemotePrefix(remote), "") == head
  {
    var p := RemotePrefix(remote);
    var x := p + head;
    assert x[0] == 'r' && x[|x| - 1] == head[|head| - 1];
    assert QuotedRemoteRef(remote, head) == ['\''] + x + ['\''];
    StripCharQuoted(x, '\'');
    ReplaceLeading(p, head, "");
    ReplaceAbsent(head, p, "");
  }

  /** The landed heads that are on the remote are selected once the quotes are stripped. */
  lemma {:induction false} LandedHeadSelected(heads: seq<Option<string>>, i: nat, refsOutput: string, remote: string)
    requires forall k | 0 <= k < |heads| :: heads[k].Some?
    requires i < |heads| && heads[i].value != [] && heads[i].value[|heads[i].value| - 1] != '\''
    requires !Contains(heads[i].value, RemotePrefix(remote))
    requires QuotedRemoteRef(remote, heads[i].value) in SplitWords(refsOutput)
    ensures var r := BranchesToDelete(heads, UnquotedRemoteRefs(refsOutput, remote));
      r.Ok? && heads[i].value in r.value
  {
    var h := heads[i].value;
    UnquotedRefsMatch(refsOutput, remote, h);
    assert Some(h) in heads;
    var r := BranchesToDelete(heads, UnquotedRemoteRefs(refsOutput, remote));
    assert r.Ok? ==> h in r.value;
  }

  // ---------------------------------------------------------------------------
  // Landing
  // ---------------------------------------------------------------------------

  /** The git and GitHub commands of `land`, as far as the model records them. */
  datatype Step =
    | EditBase(pr: string, base: string)          // `gh pr edit <pr> -B <base>`
    | Merge(pr: string, squash: PrText.Squash)   // `gh pr merge <pr> --squash` with title and body
    | RebaseOnTarget(head: string)                // `rebase_pr`: check out, rebase onto the target, push
    | Run(command: seq<string>)                   // a git command run as it is

  /** Why `land` stops. */
  datatype LandError =
    | VerifyFailed(error: Verifier.VerifyError)   // `verify` raised
    | MergeMessage(reason: string)                // forming the squash message raised

  /** The number of merges in a log. */
  function Merges(log: seq<Step>): (n: nat)
    ensures n <= |log|
    ensures n == 0 <==> forall k | 0 <= k < |log| :: !log[k].Merge?
  {
    if log == [] then 0 else Merges(log[..|log| - 1]) + (if log[|log| - 1].Merge? then 1 else 0)
  }

  /** Every entry has its PR, head and base set. */
  predicate Linked(es: seq<Verifier.Links>)
  {
    forall k | 0 <= k < |es| :: es[k].pr.Some? && es[k].head.Some? && es[k].base.Some?
  }

  /** A stack that passes `verify` has every link set. */
  lemma {:induction false} VerifiedLinked(es: seq<Verifier.Links>, views: map<string, Verifier.PrInfo>, checkBase: bool)
    requires Verifier.VerifyStack(es, views, checkBase).None?
    ensures Linked(es)
  {
    Verifier.VerifyFromFirst(es, views, checkBase, 0);
  }

  /** The heads of the entries, in order. */
  function HeadsOf(es: seq<Verifier.Links>): (heads: seq<Option<string>>)
    ensures |heads| == |es| && forall k | 0 <= k < |es| :: heads[k] == es[k].head
  {
    if es == [] then [] else HeadsOf(es[..|es| - 1]) + [es[|es| - 1].head]
  }

  /**
   * The push `delete_remote_branches` runs to delete the remote branches
   * of the entries, if any, with the selection as written: the refs keep
   * the quotes `git for-each-ref` prints.
   */
  function RemoteDeletion(es: seq<Verifier.Links>, remote: string, refsOutput: string): Option<seq<string>>
    requires Linked(es)
  {
    DeleteRemoteCommand(remote, BranchesToDelete(HeadsOf(es), RemoteRefs(refsOutput, remote)).value)
  }

  /** No head of the entries starts with a quote, as no allocated name does. */
  predicate UnquotedHeads(es: seq<Verifier.Links>)
    requires Linked(es)
  {
    forall k | 0 <= k < |es| :: es[k].head.value == [] || es[k].head.value[0] != '\''
  }

  /**
   * With the refs `git for-each-ref --format='%(refname)'` prints, the
   * deletion of remote branches runs no push at all.
   */
  lemma {:induction false} NoRemoteDeletion(es: seq<Verifier.Links>, remote: string, refsOutput: string)
    requires Linked(es) && UnquotedHeads(es) && QuotedWords(refsOutput)
    ensures RemoteDeletion(es, remote, refsOutput).None?
  {
    NothingDeletedOnRemote(HeadsOf(es), refsOutput, remote);
  }

  /** The command `delete_local_branches(st)` runs. */
  function LocalDeletion(es: seq<Verifier.Links>): seq<string>
    requires Linked(es)
  {
    DeleteLocalCommand(HeadsOf(es)).value
  }

  /** Where the deletion of the local branches stands in the log of a landing. */
  function DeletePos(es: seq<Verifier.Links>): nat
  {
    if |es| > 1 then |es| + 2 else 2
  }

  /**
   * The log of a landing that gets past `verify` and the squash message:
   * the bottom PR is retargeted and merged, every other entry is rebased
   * in stack order, the new bottom PR is retargeted, the local branches
   * are deleted with `local`, and then the remote branch with `remoteCmd`
   * if there is one.
   */
  predicate LandLog(log: seq<Step>, es: seq<Verifier.Links>, squash: PrText.Squash, target: string,
                    local: seq<string>, remoteCmd: Option<seq<string>>)
    requires es != [] && Linked(es)
  {
    var d := DeletePos(es);
    && |log| == d + 1 + (if remoteCmd.Some? then 1 else 0)
    && log[0] == EditBase(es[0].pr.value, target)
    && log[1] == Merge(es[0].pr.value, squash)
    && (forall k | 1 <= k < |es| :: log[k + 1] == RebaseOnTarget(es[k].head.value))
    && (|es| > 1 ==> log[|es| + 1] == EditBase(es[1].pr.value, target))
    && log[d] == Run(local)
    && (remoteCmd.Some? ==> log[d + 1] == Run(remoteCmd.value))
  }

  /** A landing merges exactly one PR, the bottom one, right after retargeting it. */
  lemma {:induction false} LandLogMergesBottom(log: seq<Step>, es: seq<Verifier.Links>, squash: PrText.Squash, target: string,
                            local: seq<string>, remoteCmd: Option<seq<string>>)
    requires es != [] && Linked(es) && LandLog(log, es, squash, target, local, remoteCmd)
    ensures Merges(log) == 1
    ensures forall k | 0 <= k < |log| && log[k].Merge? :: k == 1 && log[k].pr == es[0].pr.value
  {
    var d := DeletePos(es);
    forall k | 0 <= k < |log| && k != 1
      ensures !log[k].Merge?
    {
      if k == 0 {
        assert log[k].EditBase?;
      } else if k < d - 1 {
        assert log[k] == RebaseOnTarget(es[k - 1].head.value);
      } else if k == d - 1 {
        assert log[k].EditBase?;
      } else if k == d {
        assert log[k] == Run(local);
      } else {
        assert log[k] == Run(remoteCmd.value);
      }
    }
    OnlyMerge(log, 1);
  }

  /** A log with one merge, at position `i`. */
  lemma {:induction false} OnlyMerge(log: seq<Step>, i: nat)
    requires i < |log| && log[i].Merge?
    requires forall k | 0 <= k < |log| && k != i :: !log[k].Merge?
    ensures Merges(log) == 1
    decreases |log|
  {
    var init := log[..|log| - 1];
    if i < |log| - 1 {
      OnlyMerge(init, i);
    } else {
      assert forall k | 0 <= k < |init| :: init[k] == log[k];
    }
  }

  /** `rebase_pr` on every entry above the bottom one, in stack order. */
  method RebaseRest(es: seq<Verifier.Links>) returns (steps: seq<Step>)
    requires es != [] && Linked(es)
    ensures |steps| == |es| - 1
    ensures forall k | 1 <= k < |es| :: steps[k - 1] == RebaseOnTarget(es[k].head.value)
  {
    steps := [];
    for i := 1 to |es|
      invariant |steps| == i - 1
      invariant forall k | 1 <= k < i :: steps[k - 1] == RebaseOnTarget(es[k].head.value)
    {
      steps := steps + [RebaseOnTarget(es[i].head.value)];
    }
  }

  /**
   * What `land_pr` and the rest of `command_land` do to a stack that passed
   * `verify`: when the squash message of the bottom PR cannot be formed,
   * only its retargeting has happened; otherwise the log is that of a
   * landing.
   */
  predicate Landed(log: seq<Step>, failure: Option<LandError>, es: seq<Verifier.Links>, msg: string,
                   target: string, remote: string, refsOutput: string)
  {
    && es != [] && Linked(es)
    && var sq := PrText.SquashMessage(msg, es[0].pr.value);
    && (failure.Some? <==> sq.Err?)
    && (sq.Err? ==> log == [EditBase(es[0].pr.value, target)] && failure == Some(MergeMessage(sq.error)))
    && (sq.Ok? ==> LandLog(log, es, sq.value, target, LocalDeletion(es), RemoteDeletion(es[..1], remote, refsOutput)))
  }

  /**
   * A successful landing on the refs `git for-each-ref` prints ends with
   * the deletion of the local branches: no remote branch is deleted.
   */
  lemma {:induction false} LandedKeepsRemote(log: seq<Step>, es: seq<Verifier.Links>, msg: string,
                                             target: string, remote: string, refsOutput: string)
    requires Landed(log, None, es, msg, target, remote, refsOutput)
    requires UnquotedHeads(es) && QuotedWords(refsOutput)
    ensures |log| == DeletePos(es) + 1 && log[|log| - 1] == Run(LocalDeletion(es))
  {
    assert UnquotedHeads(es[..1]);
    NoRemoteDeletion(es[..1], remote, refsOutput);
  }

  /** A landing merges at most one PR, and one exactly when it succeeds. */
  lemma {:induction false} LandedMerges(log: seq<Step>, failure: Option<LandError>, es: seq<Verifier.Links>, msg: string,
                     target: string, remote: string, refsOutput: string)
    requires Landed(log, failure, es, msg, target, remote, refsOutput)
    ensures Merges(log) <= 1
    ensures Merges(log) == 1 <==> failure.None?
  {
    var sq := PrText.SquashMessage(msg, es[0].pr.value);
    if sq.Ok? {
      LandLogMergesBottom(log, es, sq.value, target, LocalDeletion(es), RemoteDeletion(es[..1], remote, refsOutput));
    } else {
      assert !log[0].Merge?;
    }
  }

  /**
   * `land_pr` on the bottom entry and everything after it, on a stack
   * that passed `verify`: the bottom PR is retargeted, its squash message
   * formed and the PR merged; the rest of the stack is rebased and the
   * new bottom PR retargeted; the branches are deleted.
   */
  method LandVerified(es: seq<Verifier.Links>, msg: string, target: string, remote: string, refsOutput: string)
    returns (log: seq<Step>, failure: Option<LandError>)
    requires es != [] && Linked(es)
    ensures Landed(log, failure, es, msg, target, remote, refsOutput)
  {
    var pr := es[0].pr.value;
    var squash := PrText.SquashMessage(msg, pr);
    if squash.Err? {
      return [EditBase(pr, target)], Some(MergeMessage(squash.error));
    }
    var rebases := RebaseRest(es);
    var local := LocalDeletion(es);
    var remoteCmd := RemoteDeletion(es[..1], remote, refsOutput);
    log := Assemble(es, squash.value, target, rebases, local, remoteCmd);
    failure := None;
  }

  /** The log of a landing put together from its parts. */
  function Assemble(es: seq<Verifier.Links>, squash: PrText.Squash, target: string, rebases: seq<Step>,
                    local: seq<string>, remoteCmd: Option<seq<string>>): (log: seq<Step>)
    requires es != [] && Linked(es)
    requires |rebases| == |es| - 1 && forall k | 1 <= k < |es| :: rebases[k - 1] == RebaseOnTarget(es[k].head.value)
    ensures LandLog(log, es, squash, target, local, remoteCmd)
  {
    var retarget := if |es| > 1 then [EditBase(es[1].pr.value, target)] else [];
    var deletions := if remoteCmd.Some? then [Run(local), Run(remoteCmd.value)] else [Run(local)];
    var log := [EditBase(es[0].pr.value, target), Merge(es[0].pr.value, squash)] + rebases + retarget + deletions;
    assert log[DeletePos(es)] == deletions[0];
    assert remoteCmd.Some? ==> log[DeletePos(es) + 1] == deletions[1];
    forall k | 1 <= k < |es|
      ensures log[k + 1] == RebaseOnTarget(es[k].head.value)
    {
      assert log[k + 1] == rebases[k - 1];
    }
    log
  }

  /** `verify` has passed on the stack with its bases checked. */
  predicate Verified(st: seq<Stack.StackEntry>, views: map<string, Verifier.PrInfo>)
    reads set e | e in st
  {
    Verifier.VerifyStack(Verifier.Snapshot(st), views, true).None?
  }

  /**
   * `command_land` once the stack is known: the bases are chained to the
   * target, the stack is verified with bases checked, and only then is the
   * bottom PR landed and the rest of the stack rebased.
   */
  method Land(st: seq<Stack.StackEntry>, target: string, remote: string,
              views: map<string, Verifier.PrInfo>, refsOutput: string)
    returns (log: seq<Step>, failure: Option<LandError>)
    requires Stack.Distinct(st)
    modifies (set e | e in st)`base
    ensures st == [] ==> log == [] && failure.None?
    ensures st != [] ==> Stack.Chained(st, target)
    ensures Merges(log) <= 1
    ensures Merges(log) > 0 ==> Verified(st, views)
    ensures st != [] ==> LandedAfterVerify(log, failure, st, target, remote, views, refsOutput)
  {
    if st == [] {
      return [], None;
    }
    Stack.SetBaseBranches(st, target);
    log, failure := LandChained(st, target, remote, views, refsOutput);
  }

  /**
   * The outcome of landing a non-empty stack: when `verify` fails nothing
   * is done; otherwise the bottom PR is landed as `Landed` says.
   */
  predicate LandedAfterVerify(log: seq<Step>, failure: Option<LandError>, st: seq<Stack.StackEntry>, target: string,
                              remote: string, views: map<string, Verifier.PrInfo>, refsOutput: string)
    requires st != []
    reads set e | e in st
  {
    var es := Verifier.Snapshot(st);
    var verdict := Verifier.VerifyStack(es, views, true);
    && (verdict.Some? ==> log == [] && failure == Some(VerifyFailed(verdict.value)))
    && (verdict.None? ==> Landed(log, failure, es, CommitHeaders.CommitMsg(st[0].commit), target, remote, refsOutput))
  }

  /** `command_land` from `verify` on, on a stack whose bases are set. */
  method LandChained(st: seq<Stack.StackEntry>, target: string, remote: string,
                     views: map<string, Verifier.PrInfo>, refsOutput: string)
    returns (log: seq<Step>, failure: Option<LandError>)
    requires st != []
    ensures Merges(log) <= 1
    ensures Merges(log) > 0 ==> Verified(st, views)
    ensures LandedAfterVerify(log, failure, st, target, remote, views, refsOutput)
  {
    var verdict := Verifier.Verify(st, views, true);
    if verdict.Some? {
      return [], Some(VerifyFailed(verdict.value));
    }
    var es := Verifier.Snapshot(st);
    VerifiedLinked(es, views, true);
    var msg := CommitHeaders.CommitMsg(st[0].commit);
    log, failure := LandVerified(es, msg, target, remote, refsOutput);
    LandedMerges(log, failure, es, msg, target, remote, refsOutput);
  }
}
