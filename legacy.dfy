/**
 * The older single-file version of the tool, where it differs from the
 * package: refs are tested without stripping their quotes, the PR body has
 * no delimiter, and `land` merges every entry of the stack. Its
 * `set_base_branches`, `verify`, `add_or_update_metadata`, `generate_toc`
 * and squash message are the package's and are not repeated here.
 */
module Legacy {
  import opened Wrappers
  import opened Text
  import Stack
  import Allocator
  import Verifier
  import PrText
  import CommitHeaders
  import Land

  // ---------------------------------------------------------------------------
  // Allocating branch names
  // ---------------------------------------------------------------------------

  /** `is_valid_ref` of the older version: the `rsplit` test on the ref as it is. */
  predicate IsValidRef(ref: string)
  {
    Allocator.IsStackRef(ref)
  }

  /** The number each ref carries when it passes the older test. */
  function RefNumbers(refs: seq<string>): (ns: seq<Option<nat>>)
    ensures |ns| == |refs|
    ensures forall k | 0 <= k < |refs| ::
      ns[k] == if IsValidRef(refs[k]) then Some(Allocator.StackNumber(refs[k])) else None
  {
    if refs == [] then []
    else
      var r := refs[|refs| - 1];
      RefNumbers(refs[..|refs| - 1]) + [if IsValidRef(r) then Some(Allocator.StackNumber(r)) else None]
  }

  /** Some ref carries a number. */
  predicate AnyValid(ns: seq<Option<nat>>)
  {
    exists k | 0 <= k < |ns| :: ns[k].Some?
  }

  /**
   * The number the older `get_available_branch_name` gives the first new
   * branch: 1 when `git for-each-ref` prints nothing; otherwise one above
   * the largest valid ref, and `max` of an empty sequence raises when no
   * ref passes the test.
   */
  function AvailableNumber(refsOutput: string): (r: Result<nat, string>)
    ensures SplitWords(refsOutput) == [] ==> r == Ok(1)
    ensures r.Err? <==> SplitWords(refsOutput) != [] && !AnyValid(RefNumbers(SplitWords(refsOutput)))
    ensures var ns := RefNumbers(SplitWords(refsOutput));
      r.Ok? ==> forall k | 0 <= k < |ns| && ns[k].Some? :: ns[k].value < r.value
  {
    NumberFrom(RefNumbers(SplitWords(refsOutput)))
  }

  /** The allocation on the numbers of the refs, `None` for a ref that fails the test. */
  function NumberFrom(ns: seq<Option<nat>>): (r: Result<nat, string>)
    ensures ns == [] ==> r == Ok(1)
    ensures r.Err? <==> ns != [] && !AnyValid(ns)
    ensures r.Ok? ==> forall k | 0 <= k < |ns| && ns[k].Some? :: ns[k].value < r.value
  {
    if ns == [] then Ok(1)
    else if !AnyValid(ns) then Err("max() arg is an empty sequence")
    else Ok(Allocator.MaxNumber(ns) + 1)
  }

  /** `get_available_branch_name` of the older version. */
  function AvailableBranchName(user: string, refsOutput: string): (r: Result<string, string>)
    ensures r.Err? <==> AvailableNumber(refsOutput).Err?
    ensures r.Ok? ==> r.value == Allocator.BranchName(user, AvailableNumber(refsOutput).value)
  {
    match AvailableNumber(refsOutput)
    case Err(e) => Err(e)
    case Ok(n) => Ok(Allocator.BranchName(user, n))
  }

  /** A ref that ends in a quote never passes the older test: its last part is not numeric. */
  lemma {:induction false} QuotedRefInvalid(ref: string)
    requires ref != [] && ref[|ref| - 1] == '\''
    ensures !IsValidRef(ref)
  {
    match LastIndexOf(ref, '/')
    case None =>
    case Some(k) =>
      var tail := ref[k + 1..];
      assert tail != [] && tail[|tail| - 1] == '\'';
      assert !IsNumeric(tail);
  }

  /**
   * `git for-each-ref --format='%(refname)'` prints every ref between
   * quotes, so as soon as the remote has a stack branch the older
   * allocator raises instead of naming one.
   */
  lemma {:induction false} QuotedRefsFail(refsOutput: string)
    requires SplitWords(refsOutput) != []
    requires forall k | 0 <= k < |SplitWords(refsOutput)| ::
      SplitWords(refsOutput)[k][|SplitWords(refsOutput)[k]| - 1] == '\''
    ensures AvailableNumber(refsOutput).Err?
  {
    var ws := SplitWords(refsOutput);
    var ns := RefNumbers(ws);
    forall k | 0 <= k < |ws|
      ensures ns[k].None?
    {
      QuotedRefInvalid(ws[k]);
    }
  }

  /** A single remote stack branch, as `git for-each-ref` prints it, makes the older allocator raise. */
  lemma {:induction false} OneRemoteBranchFails(w: string)
    requires w == "'refs/remotes/origin/alice/stack/1'"
    ensures AvailableNumber(w).Err?
  {
    assert w[|w| - 1] == '\'';
    QuotedWordFails(w);
  }

  /** A lone quoted word of visible characters makes the older allocator raise. */
  lemma {:induction false} QuotedWordFails(w: string)
    requires w != [] && w[|w| - 1] == '\''
    requires forall k | 0 <= k < |w| :: '!' <= w[k] <= '~'
    ensures AvailableNumber(w).Err?
  {
    VisibleNoSpace(w);
    SplitOneWord(w);
    QuotedRefsFail(w);
  }

  /**
   * On refs without quotes both versions test and number refs alike, so
   * the older allocator gives the number the package's does whenever some
   * ref passes.
   */
  lemma {:induction false} AgreesWithoutQuotes(refsOutput: string)
    requires forall k | 0 <= k < |SplitWords(refsOutput)| :: NoChar(SplitWords(refsOutput)[k], '\'')
    requires AvailableNumber(refsOutput).Ok?
    ensures AvailableNumber(refsOutput).value == Allocator.AvailableNumber(refsOutput)
  {
    AgreesOnWords(SplitWords(refsOutput));
  }

  /** The same, on the words of the listing. */
  lemma {:induction false} AgreesOnWords(ws: seq<string>)
    requires forall k | 0 <= k < |ws| :: NoChar(ws[k], '\'')
    requires NumberFrom(RefNumbers(ws)).Ok?
    ensures NumberFrom(RefNumbers(ws)).value == Allocator.MaxRefNumber(ws) + 1
  {
    SameMax(ws);
    NumberOk(RefNumbers(ws));
  }

  /** Refs without quotes have the same largest number under both tests. */
  lemma {:induction false} SameMax(ws: seq<string>)
    requires forall k | 0 <= k < |ws| :: NoChar(ws[k], '\'')
    ensures Allocator.MaxRefNumber(ws) == Allocator.MaxNumber(RefNumbers(ws))
  {
    SameNumbers(ws);
  }

  /** Whenever the older allocation succeeds it is one above the largest number. */
  lemma {:induction false} NumberOk(ns: seq<Option<nat>>)
    requires NumberFrom(ns).Ok?
    ensures NumberFrom(ns) == Ok(Allocator.MaxNumber(ns) + 1)
  {
    if ns == [] {
      assert Allocator.MaxNumber(ns) == 0;
    }
  }

  /** Refs without quotes carry the same numbers under both tests. */
  lemma {:induction false} SameNumbers(ws: seq<string>)
    requires forall k | 0 <= k < |ws| :: NoChar(ws[k], '\'')
    ensures RefNumbers(ws) == Allocator.RefNumbers(ws)
  {
    forall k | 0 <= k < |ws|
      ensures RefNumbers(ws)[k] == Allocator.RefNumbers(ws)[k]
    {
      StripCharNoop(ws[k], '\'');
    }
  }

  /**
   * `set_head_branches` of the older version, with the user's login and
   * the `git for-each-ref` output passed in: when a name is available,
   * each entry without a head gets the next one, as in the package; when
   * the allocator raises, no head is set.
   */
  method SetHeadBranches(st: seq<Stack.StackEntry>, user: string, refsOutput: string) returns (failure: Option<string>)
    requires Stack.Distinct(st)
    modifies (set e | e in st)`head
    ensures failure.Some? <==> AvailableNumber(refsOutput).Err?
    ensures failure.Some? ==> Allocator.Heads(st) == old(Allocator.Heads(st))
    ensures failure.None? ==>
      Allocator.Heads(st) == Allocator.AssignHeads(old(Allocator.Heads(st)), user, AvailableNumber(refsOutput).value)
  {
    var name := AvailableBranchName(user, refsOutput);
    if name.Err? {
      return Some(name.error);
    }
    Allocator.AssignFrom(st, user, AvailableNumber(refsOutput).value, name.value);
    return None;
  }

  // ---------------------------------------------------------------------------
  // The cross-linked PR body
  // ---------------------------------------------------------------------------

  /**
   * The body the older `add_cross_links` writes: the table, the commit's
   * title as a heading, a blank line, and the commit's body with a final
   * newline; there is no delimiter.
   */
  function CrossLinkBody(toc: string, title: string, msg: string): string
  {
    Join([toc, "### " + title, "", PrText.BodyOf(msg) + "\n"], "\n")
  }

  /**
   * The two versions write the same table, title and body; the package
   * puts the delimiter line and a blank line between the table and the
   * title, and the older version ends the body with a newline.
   */
  lemma {:induction false} BodiesCompared(toc: string, title: string, msg: string, currentBody: string)
    ensures var core := "### " + title + "\n\n" + PrText.BodyOf(msg);
      && CrossLinkBody(toc, title, msg) == toc + "\n" + core + "\n"
      && PrText.CrossLinkBody(toc, title, msg, false, currentBody)
         == toc + "\n" + PrText.DELIMITER + "\n" + "\n" + core
  {
    var t, b := "### " + title, PrText.BodyOf(msg);
    var parts := [toc, t, "", b + "\n"];
    JoinCons(toc, parts[1..], "\n");
    JoinCons(t, parts[2..], "\n");
    JoinTwo("", b + "\n", "\n");
    PrText.WrittenBody(toc, title, msg, currentBody);
  }

  /**
   * The body the older `add_cross_links` writes for the entry at `i`: it
   * fails exactly where the package's does.
   */
  function EntryBody(prs: seq<string>, i: nat, commit: CommitHeaders.CommitHeader): (r: Result<string, string>)
    requires i < |prs|
    ensures r.Err? <==> PrText.EntryBody(prs, i, commit, false, "").Err?
  {
    match Allocator.Last(prs[i])
    case Err(e) => Err(e)
    case Ok(id) =>
      match PrText.GenerateToc(prs, id)
      case Err(e) => Err(e)
      case Ok(toc) =>
        match CommitHeaders.Title(commit)
        case None => Err("commit has no title line")
        case Some(title) => Ok(CrossLinkBody(toc, title, CommitHeaders.CommitMsg(commit)))
  }

  // ---------------------------------------------------------------------------
  // Landing every entry
  // ---------------------------------------------------------------------------

  /** The squash message of each entry. */
  function Squashes(es: seq<Verifier.Links>, msgs: seq<string>): (sqs: seq<Result<PrText.Squash, string>>)
    requires Land.Linked(es) && |msgs| == |es|
    ensures |sqs| == |es|
    ensures forall k | 0 <= k < |es| :: sqs[k] == PrText.SquashMessage(msgs[k], es[k].pr.value)
  {
    if es == [] then []
    else
      var n := |es| - 1;
      Squashes(es[..n], msgs[..n]) + [PrText.SquashMessage(msgs[n], es[n].pr.value)]
  }

  /**
   * The older `land_pr` on entry `k`, recorded at steps `3k` to `3k + 2`:
   * its head is rebased onto the target, its PR retargeted and merged.
   */
  predicate EntryLanded(log: seq<Step>, es: seq<Verifier.Links>, sqs: seq<Result<PrText.Squash, string>>,
                        target: string, k: nat)
    requires Land.Linked(es) && |sqs| == |es| && k < |es|
  {
    && 3 * k + 2 < |log| && sqs[k].Ok?
    && log[3 * k] == Land.RebaseOnTarget(es[k].head.value)
    && log[3 * k + 1] == Land.EditBase(es[k].pr.value, target)
    && log[3 * k + 2] == Land.Merge(es[k].pr.value, sqs[k].value)
  }

  type Step = Land.Step

  /**
   * The log of the older `land` when every squash message can be formed:
   * every entry is landed, bottom first, then the local branches are
   * deleted with `local`, and the remote ones with `remoteCmd` if any.
   */
  predicate LandLog(log: seq<Step>, es: seq<Verifier.Links>, sqs: seq<Result<PrText.Squash, string>>, target: string,
                    local: seq<string>, remoteCmd: Option<seq<string>>)
    requires Land.Linked(es) && |sqs| == |es|
  {
    var d := 3 * |es|;
    && |log| == d + 1 + (if remoteCmd.Some? then 1 else 0)
    && (forall k | 0 <= k < |es| :: EntryLanded(log, es, sqs, target, k))
    && log[d] == Land.Run(local)
    && (remoteCmd.Some? ==> log[d + 1] == Land.Run(remoteCmd.value))
  }

  /**
   * The log of the older `land` stopped at entry `i`, whose squash message
   * cannot be formed: the entries below it are landed, it is rebased and
   * retargeted, and nothing is deleted.
   */
  predicate StoppedAt(log: seq<Step>, es: seq<Verifier.Links>, sqs: seq<Result<PrText.Squash, string>>, target: string, i: nat)
    requires Land.Linked(es) && |sqs| == |es|
  {
    && i < |es| && sqs[i].Err?
    && |log| == 3 * i + 2
    && (forall k | 0 <= k < i :: EntryLanded(log, es, sqs, target, k))
    && log[3 * i] == Land.RebaseOnTarget(es[i].head.value)
    && log[3 * i + 1] == Land.EditBase(es[i].pr.value, target)
  }

  /**
   * The outcome of the older `land` on a stack that passed `verify`: the
   * first entry whose squash message cannot be formed stops it; without
   * one, every entry is landed.
   */
  predicate Landed(log: seq<Step>, failure: Option<Land.LandError>, es: seq<Verifier.Links>, msgs: seq<string>,
                   target: string, remote: string, refsOutput: string)
  {
    && Land.Linked(es) && |msgs| == |es|
    && var sqs := Squashes(es, msgs);
    && (failure.None? ==>
         LandLog(log, es, sqs, target, Land.LocalDeletion(es), Land.RemoteDeletion(es, remote, refsOutput)))
    && (failure.Some? ==>
         exists i | 0 <= i < |es| :: StoppedAt(log, es, sqs, target, i) && failure == Some(Land.MergeMessage(sqs[i].error)))
  }

  /** One pass of the landing loop: `land_pr` on entry `i`. */
  method LandEntry(es: seq<Verifier.Links>, sqs: seq<Result<PrText.Squash, string>>, target: string, i: nat, log: seq<Step>)
    returns (next: seq<Step>)
    requires Land.Linked(es) && |sqs| == |es| && i < |es|
    requires |log| == 3 * i && forall k | 0 <= k < i :: EntryLanded(log, es, sqs, target, k)
    ensures sqs[i].Ok? ==> |next| == 3 * (i + 1) && forall k | 0 <= k <= i :: EntryLanded(next, es, sqs, target, k)
    ensures sqs[i].Err? ==> StoppedAt(next, es, sqs, target, i)
  {
    var e := es[i];
    next := log + [Land.RebaseOnTarget(e.head.value), Land.EditBase(e.pr.value, target)];
    if sqs[i].Ok? {
      next := next + [Land.Merge(e.pr.value, sqs[i].value)];
    }
    forall k | 0 <= k < i
      ensures EntryLanded(next, es, sqs, target, k)
    {
      assert EntryLanded(log, es, sqs, target, k);
      assert next[3 * k] == log[3 * k] && next[3 * k + 1] == log[3 * k + 1] && next[3 * k + 2] == log[3 * k + 2];
    }
  }

  /**
   * The loop of the older `command_land` and the deletion after it, on a
   * stack that passed `verify`, with each entry's commit message.
   */
  method LandAll(es: seq<Verifier.Links>, msgs: seq<string>, target: string, remote: string, refsOutput: string)
    returns (log: seq<Step>, failure: Option<Land.LandError>)
    requires Land.Linked(es) && |msgs| == |es|
    ensures Landed(log, failure, es, msgs, target, remote, refsOutput)
  {
    var sqs := Squashes(es, msgs);
    log := [];
    for i := 0 to |es|
      invariant |log| == 3 * i && forall k | 0 <= k < i :: EntryLanded(log, es, sqs, target, k)
    {
      log := LandEntry(es, sqs, target, i, log);
      if sqs[i].Err? {
        return log, Some(Land.MergeMessage(sqs[i].error));
      }
    }
    var tail := [Land.Run(Land.LocalDeletion(es))];
    var remoteCmd := Land.RemoteDeletion(es, remote, refsOutput);
    if remoteCmd.Some? {
      tail := tail + [Land.Run(remoteCmd.value)];
    }
    var landed := log;
    log := log + tail;
    forall k | 0 <= k < |es|
      ensures EntryLanded(log, es, sqs, target, k)
    {
      assert EntryLanded(landed, es, sqs, target, k);
      assert log[3 * k] == landed[3 * k] && log[3 * k + 1] == landed[3 * k + 1] && log[3 * k + 2] == landed[3 * k + 2];
    }
    failure := None;
  }

  /** `Merges` counts a log one step further. */
  lemma {:induction false} MergesStep(log: seq<Step>, j: nat)
    requires j < |log|
    ensures Land.Merges(log[..j + 1]) == Land.Merges(log[..j]) + if log[j].Merge? then 1 else 0
  {
    assert log[..j + 1][..j] == log[..j];
  }

  /** Steps `3k` to `3k + 2` of `log` hold exactly one merge, the last. */
  predicate MergeTriple(log: seq<Step>, k: nat)
  {
    && 3 * k + 2 < |log|
    && !log[3 * k].Merge? && !log[3 * k + 1].Merge? && log[3 * k + 2].Merge?
  }

  /** One such triple adds one merge. */
  lemma {:induction false} MergesOfTriple(log: seq<Step>, j: nat)
    requires j + 2 < |log|
    requires !log[j].Merge? && !log[j + 1].Merge? && log[j + 2].Merge?
    ensures Land.Merges(log[..j + 3]) == Land.Merges(log[..j]) + 1
  {
    MergesStep(log, j);
    MergesStep(log, j + 1);
    MergesStep(log, j + 2);
  }

  /** `n` such triples make `n` merges. */
  lemma {:induction false} MergesOfTriples(log: seq<Step>, n: nat)
    requires 3 * n <= |log|
    requires forall k | 0 <= k < n :: MergeTriple(log, k)
    ensures Land.Merges(log[..3 * n]) == n
  {
    if n == 0 {
      assert log[..0] == [];
    } else {
      var j := 3 * (n - 1);
      MergesOfTriples(log, n - 1);
      assert MergeTriple(log, n - 1);
      MergesOfTriple(log, j);
    }
  }

  /** A complete log of the older `land` holds one merge per entry. */
  lemma {:induction false} LandLogMerges(log: seq<Step>, es: seq<Verifier.Links>, sqs: seq<Result<PrText.Squash, string>>, target: string,
                      local: seq<string>, remoteCmd: Option<seq<string>>)
    requires Land.Linked(es) && |sqs| == |es|
    requires LandLog(log, es, sqs, target, local, remoteCmd)
    ensures Land.Merges(log) == |es|
  {
    var d := 3 * |es|;
    forall k | 0 <= k < |es|
      ensures MergeTriple(log, k)
    {
      assert EntryLanded(log, es, sqs, target, k);
    }
    MergesOfTriples(log, |es|);
    MergesStep(log, d);
    if remoteCmd.Some? {
      MergesStep(log, d + 1);
    }
    assert log[..|log|] == log;
  }

  /** A log stopped at entry `i` holds one merge per entry below it. */
  lemma {:induction false} StoppedMerges(log: seq<Step>, es: seq<Verifier.Links>, sqs: seq<Result<PrText.Squash, string>>, target: string, i: nat)
    requires Land.Linked(es) && |sqs| == |es|
    requires StoppedAt(log, es, sqs, target, i)
    ensures Land.Merges(log) == i
  {
    forall k | 0 <= k < i
      ensures MergeTriple(log, k)
    {
      assert EntryLanded(log, es, sqs, target, k);
    }
    MergesOfTriples(log, i);
    MergesStep(log, 3 * i);
    MergesStep(log, 3 * i + 1);
    assert log[..|log|] == log;
  }

  /**
   * A complete landing on the refs `git for-each-ref` prints ends with the
   * deletion of the local branches: no remote branch is deleted.
   */
  lemma {:induction false} LandedKeepsRemote(log: seq<Step>, es: seq<Verifier.Links>, msgs: seq<string>,
                                             target: string, remote: string, refsOutput: string)
    requires Landed(log, None, es, msgs, target, remote, refsOutput)
    requires Land.UnquotedHeads(es) && Land.QuotedWords(refsOutput)
    ensures |log| == 3 * |es| + 1 && log[|log| - 1] == Land.Run(Land.LocalDeletion(es))
  {
    Land.NoRemoteDeletion(es, remote, refsOutput);
  }

  /**
   * The older `land` merges one PR per landed entry: all of them when it
   * completes, the ones below the failing entry when it stops.
   */
  lemma {:induction false} LandedMerges(log: seq<Step>, failure: Option<Land.LandError>, es: seq<Verifier.Links>, msgs: seq<string>,
                     target: string, remote: string, refsOutput: string)
    requires Landed(log, failure, es, msgs, target, remote, refsOutput)
    ensures failure.None? ==> Land.Merges(log) == |es|
    ensures failure.Some? ==> Land.Merges(log) < |es|
  {
    var sqs := Squashes(es, msgs);
    if failure.None? {
      LandLogMerges(log, es, sqs, target, Land.LocalDeletion(es), Land.RemoteDeletion(es, remote, refsOutput));
    } else {
      var i :| 0 <= i < |es| && StoppedAt(log, es, sqs, target, i) && failure == Some(Land.MergeMessage(sqs[i].error));
      StoppedMerges(log, es, sqs, target, i);
    }
  }

  /** The commit message of each entry. */
  function Messages(st: seq<Stack.StackEntry>): (msgs: seq<string>)
    ensures |msgs| == |st| && forall k | 0 <= k < |st| :: msgs[k] == CommitHeaders.CommitMsg(st[k].commit)
  {
    if st == [] then [] else Messages(st[..|st| - 1]) + [CommitHeaders.CommitMsg(st[|st| - 1].commit)]
  }

  /**
   * The older `command_land` once the stack is known: the bases are
   * chained to the target, the stack is verified with bases checked, and
   * only then is every entry landed, bottom first.
   */
  method LandStack(st: seq<Stack.StackEntry>, target: string, remote: string,
                   views: map<string, Verifier.PrInfo>, refsOutput: string)
    returns (log: seq<Step>, failure: Option<Land.LandError>)
    requires Stack.Distinct(st)
    modifies (set e | e in st)`base
    ensures st == [] ==> log == [] && failure.None?
    ensures st != [] ==> Stack.Chained(st, target)
    ensures Land.Merges(log) > 0 ==> Land.Verified(st, views)
    ensures st != [] ==> LandedAfterVerify(log, failure, st, target, remote, views, refsOutput)
  {
    if st == [] {
      return [], None;
    }
    Stack.SetBaseBranches(st, target);
    log, failure := LandChained(st, target, remote, views, refsOutput);
  }

  /**
   * The outcome of the older `land` on a non-empty stack: when `verify`
   * fails nothing is done; otherwise the entries are landed as `Landed`
   * says.
   */
  predicate LandedAfterVerify(log: seq<Step>, failure: Option<Land.LandError>, st: seq<Stack.StackEntry>, target: string,
                              remote: string, views: map<string, Verifier.PrInfo>, refsOutput: string)
    reads set e | e in st
  {
    var es := Verifier.Snapshot(st);
    var verdict := Verifier.VerifyStack(es, views, true);
    && (verdict.Some? ==> log == [] && failure == Some(Land.VerifyFailed(verdict.value)))
    && (verdict.None? ==> Landed(log, failure, es, Messages(st), target, remote, refsOutput))
  }

  /** The older `command_land` from `verify` on, on a stack whose bases are set. */
  method LandChained(st: seq<Stack.StackEntry>, target: string, remote: string,
                     views: map<string, Verifier.PrInfo>, refsOutput: string)
    returns (log: seq<Step>, failure: Option<Land.LandError>)
    ensures Land.Merges(log) > 0 ==> Land.Verified(st, views)
    ensures LandedAfterVerify(log, failure, st, target, remote, views, refsOutput)
  {
    var verdict := Verifier.Verify(st, views, true);
    if verdict.Some? {
      return [], Some(Land.VerifyFailed(verdict.value));
    }
    var es := Verifier.Snapshot(st);
    Land.VerifiedLinked(es, views, true);
    log, failure := LandAll(es, Messages(st), target, remote, refsOutput);
  }
}
