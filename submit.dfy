/**
 * The decisions of `submit` that do not depend on git or GitHub: the draft
 * bitmask option, the gate before any branch is touched, the draft flag of
 * each PR, the metadata pass that embeds stack-info lines into commit
 * messages and decides which branches must be rebased, and the refspecs
 * pushed to the remote.
 */
module Submit {
  import opened Wrappers
  import opened Text
  import StackInfo
  import CommitHeaders
  import Stack

  // ---------------------------------------------------------------------------
  // The draft bitmask
  // ---------------------------------------------------------------------------

  predicate IsBit(c: char) { c == '0' || c == '1' }

  const BITMASK_ERROR: string := "Bitmask must only contain 0s and 1s."

  /**
   * `draft_bitmask_type`: a text of `0`s and `1`s becomes one flag per
   * character; any other character is refused. The empty text is accepted
   * and gives no flags.
   */
  function DraftBitmask(value: string): (r: Result<seq<bool>, string>)
    ensures r.Err? <==> exists i | 0 <= i < |value| :: !IsBit(value[i])
    ensures r.Err? ==> r.error == BITMASK_ERROR
    ensures r.Ok? ==> |r.value| == |value|
    ensures r.Ok? ==> forall i | 0 <= i < |value| :: r.value[i] <==> value[i] == '1'
  {
    if value != [] && exists i | 0 <= i < |value| :: !IsBit(value[i]) then Err(BITMASK_ERROR)
    else Ok(seq(|value|, i requires 0 <= i < |value| => value[i] == '1'))
  }

  /** The bitmask text that spells a list of flags. */
  function BitmaskText(bits: seq<bool>): (s: string)
    ensures |s| == |bits|
    ensures forall i | 0 <= i < |bits| :: IsBit(s[i])
  {
    seq(|bits|, i requires 0 <= i < |bits| => if bits[i] then '1' else '0')
  }

  /** Every list of flags is spelled by a bitmask the option accepts, and reads back unchanged. */
  lemma {:induction false} BitmaskRoundTrip(bits: seq<bool>)
    ensures DraftBitmask(BitmaskText(bits)) == Ok(bits)
  {
    var r := DraftBitmask(BitmaskText(bits));
    assert r.value == bits;
  }

  /** An accepted bitmask is the spelling of its flags. */
  lemma {:induction false} BitmaskTextRoundTrip(value: string)
    requires DraftBitmask(value).Ok?
    ensures BitmaskText(DraftBitmask(value).value) == value
  {
    var t := BitmaskText(DraftBitmask(value).value);
    forall i | 0 <= i < |value|
      ensures t[i] == value[i]
    {
      assert IsBit(value[i]);
    }
  }

  // ---------------------------------------------------------------------------
  // The gate of `command_submit`
  // ---------------------------------------------------------------------------

  /** How `command_submit` goes on once the stack is known. */
  datatype Gate = EmptyStack | BitmaskMismatch | Proceed

  /**
   * `command_submit` stops on an empty stack, then when a bitmask was given
   * whose length differs from the stack size; only then does it create
   * branches and PRs.
   */
  function SubmitGate(stackSize: nat, bitmask: Option<seq<bool>>): (g: Gate)
    ensures g == EmptyStack <==> stackSize == 0
    ensures g == BitmaskMismatch <==> stackSize > 0 && bitmask.Some? && |bitmask.value| != stackSize
    ensures g == Proceed <==> stackSize > 0 && (bitmask.None? || |bitmask.value| == stackSize)
  {
    if stackSize == 0 then EmptyStack
    else if bitmask.Some? && |bitmask.value| != stackSize then BitmaskMismatch
    else Proceed
  }

  /**
   * The loop over the stack that creates the PRs, as far as it decides
   * whether each PR is a draft: `--draft` makes every PR a draft, and a
   * bitmask makes the PRs whose flag is set drafts.
   */
  method DraftFlags(stackSize: nat, draft: bool, bitmask: Option<seq<bool>>) returns (flags: seq<bool>)
    requires SubmitGate(stackSize, bitmask) == Proceed
    ensures |flags| == stackSize
    ensures forall i | 0 <= i < stackSize :: flags[i] <==> draft || (bitmask.Some? && bitmask.value[i])
  {
    flags := [];
    for i := 0 to stackSize
      invariant |flags| == i
      invariant forall k | 0 <= k < i :: flags[k] <==> draft || (bitmask.Some? && bitmask.value[k])
    {
      var isDraft := draft || (bitmask.Some? && bitmask.value[i]);
      flags := flags + [isDraft];
    }
  }

  /**
   * With a bitmask from the command line, the PR at position `i` (bottom
   * of the stack first) is a draft exactly when `--draft` is given or the
   * `i`-th character of the bitmask is `1`.
   */
  lemma {:induction false} DraftFromText(stackSize: nat, draft: bool, value: string, i: nat)
    requires DraftBitmask(value).Ok? && i < stackSize
    requires SubmitGate(stackSize, Some(DraftBitmask(value).value)) == Proceed
    ensures i < |value|
    ensures (draft || DraftBitmask(value).value[i]) <==> draft || value[i] == '1'
  {
  }

  // ---------------------------------------------------------------------------
  // Embedding the metadata
  // ---------------------------------------------------------------------------

  /** The git commands `add_or_update_metadata` runs. */
  datatype GitCall =
    | Rebase(base: string, head: string)   // `git rebase <base> <head> --committer-date-is-author-date`
    | Checkout(head: string)               // `git checkout <head>`
    | Amend(message: string)               // `git commit --amend -F -` with the message on stdin

  /** What one call of `add_or_update_metadata` does and returns. */
  datatype Update = Update(calls: seq<GitCall>, needsRebase: bool)

  /**
   * `add_or_update_metadata` for an entry with commit message `msg` and
   * links `pr`, `head`, `base`: first a rebase onto the base when a commit
   * below was amended, otherwise a checkout; then, only when the message
   * has no stack-info line, an amend that appends one. The property
   * getters raise in the order the code reads them: base then head for the
   * rebase, head for the checkout, then pr for the new line.
   */
  function AddOrUpdateMetadata(msg: string, pr: Option<string>, head: Option<string>, base: Option<string>, needsRebase: bool)
    : (r: Result<Update, string>)
    ensures r.Err? <==> (needsRebase && base.None?) || head.None? || (StackInfo.ReadMetadata(msg).None? && pr.None?)
    ensures r.Ok? ==> r.value.needsRebase == (needsRebase || StackInfo.ReadMetadata(msg).None?)
    ensures r.Ok? ==> r.value.calls != [] && (r.value.calls[0].Rebase? <==> needsRebase)
    ensures r.Ok? ==> (|r.value.calls| == 2 <==> StackInfo.ReadMetadata(msg).None?) && |r.value.calls| <= 2
  {
    var first :=
      if needsRebase then
        match Stack.Get(base, "base")
        case Err(e) => Err(e)
        case Ok(b) => (match Stack.Get(head, "head") case Err(e) => Err(e) case Ok(h) => Ok(Rebase(b, h)))
      else
        match Stack.Get(head, "head")
        case Err(e) => Err(e)
        case Ok(h) => Ok(Checkout(h));
    match first
    case Err(e) => Err(e)
    case Ok(call) =>
      if StackInfo.ReadMetadata(msg).Some? then Ok(Update([call], needsRebase))
      else
        match Stack.Get(pr, "pr")
        case Err(e) => Err(e)
        case Ok(p) => Ok(Update([call, Amend(StackInfo.Append(msg, p, head.value))], true))
  }

  /**
   * The message an amend writes carries exactly the entry's links: read
   * back, it gives the entry's PR and head branch.
   */
  lemma {:induction false} AmendWritesLinks(msg: string, pr: string, head: string, base: Option<string>, needsRebase: bool)
    requires StackInfo.ReadMetadata(msg).None? && StackInfo.Writable(pr, head)
    requires !needsRebase || base.Some?
    ensures var r := AddOrUpdateMetadata(msg, Some(pr), Some(head), base, needsRebase);
      && r.Ok? && |r.value.calls| == 2 && r.value.calls[1].Amend?
      && StackInfo.ReadMetadata(r.value.calls[1].message) == Some(StackInfo.Metadata(pr, head))
  {
    StackInfo.AppendThenRead(msg, pr, head);
  }

  /**
   * Submitting again changes no message: on the amended message the
   * function finds the line it wrote, amends nothing, and passes the
   * incoming flag through.
   */
  lemma {:induction false} AmendIdempotent(msg: string, pr: string, head: string, base: Option<string>, needsRebase: bool, again: bool)
    requires StackInfo.ReadMetadata(msg).None? && StackInfo.Writable(pr, head)
    requires !needsRebase || base.Some?
    requires !again || base.Some?
    ensures var m := AddOrUpdateMetadata(msg, Some(pr), Some(head), base, needsRebase).value.calls[1].message;
      var r := AddOrUpdateMetadata(m, Some(pr), Some(head), base, again);
      && r.Ok? && |r.value.calls| == 1 && r.value.needsRebase == again
  {
    AmendWritesLinks(msg, pr, head, base, needsRebase);
  }

  /** The links and message of an entry as the metadata pass reads them. */
  datatype EntryView = EntryView(msg: string, pr: Option<string>, head: Option<string>, base: Option<string>)

  /** The view of a stack entry. */
  function ViewOf(e: Stack.StackEntry): EntryView
    reads e
  {
    EntryView(CommitHeaders.CommitMsg(e.commit), e.pr, e.head, e.base)
  }

  /** The views of every entry, in order. */
  function Views(st: seq<Stack.StackEntry>): (vs: seq<EntryView>)
    reads set e | e in st
    ensures |vs| == |st| && forall i | 0 <= i < |st| :: vs[i] == ViewOf(st[i])
  {
    if st == [] then [] else Views(st[..|st| - 1]) + [ViewOf(st[|st| - 1])]
  }

  /** The metadata pass over the first `n` entries: the calls made and the flag handed on, or the first error. */
  function PassUpTo(vs: seq<EntryView>, n: nat): Result<Update, string>
    requires n <= |vs|
  {
    if n == 0 then Ok(Update([], false))
    else
      match PassUpTo(vs, n - 1)
      case Err(e) => Err(e)
      case Ok(u) =>
        var v := vs[n - 1];
        match AddOrUpdateMetadata(v.msg, v.pr, v.head, v.base, u.needsRebase)
        case Err(e) => Err(e)
        case Ok(w) => Ok(Update(u.calls + w.calls, w.needsRebase))
  }

  /**
   * The loop of `command_submit` that embeds the metadata, bottom of the
   * stack first, threading `needs_rebase` from one entry to the next; the
   * first failing entry stops it.
   */
  method EmbedMetadata(st: seq<Stack.StackEntry>) returns (r: Result<Update, string>)
    ensures r == PassUpTo(Views(st), |st|)
  {
    var vs := Views(st);
    r := EmbedAll(vs);
  }

  /** The loop itself, over the entries as the pass reads them. */
  method EmbedAll(vs: seq<EntryView>) returns (r: Result<Update, string>)
    ensures r == PassUpTo(vs, |vs|)
  {
    var sofar := Update([], false);
    for i := 0 to |vs|
      invariant PassUpTo(vs, i) == Ok(sofar)
    {
      var next := EmbedOne(vs, i, sofar);
      if next.Err? {
        return next;
      }
      sofar := next.value;
    }
    return Ok(sofar);
  }

  /**
   * One iteration of the loop: `add_or_update_metadata` on the entry at
   * `i` with the flag so far; an error ends the whole pass.
   */
  method EmbedOne(vs: seq<EntryView>, i: nat, sofar: Update) returns (next: Result<Update, string>)
    requires i < |vs| && PassUpTo(vs, i) == Ok(sofar)
    ensures next.Ok? ==> PassUpTo(vs, i + 1) == next
    ensures next.Err? ==> PassUpTo(vs, |vs|) == next
  {
    var v := vs[i];
    PassStep(vs, i, v, sofar.calls, sofar.needsRebase);
    var u := AddOrUpdateMetadata(v.msg, v.pr, v.head, v.base, sofar.needsRebase);
    if u.Err? {
      PassErrStays(vs, i + 1, |vs|);
      return Err(u.error);
    }
    return Ok(Update(sofar.calls + u.value.calls, u.value.needsRebase));
  }

  /** One more entry of the pass: its own update, added to the pass so far. */
  lemma {:induction false} PassStep(vs: seq<EntryView>, i: nat, v: EntryView, calls: seq<GitCall>, needsRebase: bool)
    requires i < |vs| && vs[i] == v && PassUpTo(vs, i) == Ok(Update(calls, needsRebase))
    ensures var w := AddOrUpdateMetadata(v.msg, v.pr, v.head, v.base, needsRebase);
      && (w.Err? ==> PassUpTo(vs, i + 1) == Err(w.error))
      && (w.Ok? ==> PassUpTo(vs, i + 1) == Ok(Update(calls + w.value.calls, w.value.needsRebase)))
  {
  }

  /** The first error ends the pass: every longer prefix fails with it. */
  lemma {:induction false} PassErrStays(vs: seq<EntryView>, m: nat, n: nat)
    requires m <= n <= |vs| && PassUpTo(vs, m).Err?
    ensures PassUpTo(vs, n) == PassUpTo(vs, m)
    decreases n - m
  {
    if m < n {
      PassErrStays(vs, m, n - 1);
    }
  }

  /** Some entry among the first `n` has no stack-info line. */
  predicate SomeUnlinked(vs: seq<EntryView>, n: nat)
    requires n <= |vs|
  {
    exists j | 0 <= j < n :: StackInfo.ReadMetadata(vs[j].msg).None?
  }

  /**
   * After the first `n` entries the flag is set exactly when one of them
   * was amended, so every entry above an amended commit is rebased onto
   * its (rewritten) base, and an entry is only checked out while nothing
   * below it changed.
   */
  lemma {:induction false} FlagAfter(vs: seq<EntryView>, n: nat)
    requires n <= |vs| && PassUpTo(vs, n).Ok?
    ensures PassUpTo(vs, n).value.needsRebase <==> SomeUnlinked(vs, n)
  {
    if n > 0 {
      FlagAfter(vs, n - 1);
      var v := vs[n - 1];
      if StackInfo.ReadMetadata(v.msg).None? {
        assert SomeUnlinked(vs, n);
      } else if SomeUnlinked(vs, n) {
        var j :| 0 <= j < n && StackInfo.ReadMetadata(vs[j].msg).None?;
        assert SomeUnlinked(vs, n - 1);
      } else {
        assert !SomeUnlinked(vs, n - 1);
      }
    }
  }

  /** Once the flag is set it stays set for the rest of the pass. */
  lemma {:induction false} FlagStaysSet(vs: seq<EntryView>, m: nat, n: nat)
    requires m <= n <= |vs| && PassUpTo(vs, n).Ok?
    requires PassUpTo(vs, m).Ok? && PassUpTo(vs, m).value.needsRebase
    ensures PassUpTo(vs, n).value.needsRebase
  {
    FlagAfter(vs, m);
    FlagAfter(vs, n);
    var j :| 0 <= j < m && StackInfo.ReadMetadata(vs[j].msg).None?;
    assert SomeUnlinked(vs, n);
  }

  /** A pass that has succeeded over `n` entries has succeeded over every shorter prefix. */
  lemma {:induction false} PassPrefixOk(vs: seq<EntryView>, m: nat, n: nat)
    requires m <= n <= |vs| && PassUpTo(vs, n).Ok?
    ensures PassUpTo(vs, m).Ok?
    decreases n - m
  {
    if m < n {
      PassPrefixOk(vs, m, n - 1);
    }
  }

  // ---------------------------------------------------------------------------
  // Pushing the branches
  // ---------------------------------------------------------------------------

  /** The refspec that pushes a local branch to the remote branch of the same name. */
  function Refspec(head: string): string { head + ":" + head }

  /**
   * `push_branches`: `git push -f <remote>` followed by one refspec per
   * entry, bottom of the stack first; an entry without a head branch makes
   * its getter raise.
   */
  function PushCommand(remote: string, heads: seq<Option<string>>): (r: Result<seq<string>, string>)
    ensures r.Err? <==> exists i | 0 <= i < |heads| :: heads[i].None?
    ensures r.Ok? ==> |r.value| == 4 + |heads| && r.value[..4] == ["git", "push", "-f", remote]
    ensures r.Ok? ==> forall i | 0 <= i < |heads| :: r.value[4 + i] == Refspec(heads[i].value)
    decreases |heads|
  {
    if heads == [] then Ok(["git", "push", "-f", remote])
    else
      match PushCommand(remote, heads[..|heads| - 1])
      case Err(e) => Err(e)
      case Ok(cmd) =>
        match Stack.Get(heads[|heads| - 1], "head")
        case Err(e) => Err(e)
        case Ok(h) => Ok(cmd + [Refspec(h)])
  }

  /**
   * Each refspec names the head branch on both sides of its first `:`, so
   * git updates the remote branch of the same name (head branches never
   * contain `:`, which git refuses in branch names).
   */
  lemma {:induction false} RefspecSides(head: string)
    requires NoChar(head, ':')
    ensures IndexOf(Refspec(head), ':') == Some(|head|)
    ensures Refspec(head)[..|head|] == head && Refspec(head)[|head| + 1..] == head
  {
    IndexOfAt(head, ':', head);
  }
}
