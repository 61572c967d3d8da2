/**
 * Stack entries: one commit of the stack with the PR, head branch and base
 * branch linked to it, the construction of the stack from `git rev-list`
 * output, and the chaining of base branches.
 */
module Stack {
  import opened Wrappers
  import opened Text
  import CommitHeaders
  import StackInfo

  /** A property getter: the value, or the error raised when it is unset. */
  function Get(field: Option<string>, name: string): (r: Result<string, string>)
    ensures r.Ok? <==> field.Some?
    ensures r.Ok? ==> field == Some(r.value)
    ensures r.Err? ==> r.error == name + " is not set"
  {
    match field
    case None => Err(name + " is not set")
    case Some(v) => Ok(v)
  }

  /** An entry of the stack. Its three links start unset. */
  class StackEntry {
    const commit: CommitHeaders.CommitHeader
    var pr: Option<string>
    var head: Option<string>
    var base: Option<string>
    var needUpdate: bool

    constructor (commit: CommitHeaders.CommitHeader)
      ensures this.commit == commit
      ensures pr == None && head == None && base == None && !needUpdate
    {
      this.commit := commit;
      pr := None;
      head := None;
      base := None;
      needUpdate := false;
    }

    /** The `pr` property. */
    function Pr(): (r: Result<string, string>)
      reads this
      ensures r.Ok? <==> pr.Some?
      ensures r.Ok? ==> pr == Some(r.value)
    {
      Get(pr, "pr")
    }

    /** The `head` property. */
    function Head(): (r: Result<string, string>)
      reads this
      ensures r.Ok? <==> head.Some?
      ensures r.Ok? ==> head == Some(r.value)
    {
      Get(head, "head")
    }

    /** The `base` property. */
    function Base(): (r: Result<string, string>)
      reads this
      ensures r.Ok? <==> base.Some?
      ensures r.Ok? ==> base == Some(r.value)
    {
      Get(base, "base")
    }

    /** `has_missing_info`: exactly when one of the three getters would fail. */
    predicate HasMissingInfo()
      reads this
      ensures HasMissingInfo() <==> Pr().Err? || Head().Err? || Base().Err?
    {
      pr == None || head == None || base == None
    }

    /**
     * `read_metadata`: when the commit message carries a stack-info line,
     * its two groups become the PR and the head branch; otherwise nothing
     * changes.
     */
    method ReadMetadata()
      modifies this
      ensures match StackInfo.ReadMetadata(CommitHeaders.CommitMsg(commit))
        case None => pr == old(pr) && head == old(head)
        case Some(m) => pr == Some(m.pr) && head == Some(m.head)
      ensures base == old(base) && needUpdate == old(needUpdate)
    {
      var found := StackInfo.ReadMetadata(CommitHeaders.CommitMsg(commit));
      if found.Some? {
        pr := Some(found.value.pr);
        head := Some(found.value.head);
      }
    }
  }

  /** The PR link `read_metadata` finds in a commit. */
  function LinkedPr(c: CommitHeaders.CommitHeader): Option<string>
  {
    match StackInfo.ReadMetadata(CommitHeaders.CommitMsg(c))
    case None => None
    case Some(m) => Some(m.pr)
  }

  /** The head branch `read_metadata` finds in a commit. */
  function LinkedHead(c: CommitHeaders.CommitHeader): Option<string>
  {
    match StackInfo.ReadMetadata(CommitHeaders.CommitMsg(c))
    case None => None
    case Some(m) => Some(m.head)
  }

  /** No entry occurs twice. */
  predicate Distinct(st: seq<StackEntry>)
  {
    forall i, j | 0 <= i < j < |st| :: st[i] != st[j]
  }

  /** An entry as `get_stack` leaves it: links read from its commit, no base. */
  predicate Loaded(e: StackEntry)
    reads e
  {
    e.pr == LinkedPr(e.commit) && e.head == LinkedHead(e.commit) && e.base == None && !e.needUpdate
  }

  /**
   * `get_stack`: fails when the base is not an ancestor of the head;
   * otherwise one new entry per commit of the `git rev-list --header`
   * output, oldest commit first, each with the metadata of its message.
   */
  method GetStack(isAncestor: bool, revList: string) returns (r: Result<seq<StackEntry>, string>)
    ensures !isAncestor <==> r.Err?
    ensures r.Ok? ==>
      var hs := CommitHeaders.SplitHeader(revList);
      && |r.value| == |hs|
      && Distinct(r.value)
      && (forall i | 0 <= i < |hs| :: fresh(r.value[i]))
      && (forall i | 0 <= i < |hs| :: r.value[i].commit == hs[|hs| - 1 - i])
      && (forall i | 0 <= i < |hs| :: Loaded(r.value[i]))
  {
    if !isAncestor {
      return Err("base is not an ancestor of head");
    }
    var hs := CommitHeaders.SplitHeader(revList);
    var st := NewEntries(hs);
    LoadEntries(st);
    return Ok(st);
  }

  /** The first loop of `get_stack`: a new entry per commit, in reverse order. */
  method NewEntries(hs: seq<CommitHeaders.CommitHeader>) returns (st: seq<StackEntry>)
    ensures |st| == |hs| && Distinct(st)
    ensures forall k | 0 <= k < |st| :: fresh(st[k]) && st[k].commit == hs[|hs| - 1 - k]
    ensures forall k | 0 <= k < |st| :: Unset(st[k])
  {
    st := [];
    var i := 0;
    while i < |hs|
      invariant 0 <= i <= |hs| && |st| == i
      invariant Distinct(st)
      invariant forall k | 0 <= k < i :: fresh(st[k]) && st[k].commit == hs[|hs| - 1 - k]
      invariant forall k | 0 <= k < i :: Unset(st[k])
    {
      var e := new StackEntry(hs[|hs| - 1 - i]);
      st := st + [e];
      i := i + 1;
    }
  }

  /** An entry with no link set yet. */
  predicate Unset(e: StackEntry)
    reads e
  {
    e.pr == None && e.head == None && e.base == None && !e.needUpdate
  }

  /** The second loop of `get_stack`: `read_metadata` on every entry. */
  method LoadEntries(st: seq<StackEntry>)
    requires Distinct(st) && forall k | 0 <= k < |st| :: Unset(st[k])
    modifies set e | e in st
    ensures forall k | 0 <= k < |st| :: Loaded(st[k])
  {
    for i := 0 to |st|
      invariant forall k | 0 <= k < i :: Loaded(st[k])
      invariant forall k | i <= k < |st| :: Unset(st[k])
    {
      st[i].ReadMetadata();
    }
  }

  /** Each entry's base is the previous entry's head; the bottom entry's base is the target. */
  predicate Chained(st: seq<StackEntry>, target: string)
    reads set e | e in st
  {
    forall i | 0 <= i < |st| :: st[i].base == if i == 0 then Some(target) else st[i - 1].head
  }

  /**
   * `set_base_branches`: chains the bases along the stack and changes no
   * other field. A previous entry without a head leaves the base unset.
   */
  method SetBaseBranches(st: seq<StackEntry>, target: string)
    requires Distinct(st)
    modifies (set e | e in st)`base
    ensures Chained(st, target)
    ensures forall i | 0 <= i < |st| ::
      && st[i].pr == old(st[i].pr) && st[i].head == old(st[i].head)
      && st[i].needUpdate == old(st[i].needUpdate)
  {
    var prev := Some(target);
    for i := 0 to |st|
      invariant prev == if i == 0 then Some(target) else st[i - 1].head
      invariant forall k | 0 <= k < i :: st[k].base == if k == 0 then Some(target) else old(st[k - 1].head)
      invariant forall k | 0 <= k < |st| :: st[k].head == old(st[k].head)
    {
      st[i].base, prev := prev, st[i].head;
    }
  }

  /** Once the bases are chained, an entry lacks information only if it or the one below lacks a PR or head. */
  lemma {:induction false} ChainedMissingInfo(st: seq<StackEntry>, target: string, i: nat)
    requires Chained(st, target) && i < |st|
    ensures st[i].HasMissingInfo() <==>
      st[i].pr.None? || st[i].head.None? || (i > 0 && st[i - 1].head.None?)
  {
  }

  /**
   * A commit whose message `add_or_update_metadata` amended, when listed
   * again by `git rev-list --header`, is read back with exactly the PR and
   * head branch that were written.
   */
  lemma {:induction false} AmendedCommitReadBack(f: CommitHeaders.CommitFields, msg: string, pr: string, head: string)
    requires StackInfo.ReadMetadata(msg).None? && StackInfo.Writable(pr, head)
    requires f.message == Split(StackInfo.Append(msg, pr, head), '\n')
    requires CommitHeaders.WellFormed(f)
    ensures LinkedPr(CommitHeaders.CommitHeader(Join(CommitHeaders.HeaderLines(f), "\n"))) == Some(pr)
    ensures LinkedHead(CommitHeaders.CommitHeader(Join(CommitHeaders.HeaderLines(f), "\n"))) == Some(head)
  {
    CommitHeaders.HeaderRoundTrip(f);
    JoinSplit(StackInfo.Append(msg, pr, head), '\n');
    StackInfo.AppendThenRead(msg, pr, head);
  }
}
