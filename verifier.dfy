/**
 * `verify`: the fail-fast consistency check of a stack against what GitHub
 * reports about its pull requests. The `gh pr view --json` answers are
 * passed in as a map from PR link to decoded response.
 */
module Verifier {
  import opened Wrappers
  import opened Text
  import Stack
  import Allocator

  /** A value of the decoded JSON response, as far as the checks compare it. */
  datatype Json = JString(s: string) | JNumber(n: int) | JBool(b: bool) | JOther

  /** A decoded `gh pr view` response: field name to value. */
  type PrInfo = map<string, Json>

  /** The fields `verify` requires in every response, in the order it checks them. */
  const REQUIRED: seq<string> := ["state", "number", "baseRefName", "headRefName"]

  /** Every required field is present. */
  predicate HasRequired(d: PrInfo)
    ensures HasRequired(d) <==> "state" in d && "number" in d && "baseRefName" in d && "headRefName" in d
  {
    forall f | f in REQUIRED :: f in d
  }

  /** The reasons `verify` stops, in the order it checks them. */
  datatype Failure =
    | MissingInfo        // some of pr, head and base is unset
    | NoSlash            // `last(pr)` raises IndexError: the link has no '/'
    | BadLink            // the last segment of the link is not numeric
    | ViewFailed         // `gh pr view` fails: no response for the link
    | MalformedResponse  // a required field is missing
    | NotOpen            // the PR is not open
    | NumberMismatch     // the PR number differs from the link
    | HeadMismatch       // the PR's head branch differs from the entry's
    | BaseMismatch       // the PR's base branch differs (only when bases are checked)

  /** The entry that failed, by position, and why. */
  datatype VerifyError = VerifyError(index: nat, failure: Failure)

  /** The links of an entry as `verify` reads them. */
  datatype Links = Links(pr: Option<string>, head: Option<string>, base: Option<string>)

  /** Python's `==` between an int and a JSON value: `True == 1` and `False == 0`. */
  predicate NumberEquals(k: int, v: Json)
  {
    match v
    case JNumber(n) => n == k
    case JBool(b) => k == if b then 1 else 0
    case _ => false
  }

  /** Python's `==` between a str and a JSON value. */
  predicate StringEquals(s: string, v: Json)
  {
    v == JString(s)
  }

  /** The first failing check for one entry, or `None` when it passes. */
  function CheckEntry(e: Links, views: map<string, PrInfo>, checkBase: bool): Option<Failure>
  {
    if e.pr.None? || e.head.None? || e.base.None? then Some(MissingInfo)
    else
      var pr := e.pr.value;
      match Allocator.Last(pr)
      case Err(_) => Some(NoSlash)
      case Ok(id) =>
        if !IsNumeric(id) then Some(BadLink)
        else if pr !in views then Some(ViewFailed)
        else
          var d := views[pr];
          if !HasRequired(d) then Some(MalformedResponse)
          else if !StringEquals("OPEN", d["state"]) then Some(NotOpen)
          else if !NumberEquals(ParseNat(id), d["number"]) then Some(NumberMismatch)
          else if !StringEquals(e.head.value, d["headRefName"]) then Some(HeadMismatch)
          else if checkBase && !StringEquals(e.base.value, d["baseRefName"]) then Some(BaseMismatch)
          else None
  }

  /** The entries from position `i` on, checked in order; the first failure stops the check. */
  function VerifyFrom(es: seq<Links>, views: map<string, PrInfo>, checkBase: bool, i: nat): (r: Option<VerifyError>)
    requires i <= |es|
    ensures r.Some? ==> i <= r.value.index < |es|
    decreases |es| - i
  {
    if i == |es| then None
    else match CheckEntry(es[i], views, checkBase)
      case Some(f) => Some(VerifyError(i, f))
      case None => VerifyFrom(es, views, checkBase, i + 1)
  }

  /** `verify` over the whole stack. */
  function VerifyStack(es: seq<Links>, views: map<string, PrInfo>, checkBase: bool): Option<VerifyError>
  {
    VerifyFrom(es, views, checkBase, 0)
  }

  // ---------------------------------------------------------------------------
  // Each check on its own
  // ---------------------------------------------------------------------------

  /**
   * Whether the check `c` holds for an entry, stated on its own: a check
   * whose inputs an earlier check rules out holds vacuously.
   */
  predicate Holds(c: Failure, e: Links, views: map<string, PrInfo>, checkBase: bool)
  {
    match c
    case MissingInfo => e.pr.Some? && e.head.Some? && e.base.Some?
    case NoSlash => e.pr.None? || !NoChar(e.pr.value, '/')
    case BadLink => e.pr.None? || NoChar(e.pr.value, '/') || IsNumeric(Allocator.Last(e.pr.value).value)
    case ViewFailed => e.pr.None? || e.pr.value in views
    case MalformedResponse =>
      e.pr.None? || e.pr.value !in views || HasRequired(views[e.pr.value])
    case NotOpen =>
      e.pr.None? || e.pr.value !in views || "state" !in views[e.pr.value]
      || StringEquals("OPEN", views[e.pr.value]["state"])
    case NumberMismatch =>
      e.pr.None? || NoChar(e.pr.value, '/') || !IsNumeric(Allocator.Last(e.pr.value).value)
      || e.pr.value !in views || "number" !in views[e.pr.value]
      || NumberEquals(ParseNat(Allocator.Last(e.pr.value).value), views[e.pr.value]["number"])
    case HeadMismatch =>
      e.pr.None? || e.head.None? || e.pr.value !in views || "headRefName" !in views[e.pr.value]
      || StringEquals(e.head.value, views[e.pr.value]["headRefName"])
    case BaseMismatch =>
      !checkBase || e.pr.None? || e.base.None? || e.pr.value !in views || "baseRefName" !in views[e.pr.value]
      || StringEquals(e.base.value, views[e.pr.value]["baseRefName"])
  }

  /** The checks in the order `verify` runs them. */
  const ORDER: seq<Failure> :=
    [MissingInfo, NoSlash, BadLink, ViewFailed, MalformedResponse, NotOpen, NumberMismatch, HeadMismatch, BaseMismatch]

  /** Every check holds. */
  predicate Consistent(e: Links, views: map<string, PrInfo>, checkBase: bool)
  {
    forall c :: Holds(c, e, views, checkBase)
  }

  /**
   * `CheckEntry` reports the first check, in `verify`'s order, that does not
   * hold, and reports nothing exactly when every check holds.
   */
  lemma {:induction false} CheckEntryFirstFailure(e: Links, views: map<string, PrInfo>, checkBase: bool)
    ensures CheckEntry(e, views, checkBase).None? <==> Consistent(e, views, checkBase)
    ensures CheckEntry(e, views, checkBase).Some? ==>
      exists i | 0 <= i < |ORDER| :: ORDER[i] == CheckEntry(e, views, checkBase).value
        && !Holds(ORDER[i], e, views, checkBase)
        && forall j | 0 <= j < i :: Holds(ORDER[j], e, views, checkBase)
  {
    var r := CheckEntry(e, views, checkBase);
    if r.None? {
      forall c ensures Holds(c, e, views, checkBase) {
        LastOfLink(e);
      }
    } else {
      LastOfLink(e);
      var i := IndexIn(r.value);
      assert !Holds(r.value, e, views, checkBase);
      assert forall j | 0 <= j < i :: Holds(ORDER[j], e, views, checkBase);
    }
  }

  /** The position of a check in `ORDER`. */
  function IndexIn(c: Failure): (i: nat)
    ensures i < |ORDER| && ORDER[i] == c
  {
    match c
    case MissingInfo => 0
    case NoSlash => 1
    case BadLink => 2
    case ViewFailed => 3
    case MalformedResponse => 4
    case NotOpen => 5
    case NumberMismatch => 6
    case HeadMismatch => 7
    case BaseMismatch => 8
  }

  /** `last` on a link fails exactly when the link has no '/'. */
  lemma {:induction false} LastOfLink(e: Links)
    ensures e.pr.Some? ==> (Allocator.Last(e.pr.value).Err? <==> NoChar(e.pr.value, '/'))
  {
  }

  // ---------------------------------------------------------------------------
  // The whole stack
  // ---------------------------------------------------------------------------

  /**
   * `verify` stops at the first inconsistent entry: it reports the entry's
   * position and its first failing check, and every entry below it is
   * consistent.
   */
  lemma {:induction false} VerifyFromFirst(es: seq<Links>, views: map<string, PrInfo>, checkBase: bool, i: nat)
    requires i <= |es|
    ensures VerifyFrom(es, views, checkBase, i).None? <==>
      forall k | i <= k < |es| :: CheckEntry(es[k], views, checkBase).None?
    ensures VerifyFrom(es, views, checkBase, i).Some? ==>
      var err := VerifyFrom(es, views, checkBase, i).value;
      && CheckEntry(es[err.index], views, checkBase) == Some(err.failure)
      && forall k | i <= k < err.index :: CheckEntry(es[k], views, checkBase).None?
    decreases |es| - i
  {
    if i < |es| && CheckEntry(es[i], views, checkBase).None? {
      VerifyFromFirst(es, views, checkBase, i + 1);
    }
  }

  /** `verify` passes exactly when every entry is consistent. */
  lemma {:induction false} VerifyStackConsistent(es: seq<Links>, views: map<string, PrInfo>, checkBase: bool)
    ensures VerifyStack(es, views, checkBase).None? <==>
      forall k | 0 <= k < |es| :: Consistent(es[k], views, checkBase)
  {
    VerifyFromFirst(es, views, checkBase, 0);
    forall k | 0 <= k < |es| {
      CheckEntryFirstFailure(es[k], views, checkBase);
    }
  }

  /**
   * Checking bases only adds a last check: a stack that passes with bases
   * checked passes without; a stack that fails without base checks fails
   * with them, at the same entry or below; and a failure with base checks
   * that is not about a base is the failure without them.
   */
  lemma {:induction false} CheckBaseOnlyAdds(es: seq<Links>, views: map<string, PrInfo>, i: nat)
    requires i <= |es|
    ensures VerifyFrom(es, views, true, i).None? ==> VerifyFrom(es, views, false, i).None?
    ensures VerifyFrom(es, views, false, i).Some? ==>
      && VerifyFrom(es, views, true, i).Some?
      && VerifyFrom(es, views, true, i).value.index <= VerifyFrom(es, views, false, i).value.index
    ensures VerifyFrom(es, views, true, i).Some? && VerifyFrom(es, views, true, i).value.failure != BaseMismatch ==>
      VerifyFrom(es, views, true, i) == VerifyFrom(es, views, false, i)
    decreases |es| - i
  {
    if i < |es| {
      var t, f := CheckEntry(es[i], views, true), CheckEntry(es[i], views, false);
      assert f.Some? ==> t == f;
      assert t.None? ==> f.None?;
      assert t.Some? && t.value != BaseMismatch ==> t == f;
      CheckBaseOnlyAdds(es, views, i + 1);
    }
  }

  /** The links of an entry. */
  function LinksOf(e: Stack.StackEntry): Links
    reads e
  {
    Links(e.pr, e.head, e.base)
  }

  /** The links of every entry, in order. */
  function Snapshot(st: seq<Stack.StackEntry>): (es: seq<Links>)
    reads set e | e in st
    ensures |es| == |st| && forall i | 0 <= i < |st| :: es[i] == LinksOf(st[i])
  {
    if st == [] then [] else Snapshot(st[..|st| - 1]) + [LinksOf(st[|st| - 1])]
  }

  /**
   * `verify`, with the `gh pr view` responses passed in: it walks the stack
   * bottom to top and stops at the first failing check. It changes no
   * entry (it has no `modifies` clause).
   */
  method Verify(st: seq<Stack.StackEntry>, views: map<string, PrInfo>, checkBase: bool) returns (r: Option<VerifyError>)
    ensures r == VerifyStack(Snapshot(st), views, checkBase)
  {
    ghost var es := Snapshot(st);
    for i := 0 to |st|
      invariant VerifyStack(es, views, checkBase) == VerifyFrom(es, views, checkBase, i)
    {
      assert es[i] == LinksOf(st[i]);
      var failure := CheckEntry(LinksOf(st[i]), views, checkBase);
      if failure.Some? {
        return Some(VerifyError(i, failure.value));
      }
    }
    return None;
  }
}
