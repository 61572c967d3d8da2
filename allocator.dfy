/**
 * The branch-name allocator: new head branches are named
 * `<user>/stack/<n>`, numbered above the largest number among the stack
 * branches already on the remote, and given only to entries that have no
 * head branch yet.
 */
module Allocator {
  import opened Wrappers
  import opened Text
  import Stack

  /** The branch name `<user>/stack/<n>`. */
  function BranchName(user: string, n: nat): string
  {
    user + "/stack/" + NatToString(n)
  }

  /**
   * The `rsplit` test of `is_valid_ref`: `ref.rsplit("/", 2)` has three
   * parts, the middle one is `stack` and the last one is numeric.
   */
  predicate IsStackRef(r: string)
  {
    match LastIndexOf(r, '/')
    case None => false
    case Some(k) =>
      match LastIndexOf(r[..k], '/')
      case None => false
      case Some(j) => r[j + 1..k] == "stack" && IsNumeric(r[k + 1..])
  }

  /**
   * `is_valid_ref`: the `rsplit` test after stripping the quotes that
   * `--format='%(refname)'` puts around each ref.
   */
  predicate IsValidRef(ref: string)
  {
    IsStackRef(StripChar(ref, '\''))
  }

  /** `last(ref)`: the text after the last `/`; a ref without `/` raises `IndexError`. */
  function Last(ref: string): (r: Result<string, string>)
    ensures r.Err? <==> NoChar(ref, '/')
    ensures r.Ok? ==> |r.value| < |ref| && NoChar(r.value, '/')
    ensures r.Ok? ==> ref == ref[..|ref| - |r.value| - 1] + "/" + r.value
  {
    match LastIndexOf(ref, '/')
    case None => Err("list index out of range")
    case Some(k) => Ok(ref[k + 1..])
  }

  /** The number of a stack ref: `int(last(r))`. */
  function StackNumber(r: string): nat
    requires IsStackRef(r)
  {
    var k := LastIndexOf(r, '/').value;
    assert Last(r) == Ok(r[k + 1..]);
    ParseNat(Last(r).value)
  }

  /** The number of a valid ref: `int(last(ref.strip("'")))`. */
  function RefNumber(ref: string): nat
    requires IsValidRef(ref)
  {
    StackNumber(StripChar(ref, '\''))
  }

  /**
   * The number each ref carries when it is valid: the value of the
   * numeric text after the last `/` of the unquoted ref.
   */
  function RefNumbers(refs: seq<string>): (ns: seq<Option<nat>>)
    ensures |ns| == |refs|
    ensures forall k | 0 <= k < |refs| :: ns[k].Some? <==> IsValidRef(refs[k])
    ensures forall k | 0 <= k < |refs| && ns[k].Some? ::
      && Last(StripChar(refs[k], '\'')).Ok?
      && IsNumeric(Last(StripChar(refs[k], '\'')).value)
      && ParseNat(Last(StripChar(refs[k], '\'')).value) == ns[k].value
      && ns[k].value == RefNumber(refs[k])
  {
    if refs == [] then []
    else
      var r := refs[|refs| - 1];
      RefNumbers(refs[..|refs| - 1]) + [if IsValidRef(r) then Some(RefNumber(r)) else None]
  }

  /** The largest of the numbers present, or 0 when there is none. */
  function MaxNumber(ns: seq<Option<nat>>): (m: nat)
    ensures forall k | 0 <= k < |ns| && ns[k].Some? :: ns[k].value <= m
    ensures m == 0 || exists k | 0 <= k < |ns| && ns[k].Some? :: ns[k].value == m
  {
    if ns == [] then 0
    else
      var rest := MaxNumber(ns[1..]);
      var m := if ns[0].Some? && ns[0].value > rest then ns[0].value else rest;
      MaxCons(ns, rest, m);
      m
  }

  /** The largest number of `ns` from its first entry and the largest number of the others. */
  lemma {:induction false} MaxCons(ns: seq<Option<nat>>, rest: nat, m: nat)
    requires ns != []
    requires forall k | 0 <= k < |ns[1..]| && ns[1..][k].Some? :: ns[1..][k].value <= rest
    requires rest == 0 || exists k | 0 <= k < |ns[1..]| && ns[1..][k].Some? :: ns[1..][k].value == rest
    requires m == if ns[0].Some? && ns[0].value > rest then ns[0].value else rest
    ensures forall k | 0 <= k < |ns| && ns[k].Some? :: ns[k].value <= m
    ensures m == 0 || exists k | 0 <= k < |ns| && ns[k].Some? :: ns[k].value == m
  {
    forall k | 1 <= k < |ns|
      ensures ns[k] == ns[1..][k - 1]
    {
    }
    if m != 0 && m == rest && !(ns[0].Some? && ns[0].value == m) {
      var k :| 0 <= k < |ns[1..]| && ns[1..][k].Some? && ns[1..][k].value == rest;
      assert ns[k + 1] == ns[1..][k];
    }
  }

  /**
   * The largest number among the valid refs, or 0 when there is none: the
   * `max(...) if refs else 0` of `get_available_branch_name` over the
   * filtered refs.
   */
  function MaxRefNumber(refs: seq<string>): (m: nat)
    ensures forall k | 0 <= k < |refs| && IsValidRef(refs[k]) :: RefNumber(refs[k]) <= m
    ensures m == 0 || exists k | 0 <= k < |refs| && IsValidRef(refs[k]) :: RefNumber(refs[k]) == m
  {
    MaxOfRefs(refs);
    MaxNumber(RefNumbers(refs))
  }

  /** The largest number of the valid refs, stated on the refs. */
  lemma {:induction false} MaxOfRefs(refs: seq<string>)
    ensures var m := MaxNumber(RefNumbers(refs));
      && (forall k | 0 <= k < |refs| && IsValidRef(refs[k]) :: RefNumber(refs[k]) <= m)
      && (m == 0 || exists k | 0 <= k < |refs| && IsValidRef(refs[k]) :: RefNumber(refs[k]) == m)
  {
    var ns := RefNumbers(refs);
    var m := MaxNumber(ns);
    assert forall k | 0 <= k < |refs| && IsValidRef(refs[k]) :: ns[k] == Some(RefNumber(refs[k]));
    if m != 0 {
      var k :| 0 <= k < |ns| && ns[k].Some? && ns[k].value == m;
      assert IsValidRef(refs[k]);
    }
  }

  /**
   * `get_available_branch_name`: the user's login and the output of
   * `git for-each-ref` are passed in; the name is numbered one above the
   * largest valid ref.
   */
  function AvailableBranchName(user: string, refsOutput: string): string
  {
    BranchName(user, AvailableNumber(refsOutput))
  }

  /**
   * `get_next_available_branch_name`: the last `/`-separated part read as a
   * number and increased by one. A name without `/` fails to unpack and a
   * non-numeric last part fails in `int()`.
   */
  function NextAvailableBranchName(name: string): (r: Result<string, string>)
    ensures r.Err? <==> NoChar(name, '/') || !IsNumeric(Last(name).value)
  {
    match LastIndexOf(name, '/')
    case None => Err("not enough values to unpack")
    case Some(k) =>
      var id := name[k + 1..];
      if IsNumeric(id) then Ok(name[..k] + "/" + NatToString(ParseNat(id) + 1))
      else Err("invalid literal for int()")
  }

  /** A quoted stack ref as `git for-each-ref` prints it is valid and carries its number. */
  lemma {:induction false} QuotedRefNumber(prefix: string, n: nat)
    requires NoChar(prefix, '\'')
    ensures IsValidRef("'" + prefix + "/stack/" + NatToString(n) + "'")
    ensures RefNumber("'" + prefix + "/stack/" + NatToString(n) + "'") == n
  {
    UnquoteRef(prefix, n);
    StackRefNumber("'" + prefix + "/stack/" + NatToString(n) + "'", prefix, n);
  }

  /** Stripping the quotes of a quoted stack ref. */
  lemma {:induction false} UnquoteRef(prefix: string, n: nat)
    requires NoChar(prefix, '\'')
    ensures StripChar("'" + prefix + "/stack/" + NatToString(n) + "'", '\'') == prefix + "/stack/" + NatToString(n)
  {
    var d := NatToString(n);
    var x := prefix + "/stack/" + d;
    assert x[|x| - 1] == d[|d| - 1];
    assert x[0] != '\'' by {
      if prefix == [] { assert x[0] == '/'; } else { assert x[0] == prefix[0]; }
    }
    StripCharQuoted(x, '\'');
    assert "'" + prefix + "/stack/" + d + "'" == ['\''] + x + ['\''];
  }

  /** A ref that unquotes to `<prefix>/stack/<n>` is valid and carries the number `n`. */
  lemma {:induction false} StackRefNumber(ref: string, prefix: string, n: nat)
    requires StripChar(ref, '\'') == prefix + "/stack/" + NatToString(n)
    ensures IsValidRef(ref) && RefNumber(ref) == n
  {
    NumberedName(prefix, n);
    ParseNatToString(n);
  }

  /** How `rsplit` takes `<prefix>/stack/<n>` apart. */
  lemma {:induction false} NumberedName(prefix: string, n: nat)
    ensures var x := prefix + "/stack/" + NatToString(n);
      && LastIndexOf(x, '/') == Some(|prefix| + 6)
      && LastIndexOf(x[..|prefix| + 6], '/') == Some(|prefix|)
      && x[|prefix| + 1..|prefix| + 6] == "stack"
      && x[|prefix| + 7..] == NatToString(n)
  {
    var d := NatToString(n);
    var x := prefix + "/stack/" + d;
    assert NoChar(d, '/') by {
      forall k | 0 <= k < |d| ensures d[k] != '/' { assert IsDigit(d[k]); }
    }
    assert x == (prefix + "/stack") + ['/'] + d;
    LastIndexOfConcat(prefix + "/stack", '/', d);
    assert x[..|prefix| + 6] == prefix + ['/'] + "stack";
    LastIndexOfConcat(prefix, '/', "stack");
  }

  /** `get_next_available_branch_name` moves `<user>/stack/<n>` to `<user>/stack/<n + 1>`. */
  lemma {:induction false} NextOfBranchName(user: string, n: nat)
    ensures NextAvailableBranchName(BranchName(user, n)) == Ok(BranchName(user, n + 1))
  {
    NumberedName(user, n);
    ParseNatToString(n);
    var x := BranchName(user, n);
    assert x[..|user| + 6] + "/" == user + "/stack/";
  }

  /**
   * The number the first allocated name gets: exactly one above the largest
   * valid ref in the output, or 1 when no ref is valid.
   */
  function AvailableNumber(refsOutput: string): (n: nat)
    ensures var ws := SplitWords(refsOutput);
      forall k | 0 <= k < |ws| && IsValidRef(ws[k]) :: RefNumber(ws[k]) < n
    ensures var ws := SplitWords(refsOutput);
      n == 1 || exists k | 0 <= k < |ws| && IsValidRef(ws[k]) :: RefNumber(ws[k]) == n - 1
  {
    MaxRefNumber(SplitWords(refsOutput)) + 1
  }

  // ---------------------------------------------------------------------------
  // Assigning heads along the stack
  // ---------------------------------------------------------------------------

  /** The number of entries without a head. */
  function CountUnset(heads: seq<Option<string>>): (c: nat)
    ensures c <= |heads|
  {
    if heads == [] then 0 else CountUnset(heads[..|heads| - 1]) + if heads[|heads| - 1].None? then 1 else 0
  }

  /**
   * What `set_head_branches` does to the heads of the stack, as a value:
   * entries with a head keep it, and the entries without one get
   * consecutive names numbered from `n`, in stack order.
   */
  function AssignHeads(heads: seq<Option<string>>, user: string, n: nat): (r: seq<Option<string>>)
    ensures |r| == |heads|
    ensures forall i | 0 <= i < |r| :: r[i].Some?
  {
    if heads == [] then []
    else
      var prev := AssignHeads(heads[..|heads| - 1], user, n);
      var last := if heads[|heads| - 1].Some? then heads[|heads| - 1]
        else Some(BranchName(user, n + CountUnset(heads[..|heads| - 1])));
      prev + [last]
  }

  /** Entries that had a head keep it; the i-th one without a head is numbered `n + i`. */
  lemma {:induction false} AssignHeadsAt(heads: seq<Option<string>>, user: string, n: nat, i: nat)
    requires i < |heads|
    ensures AssignHeads(heads, user, n)[i]
      == if heads[i].Some? then heads[i] else Some(BranchName(user, n + CountUnset(heads[..i])))
  {
    var m := |heads| - 1;
    if i < m {
      AssignHeadsAt(heads[..m], user, n, i);
      assert heads[..m][..i] == heads[..i];
    } else {
      assert heads[..m] == heads[..i];
    }
  }

  /** Counting the entries without a head is monotone along the stack. */
  lemma {:induction false} CountUnsetGrows(heads: seq<Option<string>>, i: nat, j: nat)
    requires i < j <= |heads| && heads[i].None?
    ensures CountUnset(heads[..i]) < CountUnset(heads[..j])
  {
    if j == i + 1 {
      assert heads[..j][..i] == heads[..i];
    } else {
      CountUnsetGrows(heads, i, j - 1);
      assert heads[..j][..j - 1] == heads[..j - 1];
    }
  }

  /** `get_next_available_branch_name` on a name the allocator made, which never fails. */
  method NextName(name: string, ghost user: string, ghost m: nat) returns (next: string)
    requires name == BranchName(user, m)
    ensures next == BranchName(user, m + 1)
  {
    var r := NextAvailableBranchName(name);
    NextOfBranchName(user, m);
    next := r.value;
  }

  /** The head entry `i` ends up with: its own, or the name numbered by the entries without a head before it. */
  function AssignedHead(heads: seq<Option<string>>, user: string, n: nat, i: nat): Option<string>
    requires i < |heads|
  {
    if heads[i].Some? then heads[i] else Some(BranchName(user, n + CountUnset(heads[..i])))
  }

  /** Heads that agree entry by entry with `AssignedHead` are the value model's result. */
  lemma {:induction false} AssignHeadsAll(result: seq<Option<string>>, heads: seq<Option<string>>, user: string, n: nat)
    requires |result| == |heads|
    requires forall i | 0 <= i < |heads| :: result[i] == AssignedHead(heads, user, n, i)
    ensures result == AssignHeads(heads, user, n)
  {
    forall i | 0 <= i < |heads| ensures AssignHeads(heads, user, n)[i] == result[i] {
      AssignHeadsAt(heads, user, n, i);
    }
  }

  /** One step of the loop: the head entry `i` gets, and how many entries without a head have been seen after it. */
  lemma {:induction false} AssignStep(heads: seq<Option<string>>, user: string, n: nat, i: nat, c: nat)
    requires i < |heads| && c == CountUnset(heads[..i])
    ensures heads[i].None? ==>
      AssignedHead(heads, user, n, i) == Some(BranchName(user, n + c)) && CountUnset(heads[..i + 1]) == c + 1
    ensures heads[i].Some? ==>
      AssignedHead(heads, user, n, i) == heads[i] && CountUnset(heads[..i + 1]) == c
  {
    CountUnsetStep(heads, i);
  }

  lemma {:induction false} CountUnsetStep(heads: seq<Option<string>>, i: nat)
    requires i < |heads|
    ensures CountUnset(heads[..i + 1]) == CountUnset(heads[..i]) + if heads[i].None? then 1 else 0
  {
    assert heads[..i + 1][..i] == heads[..i];
  }

  /** Two entries that had no head get different names. */
  lemma {:induction false} AssignHeadsDistinct(heads: seq<Option<string>>, user: string, n: nat, i: nat, j: nat)
    requires i < j < |heads| && heads[i].None? && heads[j].None?
    ensures AssignHeads(heads, user, n)[i] != AssignHeads(heads, user, n)[j]
  {
    AssignHeadsAt(heads, user, n, i);
    AssignHeadsAt(heads, user, n, j);
    CountUnsetGrows(heads, i, j);
    var a, b := n + CountUnset(heads[..i]), n + CountUnset(heads[..j]);
    BranchNameInjective(user, a, b);
  }

  /** Different numbers give different branch names. */
  lemma {:induction false} BranchNameInjective(user: string, a: nat, b: nat)
    ensures BranchName(user, a) == BranchName(user, b) ==> a == b
  {
    var x, y := BranchName(user, a), BranchName(user, b);
    assert x[|user| + 7..] == NatToString(a);
    assert y[|user| + 7..] == NatToString(b);
    if x == y {
      NatToStringInjective(a, b);
    }
  }

  /** The heads of the stack, in order. */
  function Heads(st: seq<Stack.StackEntry>): (hs: seq<Option<string>>)
    reads set e | e in st
    ensures |hs| == |st| && forall i | 0 <= i < |st| :: hs[i] == st[i].head
  {
    if st == [] then [] else Heads(st[..|st| - 1]) + [st[|st| - 1].head]
  }

  /**
   * `set_head_branches`, with the user's login and the `git for-each-ref`
   * output passed in: gives each entry without a head the next available
   * name, and changes nothing else.
   */
  method SetHeadBranches(st: seq<Stack.StackEntry>, user: string, refsOutput: string)
    requires Stack.Distinct(st)
    modifies (set e | e in st)`head
    ensures Heads(st) == AssignHeads(old(Heads(st)), user, AvailableNumber(refsOutput))
    ensures forall i | 0 <= i < |st| ::
      && st[i].pr == old(st[i].pr) && st[i].base == old(st[i].base)
      && st[i].needUpdate == old(st[i].needUpdate)
  {
    var available := AvailableBranchName(user, refsOutput);
    AssignFrom(st, user, AvailableNumber(refsOutput), available);
  }

  /** The loop of `set_head_branches`, from the first available name `BranchName(user, n)`. */
  method AssignFrom(st: seq<Stack.StackEntry>, user: string, ghost n: nat, first: string)
    requires Stack.Distinct(st) && first == BranchName(user, n)
    modifies (set e | e in st)`head
    ensures Heads(st) == AssignHeads(old(Heads(st)), user, n)
  {
    ghost var heads := Heads(st);
    ghost var c := 0;
    var available := first;
    for i := 0 to |st|
      invariant c == CountUnset(heads[..i])
      invariant available == BranchName(user, n + c)
      invariant forall k | 0 <= k < i :: st[k].head == AssignedHead(heads, user, n, k)
      invariant forall k | i <= k < |st| :: st[k].head == heads[k]
    {
      AssignStep(heads, user, n, i, c);
      var filled := AssignHead(st[i], available);
      if filled {
        available := NextName(available, user, n + c);
        c := c + 1;
      }
    }
    AssignHeadsAll(Heads(st), heads, user, n);
  }

  /** One iteration of the loop: an entry without a head gets `name`; says whether it did. */
  method AssignHead(e: Stack.StackEntry, name: string) returns (filled: bool)
    modifies e`head
    ensures filled <==> old(e.head).None?
    ensures e.head == if filled then Some(name) else old(e.head)
  {
    filled := e.head.None?;
    if filled {
      e.head := Some(name);
    }
  }

  /**
   * Every name `set_head_branches` gives out is numbered above every valid
   * ref on the remote, so it never reuses a remote stack branch.
   */
  lemma {:induction false} AssignedAboveRemote(heads: seq<Option<string>>, user: string, refsOutput: string, i: nat, k: nat)
    requires i < |heads| && heads[i].None?
    requires k < |SplitWords(refsOutput)| && IsValidRef(SplitWords(refsOutput)[k])
    ensures var m := AvailableNumber(refsOutput) + CountUnset(heads[..i]);
      && m > RefNumber(SplitWords(refsOutput)[k])
      && AssignHeads(heads, user, AvailableNumber(refsOutput))[i] == Some(BranchName(user, m))
  {
    AssignHeadsAt(heads, user, AvailableNumber(refsOutput), i);
  }
}
