/**
 * The `stack-info: PR: <pr>, branch: <head>` line that stack-pr keeps in
 * every commit message of a submitted stack.
 *
 * The line is recognised by the multi-line regular expression
 * `\n^stack-info: PR: (.+), branch: (.+)\n?`, modelled here as an exact
 * scanner: a match starts at a newline that is followed by the prefix; the
 * first group is greedy, so it ends at the LAST ", branch: " of the line that
 * still has text after it; the second group is the rest of the line; a
 * newline after the line is consumed when there is one.
 */
module StackInfo {
  import opened Wrappers
  import opened Text

  const PREFIX: string := "stack-info: PR: "
  const SEP: string := ", branch: "

  /** The two groups of a match. */
  datatype Metadata = Metadata(pr: string, head: string)

  /** A match anchored at some position: its groups and how many characters it covers. */
  datatype Hit = Hit(pr: string, head: string, len: nat)

  /** A match found by a search: where it starts and what it covers. */
  datatype InfoMatch = InfoMatch(start: nat, hit: Hit)

  /** The metadata line as the tool writes it. */
  function Line(pr: string, head: string): string { PREFIX + pr + SEP + head }

  // ---------------------------------------------------------------------------
  // The scanner
  // ---------------------------------------------------------------------------

  /** The first newline at or after `i`, or the end of `s`. */
  function LineEnd(s: string, i: nat): (e: nat)
    requires i <= |s|
    ensures i <= e <= |s|
    decreases |s| - i
  {
    if i == |s| || s[i] == '\n' then i else LineEnd(s, i + 1)
  }

  lemma {:induction false} LineEndSpec(s: string, i: nat)
    requires i <= |s|
    ensures var e := LineEnd(s, i); NoChar(s[i..e], '\n') && (e < |s| ==> s[e] == '\n')
    decreases |s| - i
  {
    if i < |s| && s[i] != '\n' {
      LineEndSpec(s, i + 1);
      var e := LineEnd(s, i);
      assert s[i..e] == [s[i]] + s[i + 1..e];
    }
  }

  lemma {:induction false} LineEndAt(s: string, i: nat, e: nat)
    requires i <= e <= |s| && NoChar(s[i..e], '\n') && (e < |s| ==> s[e] == '\n')
    ensures LineEnd(s, i) == e
    decreases e - i
  {
    if i < e {
      assert s[i..e][0] == s[i];
      assert s[i + 1..e] == s[i..e][1..];
      LineEndAt(s, i + 1, e);
    }
  }

  /** Group 1 can end at `j` of the line text `r`: both groups non-empty around a separator. */
  predicate SepAt(r: string, j: nat) { 1 <= j && j + |SEP| < |r| && r[j..j + |SEP|] == SEP }

  /** The largest `j < n` where group 1 can end. */
  function LastSepBelow(r: string, n: nat): (res: Option<nat>)
    ensures res.Some? ==> res.value < n && 1 <= res.value && res.value + |SEP| < |r|
  {
    if n == 0 then None
    else if SepAt(r, n - 1) then Some(n - 1)
    else LastSepBelow(r, n - 1)
  }

  lemma {:induction false} LastSepBelowSpec(r: string, n: nat)
    ensures var res := LastSepBelow(r, n);
      && (res.Some? ==> SepAt(r, res.value) && forall j: nat :: res.value < j < n ==> !SepAt(r, j))
      && (res.None? ==> forall j: nat :: j < n ==> !SepAt(r, j))
  {
    var res := LastSepBelow(r, n);
    if res.Some? {
      LastSepBelowFound(r, n);
      forall j: nat | res.value < j < n
        ensures !SepAt(r, j)
      {
        LastSepBelowAbove(r, n, j);
      }
    } else {
      forall j: nat | j < n
        ensures !SepAt(r, j)
      {
        LastSepBelowNone(r, n, j);
      }
    }
  }

  /** When group 1 can end below `n`, the place found is a separator. */
  lemma {:induction false} LastSepBelowFound(r: string, n: nat)
    requires LastSepBelow(r, n).Some?
    ensures SepAt(r, LastSepBelow(r, n).value)
  {
    if !SepAt(r, n - 1) {
      LastSepBelowFound(r, n - 1);
    }
  }

  /** When group 1 can end below `n`, no place `j` between the place found and `n` is a separator. */
  lemma {:induction false} LastSepBelowAbove(r: string, n: nat, j: nat)
    requires LastSepBelow(r, n).Some? && LastSepBelow(r, n).value < j < n
    ensures !SepAt(r, j)
  {
    if j < n - 1 {
      LastSepBelowAbove(r, n - 1, j);
    }
  }

  /** When group 1 can end nowhere below `n`, no place `j` below `n` is a separator. */
  lemma {:induction false} LastSepBelowNone(r: string, n: nat, j: nat)
    requires LastSepBelow(r, n).None? && j < n
    ensures !SepAt(r, j)
  {
    if j < n - 1 {
      LastSepBelowNone(r, n - 1, j);
    }
  }

  /** Where the greedy group 1 ends in the text `r` after the prefix. */
  function LastSep(r: string): Option<nat> { LastSepBelow(r, |r|) }

  /** The pattern anchored at the start of `t`. */
  function MatchHere(t: string): (h: Option<Hit>)
    ensures h.Some? ==> 0 < h.value.len <= |t|
  {
    if |t| >= 1 + |PREFIX| && t[0] == '\n' && StartsWith(t[1..], PREFIX) then
      var b := 1 + |PREFIX|;
      var e := LineEnd(t, b);
      var r := t[b..e];
      match LastSep(r)
      case None => None
      case Some(j) => Some(Hit(r[..j], r[j + |SEP|..], if e < |t| then e + 1 else e))
    else None
  }

  /**
   * A match covers a newline, the prefix, group 1, the separator, group 2,
   * and the newline after them when there is one; neither group is empty or
   * holds a newline.
   */
  lemma {:induction false} MatchHereShape(t: string)
    requires MatchHere(t).Some?
    ensures var h := MatchHere(t).value;
      && h.pr != [] && h.head != []
      && NoChar(h.pr, '\n') && NoChar(h.head, '\n')
      && (|| t[..h.len] == "\n" + Line(h.pr, h.head) + "\n"
          || (h.len == |t| && t == "\n" + Line(h.pr, h.head)))
  {
    var e, r, j := MatchHereParts(t);
    LineEndSpec(t, 1 + |PREFIX|);
    LastSepBelowSpec(r, |r|);
    assert r[j..][..|SEP|] == r[j..j + |SEP|];
    StartsWithPrefix(t[1..], PREFIX);
    LineUpTo(t, PREFIX, SEP, e, r, j);
    assert e < |t| ==> t[..e + 1] == t[..e] + "\n";
  }

  /** The pieces `MatchHere` cuts a matching text into. */
  lemma {:induction false} MatchHereParts(t: string) returns (e: nat, r: string, j: nat)
    requires MatchHere(t).Some?
    ensures e == LineEnd(t, 1 + |PREFIX|) && r == t[1 + |PREFIX|..e]
    ensures t[0] == '\n' && StartsWith(t[1..], PREFIX)
    ensures LastSep(r) == Some(j)
    ensures MatchHere(t).value == Hit(r[..j], r[j + |SEP|..], if e < |t| then e + 1 else e)
  {
    e := LineEnd(t, 1 + |PREFIX|);
    r := t[1 + |PREFIX|..e];
    j := LastSep(r).value;
  }

  /** Reassembling the text up to the end of a matched line from its pieces. */
  lemma {:induction false} LineUpTo(t: string, p: string, q: string, e: nat, r: string, j: nat)
    requires 1 + |p| <= e <= |t| && r == t[1 + |p|..e]
    requires t[0] == '\n' && p <= t[1..]
    requires j + |q| <= |r| && q <= r[j..]
    ensures t[..e] == "\n" + (p + r[..j] + q + r[j + |q|..])
  {
    assert r == r[..j] + q + r[j + |q|..];
    assert t[..1 + |p|] == "\n" + p;
    assert t[..e] == t[..1 + |p|] + r;
  }

  /** A pattern anchored at the start of a text, as a value. */
  type Matcher = string -> Option<Hit>

  /** Every match covers at least one character and no more than the text. */
  ghost predicate Advances(f: Matcher)
  {
    forall t :: f(t).Some? ==> 0 < f(t).value.len <= |t|
  }

  /** The pattern `f` at position `i` of `s`. */
  function MatchAt(f: Matcher, s: string, i: nat): Option<Hit>
  {
    if i <= |s| then f(s[i..]) else None
  }

  /** `search(s, from)`: the leftmost position at or after `from` where `f` matches. */
  function SearchWith(f: Matcher, s: string, from: nat): (r: Option<InfoMatch>)
    requires from <= |s|
    ensures r.Some? ==> from <= r.value.start <= |s| && MatchAt(f, s, r.value.start) == Some(r.value.hit)
    decreases |s| - from
  {
    match MatchAt(f, s, from)
    case Some(h) => Some(InfoMatch(from, h))
    case None =>
      if from == |s| then None else SearchWith(f, s, from + 1)
  }

  /** The search finds the leftmost position at or after `from` where the pattern matches. */
  lemma {:induction false} SearchSpec(f: Matcher, s: string, from: nat)
    requires from <= |s|
    ensures var r := SearchWith(f, s, from);
      && (r.Some? ==> forall i :: from <= i < r.value.start ==> MatchAt(f, s, i).None?)
      && (r.None? ==> forall i :: from <= i ==> MatchAt(f, s, i).None?)
    decreases |s| - from
  {
    if MatchAt(f, s, from).None? && from < |s| {
      SearchSpec(f, s, from + 1);
    }
  }

  /**
   * `sub("", s)`: every match, left to right, removed. After a match the
   * scan resumes where the match ends; a match at a position depends only on
   * the text from there on, so resuming there is scanning the rest anew.
   */
  function SubWith(f: Matcher, s: string): string
    requires Advances(f)
    decreases |s|
  {
    match SearchWith(f, s, 0)
    case None => s
    case Some(x) => s[..x.start] + SubWith(f, s[x.start + x.hit.len..])
  }

  /** What `read_metadata` reads from a commit message: the groups of the first match. */
  function ReadMetadata(msg: string): Option<Metadata>
  {
    match SearchWith(MatchHere, msg, 0)
    case None => None
    case Some(x) => Some(Metadata(x.hit.pr, x.hit.head))
  }

  /** `RE_STACK_INFO_LINE.sub("", s)`, as `strip_metadata` and `land_pr` use it. */
  function Remove(s: string): string { SubWith(MatchHere, s) }

  /** The message `add_or_update_metadata` commits when it finds no metadata line. */
  function Append(msg: string, pr: string, head: string): string
  {
    msg + "\n\n" + Line(pr, head)
  }

  /** The values the tool writes can be read back unambiguously. */
  predicate Writable(pr: string, head: string)
  {
    pr != [] && head != [] && NoChar(pr, '\n') && NoChar(head, '\n') && !Contains(head, SEP)
  }

  // ---------------------------------------------------------------------------
  // Scanner lemmas
  // ---------------------------------------------------------------------------

  /** No suffix of the separator past its first character starts it again. */
  lemma {:induction false} SepHasNoBorder(d: nat)
    requires 1 <= d < |SEP|
    ensures SEP[d] != SEP[0]
  {
  }

  lemma {:induction false} PrefixHasNoNewline()
    ensures NoChar(PREFIX, '\n')
  {
  }

  /** In `pr + SEP + head`, group 1 can end at `|pr|`, and at no later place when `head` holds no separator. */
  lemma {:induction false} LastSepOfLine(pr: string, head: string)
    requires pr != [] && head != []
    ensures LastSep(pr + SEP + head).Some?
    ensures |pr| <= LastSep(pr + SEP + head).value
    ensures !Contains(head, SEP) ==> LastSep(pr + SEP + head) == Some(|pr|)
  {
    var r := pr + SEP + head;
    LastSepBelowSpec(r, |r|);
    assert r[|pr|..|pr| + |SEP|] == SEP;
    assert SepAt(r, |pr|);
    if !Contains(head, SEP) {
      forall j: nat | |pr| < j < |r| ensures !SepAt(r, j) {
        if j < |pr| + |SEP| {
          assert r[j] == SEP[j - |pr|];
          SepHasNoBorder(j - |pr|);
          if j + |SEP| <= |r| {
            assert r[j..j + |SEP|][0] == r[j];
          }
        } else {
          var i: nat := j - |pr| - |SEP|;
          assert !OccursAt(head, SEP, i);
          if j + |SEP| <= |r| {
            assert r[j..j + |SEP|] == head[i..i + |SEP|];
          }
        }
      }
    }
  }

  /** The prefix and the text of a line, sliced out of the line after a newline. */
  lemma {:induction false} LineParts(pr: string, head: string, rest: string)
    ensures var t := "\n" + Line(pr, head) + rest;
      && |t| == 1 + |Line(pr, head)| + |rest|
      && |Line(pr, head)| == |PREFIX| + |pr + SEP + head|
      && t[1..][..|PREFIX|] == PREFIX
      && t[1 + |PREFIX|..1 + |Line(pr, head)|] == pr + SEP + head
  {
    var m := pr + SEP + head;
    assert Line(pr, head) == PREFIX + m;
    SliceParts("\n", PREFIX, m, rest);
  }

  /** The parts of a concatenation, sliced back out. */
  lemma {:induction false} SliceParts(a: string, p: string, m: string, r: string)
    ensures (a + (p + m) + r)[|a|..][..|p|] == p
    ensures (a + (p + m) + r)[|a| + |p|..|a| + |p| + |m|] == m
  {
    var t := a + (p + m) + r;
    assert t[|a|..][..|p|] == p;
    assert t[|a| + |p|..|a| + |p| + |m|] == m;
  }

  /** A metadata line followed by nothing or by a newline is a match of the expected length. */
  lemma {:induction false} MatchLine(pr: string, head: string, rest: string)
    requires pr != [] && head != [] && NoChar(pr, '\n') && NoChar(head, '\n')
    requires rest == [] || rest[0] == '\n'
    ensures MatchHere("\n" + Line(pr, head) + rest).Some?
    ensures MatchHere("\n" + Line(pr, head) + rest).value.len
            == 1 + |Line(pr, head)| + (if rest == [] then 0 else 1)
    ensures !Contains(head, SEP) ==>
            MatchHere("\n" + Line(pr, head) + rest).value.pr == pr
            && MatchHere("\n" + Line(pr, head) + rest).value.head == head
  {
    var t := "\n" + Line(pr, head) + rest;
    var b := 1 + |PREFIX|;
    var e := 1 + |Line(pr, head)|;
    LineParts(pr, head, rest);
    StartsWithPrefix(t[1..], PREFIX);
    PrefixHasNoNewline();
    NoCharConcat(pr, SEP, '\n');
    NoCharConcat(pr + SEP, head, '\n');
    LineEndAt(t, b, e);
    LastSepOfLine(pr, head);
  }

  /**
   * Text after a position that starts with a newline does not change whether
   * the pattern matches there, nor its groups.
   */
  lemma {:induction false} MatchHereExtend(u: string, t: string)
    requires u != [] && t != [] && t[0] == '\n'
    ensures MatchHere(u + t).None? <==> MatchHere(u).None?
    ensures MatchHere(u).Some? ==>
              && MatchHere(u + t).value.pr == MatchHere(u).value.pr
              && MatchHere(u + t).value.head == MatchHere(u).value.head
  {
    var s := u + t;
    assert s[0] == u[0];
    assert s[1..] == u[1..] + [t[0]] + t[1..];
    PrefixHasNoNewline();
    PrefixBeforeChar(PREFIX, u[1..], '\n', t[1..]);
    StartsWithPrefix(u[1..], PREFIX);
    StartsWithPrefix(s[1..], PREFIX);
    if |u| > 0 && u[0] == '\n' && PREFIX <= u[1..] {
      assert PREFIX <= s[1..];
      var b := 1 + |PREFIX|;
      var e := LineEnd(u, b);
      LineEndSpec(u, b);
      assert s[b..e] == u[b..e];
      assert e < |s| && s[e] == '\n';
      LineEndAt(s, b, e);
    }
  }

  /** The leftmost match is the first position where the pattern matches. */
  lemma {:induction false} SearchFinds(f: Matcher, s: string, k: nat)
    requires k <= |s| && MatchAt(f, s, k).Some?
    requires forall i :: 0 <= i < k ==> MatchAt(f, s, i).None?
    ensures SearchWith(f, s, 0) == Some(InfoMatch(k, MatchAt(f, s, k).value))
  {
    SearchSpec(f, s, 0);
  }

  /** Removing the first match, found at `k` and ending where `x` ends, and going on with `c`. */
  lemma {:induction false} SubWithFirst(f: Matcher, x: string, c: string, k: nat)
    requires Advances(f) && k <= |x|
    requires forall i :: 0 <= i < k ==> MatchAt(f, x + c, i).None?
    requires MatchAt(f, x + c, k).Some? && k + MatchAt(f, x + c, k).value.len == |x|
    ensures SubWith(f, x + c) == x[..k] + SubWith(f, c)
  {
    SearchFinds(f, x + c, k);
    assert (x + c)[|x|..] == c;
    assert (x + c)[..k] == x[..k];
  }

  /** Removing the first match, found at `k` and ending where `x` ends. */
  lemma {:induction false} SubWithLast(f: Matcher, x: string, k: nat)
    requires Advances(f) && k <= |x|
    requires forall i :: 0 <= i < k ==> MatchAt(f, x, i).None?
    requires MatchAt(f, x, k).Some? && k + MatchAt(f, x, k).value.len == |x|
    ensures SubWith(f, x) == x[..k]
  {
    SearchFinds(f, x, k);
    assert x[k + MatchAt(f, x, k).value.len..] == [];
  }

  /** A text in which the pattern matches nowhere is left as it is by removal. */
  lemma {:induction false} SubWithNoMatch(f: Matcher, s: string)
    requires Advances(f)
    requires forall i :: 0 <= i <= |s| ==> MatchAt(f, s, i).None?
    ensures SearchWith(f, s, 0).None?
    ensures SubWith(f, s) == s
  {
    SearchSpec(f, s, 0);
  }

  /** No match in `m` stays no match before the end of `m` once text starting with a newline follows. */
  lemma {:induction false} NoMatchBefore(m: string, t: string)
    requires ReadMetadata(m).None? && t != [] && t[0] == '\n'
    ensures forall i :: 0 <= i < |m| ==> MatchAt(MatchHere, m + t, i).None?
  {
    SearchSpec(MatchHere, m, 0);
    forall i | 0 <= i < |m| ensures MatchAt(MatchHere, m + t, i).None? {
      assert (m + t)[i..] == m[i..] + t;
      MatchHereExtend(m[i..], t);
      assert MatchAt(MatchHere, m, i).None?;
    }
  }

  /** No match starts at a newline that another newline follows. */
  lemma {:induction false} NoMatchAtBlank(s: string, i: nat)
    requires i + 1 < |s| && s[i + 1] == '\n'
    ensures MatchAt(MatchHere, s, i).None?
  {
    assert s[i..][1..][0] == '\n';
  }

  /** No match starts in a text without newlines. */
  lemma {:induction false} NoMatchWithoutNewline(s: string)
    requires NoChar(s, '\n')
    ensures forall i :: 0 <= i <= |s| ==> MatchAt(MatchHere, s, i).None?
  {
    forall i | 0 <= i <= |s| ensures MatchAt(MatchHere, s, i).None? {
      if i < |s| { assert s[i..][0] == s[i]; }
    }
  }

  /** The metadata line after `x` and a newline is matched there. */
  lemma {:induction false} MatchLineAt(x: string, pr: string, head: string, rest: string)
    requires pr != [] && head != [] && NoChar(pr, '\n') && NoChar(head, '\n')
    requires rest == [] || rest[0] == '\n'
    ensures MatchAt(MatchHere, x + "\n" + Line(pr, head) + rest, |x|)
            == MatchHere("\n" + Line(pr, head) + rest)
  {
    assert (x + "\n" + Line(pr, head) + rest)[|x|..] == "\n" + Line(pr, head) + rest;
  }

  lemma {:induction false} ReadMetadataNewline(msg: string)
    requires ReadMetadata(msg).None?
    ensures ReadMetadata(msg + "\n").None?
    ensures Remove(msg + "\n") == msg + "\n"
  {
    var s := msg + "\n";
    NoMatchBefore(msg, "\n");
    forall i | 0 <= i <= |s| ensures MatchAt(MatchHere, s, i).None? {
      if i >= |msg| { assert |s[i..]| <= 1; }
    }
    SubWithNoMatch(MatchHere, s);
  }

  // ---------------------------------------------------------------------------
  // Reading, writing and removing the line
  // ---------------------------------------------------------------------------

  /** A metadata line after a newline is read back when nothing before it matches. */
  lemma {:induction false} ReadLineAfter(msg: string, pr: string, head: string)
    requires ReadMetadata(msg).None? && Writable(pr, head)
    ensures ReadMetadata(msg + "\n" + Line(pr, head)) == Some(Metadata(pr, head))
  {
    var t := "\n" + Line(pr, head);
    var s := msg + t;
    NoMatchBefore(msg, t);
    assert s == msg + "\n" + Line(pr, head) + "";
    MatchLineAt(msg, pr, head, "");
    MatchLine(pr, head, "");
    SearchFinds(MatchHere, s, |msg|);
    assert msg + "\n" + Line(pr, head) == s;
  }

  /**
   * Appending the metadata line to a message that has none and reading it
   * back gives exactly the values written.
   */
  lemma {:induction false} AppendThenRead(msg: string, pr: string, head: string)
    requires ReadMetadata(msg).None? && Writable(pr, head)
    ensures ReadMetadata(Append(msg, pr, head)) == Some(Metadata(pr, head))
  {
    ReadMetadataNewline(msg);
    ReadLineAfter(msg + "\n", pr, head);
    AppendShape(msg, pr, head);
  }

  /** The appended text is the message, a newline, and the line after a newline. */
  lemma {:induction false} AppendShape(msg: string, pr: string, head: string)
    ensures Append(msg, pr, head) == msg + "\n" + "\n" + Line(pr, head)
  {
    var n, l := "\n", Line(pr, head);
    assert "\n\n" == n + n;
    assert msg + (n + n) + l == msg + n + n + l;
  }

  /** A message without the pattern is left unchanged by removal. */
  lemma {:induction false} RemoveNoMatch(s: string)
    requires ReadMetadata(s).None?
    ensures Remove(s) == s
  {
  }

  /** A metadata line that ends the text is removed together with the newline before it. */
  lemma {:induction false} RemoveLastLine(msg: string, pr: string, head: string)
    requires ReadMetadata(msg).None?
    requires pr != [] && head != [] && NoChar(pr, '\n') && NoChar(head, '\n')
    ensures Remove(msg + "\n" + Line(pr, head)) == msg
  {
    var l := "\n" + Line(pr, head);
    NoMatchBefore(msg, l);
    LastLineMatch(msg, pr, head);
    SubWithLast(MatchHere, msg + l, |msg|);
    assert (msg + l)[..|msg|] == msg;
    Regroup3(msg, "\n", Line(pr, head));
  }

  /** The line after `msg`, ending the text, is matched exactly. */
  lemma {:induction false} LastLineMatch(msg: string, pr: string, head: string)
    requires pr != [] && head != [] && NoChar(pr, '\n') && NoChar(head, '\n')
    ensures var s := msg + ("\n" + Line(pr, head));
      MatchAt(MatchHere, s, |msg|).Some? && |msg| + MatchAt(MatchHere, s, |msg|).value.len == |s|
  {
    var l := "\n" + Line(pr, head);
    MatchLine(pr, head, "");
    assert l + "" == l;
    assert (msg + l)[|msg|..] == l;
  }

  /**
   * A metadata line between `msg` and further text `c` is removed together
   * with the newlines around it, and removal goes on with `c` as if it stood
   * alone.
   */
  lemma {:induction false} RemoveLine(msg: string, pr: string, head: string, c: string)
    requires ReadMetadata(msg).None?
    requires pr != [] && head != [] && NoChar(pr, '\n') && NoChar(head, '\n')
    ensures Remove(msg + "\n" + Line(pr, head) + "\n" + c) == msg + Remove(c)
  {
    var l := "\n" + Line(pr, head) + "\n";
    var x := msg + l;
    NoMatchBefore(msg, l + c);
    Regroup(msg, "\n", Line(pr, head), "\n", c);
    InnerLineMatch(msg, pr, head, c);
    SubWithFirst(MatchHere, x, c, |msg|);
    assert x[..|msg|] == msg;
  }

  /** The same text, grouped as the lemmas above need it. */
  lemma {:induction false} Regroup3(m: string, a: string, b: string)
    ensures m + a + b == m + (a + b)
  {
  }

  /** The same text, grouped as the lemmas above need it. */
  lemma {:induction false} Regroup(m: string, a: string, b: string, d: string, c: string)
    ensures m + a + b + d + c == m + (a + b + d) + c
    ensures m + (a + b + d) + c == m + ((a + b + d) + c)
  {
  }

  /** The line after `msg`, followed by a newline and `c`, is matched up to that newline. */
  lemma {:induction false} InnerLineMatch(msg: string, pr: string, head: string, c: string)
    requires pr != [] && head != [] && NoChar(pr, '\n') && NoChar(head, '\n')
    ensures var x := msg + ("\n" + Line(pr, head) + "\n");
      MatchAt(MatchHere, x + c, |msg|).Some? && |msg| + MatchAt(MatchHere, x + c, |msg|).value.len == |x|
  {
    var x := msg + ("\n" + Line(pr, head) + "\n");
    MatchLine(pr, head, "\n" + c);
    assert (x + c)[|msg|..] == "\n" + Line(pr, head) + ("\n" + c);
  }

  /**
   * Removing the line from a message that ends with it, preceded by a blank
   * line, leaves the text before it and one newline, and no metadata.
   */
  lemma {:induction false} RemoveAppended(msg: string, pr: string, head: string)
    requires ReadMetadata(msg).None?
    requires pr != [] && head != [] && NoChar(pr, '\n') && NoChar(head, '\n')
    ensures Remove(Append(msg, pr, head)) == msg + "\n"
    ensures ReadMetadata(msg + "\n").None?
  {
    ReadMetadataNewline(msg);
    RemoveLastLine(msg + "\n", pr, head);
    AppendShape(msg, pr, head);
  }

  /**
   * Two metadata lines in a row are not both removed: the match of the first
   * consumes the newline that the second would need, so the second survives
   * and is still read as metadata.
   */
  lemma {:induction false} RemoveTwoLines(msg: string, pr1: string, head1: string, pr2: string, head2: string)
    requires ReadMetadata(msg).None?
    requires pr1 != [] && head1 != [] && NoChar(pr1, '\n') && NoChar(head1, '\n')
    requires Writable(pr2, head2)
    ensures Remove(msg + "\n\n" + Line(pr1, head1) + "\n" + Line(pr2, head2))
            == msg + "\n" + Line(pr2, head2)
    ensures ReadMetadata(msg + "\n" + Line(pr2, head2)) == Some(Metadata(pr2, head2))
  {
    var c := Line(pr2, head2);
    var l1 := Line(pr1, head1);
    ReadMetadataNewline(msg);
    RemoveLine(msg + "\n", pr1, head1, c);
    LineNoNewline(pr2, head2);
    NoMatchWithoutNewline(c);
    SubWithNoMatch(MatchHere, c);
    ReadLineAfter(msg, pr2, head2);
    DoubleNewline(msg, l1, c);
  }

  lemma {:induction false} DoubleNewline(msg: string, l: string, c: string)
    ensures msg + "\n\n" + l + "\n" + c == msg + "\n" + "\n" + l + "\n" + c
  {
    assert msg + "\n\n" == msg + "\n" + "\n";
  }

  lemma {:induction false} LineNoNewline(pr: string, head: string)
    requires NoChar(pr, '\n') && NoChar(head, '\n')
    ensures NoChar(Line(pr, head), '\n')
  {
    PrefixHasNoNewline();
    NoCharConcat(PREFIX, pr, '\n');
    NoCharConcat(PREFIX + pr, SEP, '\n');
    NoCharConcat(PREFIX + pr + SEP, head, '\n');
  }

  /** A newline and a proper start of the prefix hold no match. */
  lemma {:induction false} PrefixStartNoMatch(k: nat)
    requires k < |PREFIX|
    ensures ReadMetadata("\n" + PREFIX[..k]).None?
  {
    var msg := "\n" + PREFIX[..k];
    PrefixHasNoNewline();
    forall i | 0 <= i <= |msg| ensures MatchAt(MatchHere, msg, i).None? {
      if 0 < i < |msg| { assert msg[i..][0] == msg[i] == PREFIX[i - 1]; }
    }
    SubWithNoMatch(MatchHere, msg);
  }

  /** The rest of a metadata line after a proper start of the prefix. */
  lemma {:induction false} LineRest(k: nat, pr: string, head: string)
    requires k < |PREFIX| && NoChar(pr, '\n') && NoChar(head, '\n')
    ensures NoChar(PREFIX[k..] + pr + SEP + head, '\n')
    ensures "\n" + PREFIX[..k] + (PREFIX[k..] + pr + SEP + head) == "" + "\n" + Line(pr, head)
  {
    var c := PREFIX[k..] + pr + SEP + head;
    LineNoNewline(pr, head);
    assert PREFIX == PREFIX[..k] + PREFIX[k..];
    assert Line(pr, head) == PREFIX[..k] + c;
    forall j | 0 <= j < |c| ensures c[j] != '\n' {
      assert c[j] == Line(pr, head)[k + j];
    }
  }

  /**
   * Removing a line can join two pieces of text into a new metadata line:
   * a line holding the start of the prefix right before the removed line
   * and a line holding the rest of a metadata line right after it become
   * one metadata line, which is then still read.
   */
  lemma {:induction false} RemoveCanJoinLines(k: nat, pr: string, head: string, pr2: string, head2: string)
    requires 0 < k < |PREFIX|
    requires pr != [] && head != [] && NoChar(pr, '\n') && NoChar(head, '\n')
    requires Writable(pr2, head2)
    ensures Remove("\n" + PREFIX[..k] + "\n" + Line(pr, head) + "\n" + (PREFIX[k..] + pr2 + SEP + head2))
            == "" + "\n" + Line(pr2, head2)
    ensures ReadMetadata("" + "\n" + Line(pr2, head2)) == Some(Metadata(pr2, head2))
  {
    PrefixStartNoMatch(k);
    var c := PREFIX[k..] + pr2 + SEP + head2;
    RemoveLine("\n" + PREFIX[..k], pr, head, c);
    LineRest(k, pr2, head2);
    NoMatchWithoutNewline(c);
    SubWithNoMatch(MatchHere, c);
    ReadLineAfter("", pr2, head2);
  }
}
