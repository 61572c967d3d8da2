/**
 * The handful of Python string operations the tool relies on, written out
 * with the exact semantics of CPython's `str` methods: `split(c)`,
 * `splitlines()`, `split()`, `strip()`/`lstrip()`/`rstrip()`, `strip(c)`,
 * `replace`, `str(n)` and `int(s)` (the last two for ASCII digits).
 */
module Text {
  import opened Wrappers

  // ---------------------------------------------------------------------------
  // Digits and numbers
  // ---------------------------------------------------------------------------

  predicate IsDigit(c: char) { '0' <= c <= '9' }

  predicate AllDigits(s: string) { forall i :: 0 <= i < |s| ==> IsDigit(s[i]) }

  /** `str.isnumeric()` on ASCII text: non-empty and made of digits only. */
  predicate IsNumeric(s: string) { |s| > 0 && AllDigits(s) }

  function DigitValue(c: char): nat
    requires IsDigit(c)
  {
    c as int - '0' as int
  }

  function DigitChar(d: nat): (c: char)
    requires d < 10
    ensures IsDigit(c) && DigitValue(c) == d
  {
    ('0' as int + d) as char
  }

  /** `int(s)` for a string of ASCII digits (leading zeros allowed). */
  function ParseNat(s: string): nat
    requires AllDigits(s)
  {
    if s == [] then 0 else ParseNat(s[..|s| - 1]) * 10 + DigitValue(s[|s| - 1])
  }

  /** `str(n)`: the canonical decimal spelling of `n`. */
  function NatToString(n: nat): (s: string)
    ensures IsNumeric(s)
  {
    if n < 10 then [DigitChar(n)] else NatToString(n / 10) + [DigitChar(n % 10)]
  }

  /** `int(str(n)) == n`. */
  lemma {:induction false} ParseNatToString(n: nat)
    ensures ParseNat(NatToString(n)) == n
  {
    if n >= 10 {
      var s := NatToString(n);
      assert s[..|s| - 1] == NatToString(n / 10);
      ParseNatToString(n / 10);
    }
  }

  /** Two numbers with the same spelling are equal. */
  lemma {:induction false} NatToStringInjective(m: nat, n: nat)
    requires NatToString(m) == NatToString(n)
    ensures m == n
  {
    ParseNatToString(m);
    ParseNatToString(n);
  }

  // ---------------------------------------------------------------------------
  // Searching
  // ---------------------------------------------------------------------------

  predicate NoChar(s: string, c: char) { forall k :: 0 <= k < |s| ==> s[k] != c }

  /** `s.find(c)`, with `None` for -1. */
  function IndexOf(s: string, c: char): (r: Option<nat>)
    ensures r.Some? ==> r.value < |s| && s[r.value] == c && NoChar(s[..r.value], c)
    ensures r.None? ==> NoChar(s, c)
  {
    if s == [] then None
    else if s[0] == c then Some(0)
    else match IndexOf(s[1..], c)
      case None => None
      case Some(i) => Some(i + 1)
  }

  /** The first occurrence of `c` is the one with no earlier `c`. */
  lemma {:induction false} IndexOfAt(a: string, c: char, b: string)
    requires NoChar(a, c)
    ensures IndexOf(a + [c] + b, c) == Some(|a|)
  {
    var s := a + [c] + b;
    assert s[|a|] == c;
    assert forall v :: 0 <= v < |a| ==> s[v] == a[v];
    assert forall v :: |a| < v <= |s| ==> s[..v][|a|] == c;
  }

  /** A prefix of `a + [c] + b` that has no `c` is a prefix of `a`. */
  lemma {:induction false} PrefixBeforeChar(p: string, a: string, c: char, b: string)
    requires NoChar(p, c)
    ensures p <= a + [c] + b ==> p <= a
  {
    var s := a + [c] + b;
    assert |p| > |a| ==> p[|a|] != c && s[|a|] == c;
    assert p <= s && |p| <= |a| ==> s[..|p|] == a[..|p|];
  }

  lemma {:induction false} NoCharConcat(a: string, b: string, c: char)
    requires NoChar(a, c) && NoChar(b, c)
    ensures NoChar(a + b, c)
  {
    forall k | 0 <= k < |a + b| ensures (a + b)[k] != c {
      if k >= |a| { assert (a + b)[k] == b[k - |a|]; }
    }
  }

  /** `s.startswith(p)`, one character at a time. */
  predicate StartsWith(s: string, p: string)
  {
    p == [] || (s != [] && s[0] == p[0] && StartsWith(s[1..], p[1..]))
  }

  lemma {:induction false} StartsWithPrefix(s: string, p: string)
    ensures StartsWith(s, p) <==> p <= s
  {
    if p != [] && s != [] {
      StartsWithPrefix(s[1..], p[1..]);
      assert p <= s <==> p[0] == s[0] && p[1..] <= s[1..];
    }
  }

  /** `s.rfind(c)`, with `None` for -1. */
  function LastIndexOf(s: string, c: char): (r: Option<nat>)
    ensures r.Some? ==> r.value < |s| && s[r.value] == c && NoChar(s[r.value + 1..], c)
    ensures r.None? ==> NoChar(s, c)
  {
    if s == [] then None
    else if s[|s| - 1] == c then Some(|s| - 1)
    else LastIndexOf(s[..|s| - 1], c)
  }

  lemma {:induction false} LastIndexOfConcat(a: string, c: char, b: string)
    requires NoChar(b, c)
    ensures LastIndexOf(a + [c] + b, c) == Some(|a|)
  {
    var s := a + [c] + b;
    assert s[|a|] == c;
    assert s[|a| + 1..] == b;
  }

  predicate OccursAt(s: string, pat: string, i: nat) { i + |pat| <= |s| && s[i..i + |pat|] == pat }

  /** `pat in s` for strings. */
  predicate Contains(s: string, pat: string) { exists i: nat | i <= |s| :: OccursAt(s, pat, i) }

  /** `s.find(pat)` for a non-empty pattern, with `None` for -1. */
  function Find(s: string, pat: string, from: nat := 0): (r: Option<nat>)
    requires pat != []
    requires from <= |s|
    ensures r.Some? ==> from <= r.value && OccursAt(s, pat, r.value)
                        && forall k: nat :: from <= k < r.value ==> !OccursAt(s, pat, k)
    ensures r.None? ==> forall k: nat :: from <= k ==> !OccursAt(s, pat, k)
    decreases |s| - from
  {
    if from + |pat| > |s| then None
    else if OccursAt(s, pat, from) then Some(from)
    else Find(s, pat, from + 1)
  }

  /** The first occurrence is the one `find` reports. */
  lemma {:induction false} FindFirst(s: string, pat: string, q: nat)
    requires pat != [] && OccursAt(s, pat, q)
    requires forall k: nat | k < q :: !OccursAt(s, pat, k)
    ensures Find(s, pat) == Some(q)
  {
  }

  // ---------------------------------------------------------------------------
  // Splitting and joining
  // ---------------------------------------------------------------------------

  /** `s.split(sep)` for a one-character separator. */
  function Split(s: string, sep: char): (parts: seq<string>)
    ensures |parts| >= 1
    ensures forall k :: 0 <= k < |parts| ==> NoChar(parts[k], sep)
    decreases |s|
  {
    match IndexOf(s, sep)
    case None => [s]
    case Some(i) => [s[..i]] + Split(s[i + 1..], sep)
  }

  /** `sep.join(parts)`. */
  function Join(parts: seq<string>, sep: string): string
  {
    if parts == [] then ""
    else if |parts| == 1 then parts[0]
    else parts[0] + sep + Join(parts[1..], sep)
  }

  /** `sep.join(s.split(sep)) == s`. */
  lemma {:induction false} JoinSplit(s: string, sep: char)
    ensures Join(Split(s, sep), [sep]) == s
    decreases |s|
  {
    match IndexOf(s, sep)
    case None =>
    case Some(i) =>
      var rest := Split(s[i + 1..], sep);
      assert Split(s, sep) == [s[..i]] + rest;
      JoinSplit(s[i + 1..], sep);
      JoinCons(s[..i], rest, [sep]);
      assert s == s[..i] + [sep] + s[i + 1..];
  }

  /** `sep.join(parts).split(sep) == parts` when no part contains `sep`. */
  lemma {:induction false} SplitJoin(parts: seq<string>, sep: char)
    requires |parts| >= 1
    requires forall k :: 0 <= k < |parts| ==> NoChar(parts[k], sep)
    ensures Split(Join(parts, [sep]), sep) == parts
  {
    if |parts| > 1 {
      var s := Join(parts, [sep]);
      var rest := Join(parts[1..], [sep]);
      assert s == parts[0] + [sep] + rest;
      IndexOfAt(parts[0], sep, rest);
      assert s[..|parts[0]|] == parts[0];
      assert s[|parts[0]| + 1..] == rest;
      SplitJoin(parts[1..], sep);
      assert Split(s, sep) == [parts[0]] + Split(rest, sep);
    } else {
      assert Join(parts, [sep]) == parts[0];
    }
  }

  lemma {:induction false} JoinTwo(a: string, b: string, sep: string)
    ensures Join([a, b], sep) == a + sep + b
  {
    assert [a, b][1..] == [b];
  }

  lemma {:induction false} JoinCons(a: string, rest: seq<string>, sep: string)
    requires rest != []
    ensures Join([a] + rest, sep) == a + sep + Join(rest, sep)
  {
    assert ([a] + rest)[1..] == rest;
  }

  // ---------------------------------------------------------------------------
  // Lines
  // ---------------------------------------------------------------------------

  /** The line boundaries recognised by `str.splitlines()`. */
  predicate IsLineBreak(c: char)
  {
    var n := c as int;
    (10 <= n <= 13) || (28 <= n <= 30) || n == 0x85 || n == 0x2028 || n == 0x2029
  }

  predicate NoLineBreak(s: string) { forall k :: 0 <= k < |s| ==> !IsLineBreak(s[k]) }

  function FirstLineBreak(s: string): (r: Option<nat>)
    ensures r.Some? ==> r.value < |s| && IsLineBreak(s[r.value]) && NoLineBreak(s[..r.value])
    ensures r.None? ==> NoLineBreak(s)
  {
    if s == [] then None
    else if IsLineBreak(s[0]) then Some(0)
    else match FirstLineBreak(s[1..])
      case None => None
      case Some(i) => Some(i + 1)
  }

  lemma {:induction false} FirstLineBreakAt(s: string, i: nat)
    requires i < |s| && IsLineBreak(s[i]) && NoLineBreak(s[..i])
    ensures FirstLineBreak(s) == Some(i)
  {
    if i > 0 {
      assert s[0] == s[..i][0];
      assert s[1..][..i - 1] == s[..i][1..];
      FirstLineBreakAt(s[1..], i - 1);
    }
  }

  /** Width of the line boundary at `i`: "\r\n" counts as one boundary. */
  function BreakWidth(s: string, i: nat): nat
    requires i < |s|
  {
    if s[i] == '\r' && i + 1 < |s| && s[i + 1] == '\n' then 2 else 1
  }

  /** `s.splitlines()`: no trailing empty line, and no line for "". */
  function SplitLines(s: string): (lines: seq<string>)
    ensures forall k :: 0 <= k < |lines| ==> NoLineBreak(lines[k])
    decreases |s|
  {
    match FirstLineBreak(s)
    case None => if s == [] then [] else [s]
    case Some(i) => [s[..i]] + SplitLines(s[i + BreakWidth(s, i)..])
  }

  /**
   * Appending "\n" to a non-empty text that does not already end in a line
   * boundary leaves its lines unchanged.
   */
  lemma {:induction false} SplitLinesAppendNewline(m: string)
    requires m != [] && !IsLineBreak(m[|m| - 1])
    ensures SplitLines(m + "\n") == SplitLines(m)
    decreases |m|
  {
    var s := m + "\n";
    match FirstLineBreak(m)
    case None =>
      assert s[..|m|] == m;
      FirstLineBreakAt(s, |m|);
      assert s[|m| + 1..] == [];
    case Some(i) =>
      assert s[..i] == m[..i];
      FirstLineBreakAt(s, i);
      assert BreakWidth(s, i) == BreakWidth(m, i);
      var w := BreakWidth(m, i);
      assert s[i + w..] == m[i + w..] + "\n";
      SplitLinesAppendNewline(m[i + w..]);
  }

  /** Joining lines with "\n" and splitting them again gives the lines back. */
  lemma {:induction false} SplitLinesJoin(lines: seq<string>)
    requires |lines| >= 1 && lines[|lines| - 1] != []
    requires forall k :: 0 <= k < |lines| ==> NoLineBreak(lines[k])
    ensures SplitLines(Join(lines, "\n")) == lines
  {
    if |lines| == 1 {
      assert FirstLineBreak(lines[0]).None?;
    } else {
      var s := Join(lines, "\n");
      var rest := Join(lines[1..], "\n");
      assert s == lines[0] + "\n" + rest;
      assert s[..|lines[0]|] == lines[0];
      FirstLineBreakAt(s, |lines[0]|);
      assert s[|lines[0]| + 1..] == rest;
      SplitLinesJoin(lines[1..]);
    }
  }

  // ---------------------------------------------------------------------------
  // Whitespace
  // ---------------------------------------------------------------------------

  /** `str.isspace()` for one character. */
  predicate IsSpace(c: char)
  {
    var n := c as int;
    (9 <= n <= 13) || (28 <= n <= 32) || n == 0x85 || n == 0xA0 || n == 0x1680
    || (0x2000 <= n <= 0x200A) || n == 0x2028 || n == 0x2029 || n == 0x202F
    || n == 0x205F || n == 0x3000
  }

  predicate NoSpace(s: string) { forall k :: 0 <= k < |s| ==> !IsSpace(s[k]) }

  /** Visible ASCII characters are no white space. */
  lemma {:induction false} VisibleNoSpace(s: string)
    requires forall k | 0 <= k < |s| :: '!' <= s[k] <= '~'
    ensures NoSpace(s)
  {
  }

  /** `s.lstrip()`. */
  function LStrip(s: string): (r: string)
    ensures |r| <= |s| && r == s[|s| - |r|..]
    ensures forall k :: 0 <= k < |s| - |r| ==> IsSpace(s[k])
    ensures r == [] || !IsSpace(r[0])
  {
    if s != [] && IsSpace(s[0]) then LStrip(s[1..]) else s
  }

  /** `s.rstrip()`. */
  function RStrip(s: string): (r: string)
    ensures |r| <= |s| && r == s[..|r|]
    ensures forall k :: |r| <= k < |s| ==> IsSpace(s[k])
    ensures r == [] || !IsSpace(r[|r| - 1])
  {
    if s != [] && IsSpace(s[|s| - 1]) then RStrip(s[..|s| - 1]) else s
  }

  /** `s.strip()`. */
  function Strip(s: string): string
  {
    LStrip(RStrip(s))
  }

  /** Whatever follows a text ending in a non-space is stripped on its own. */
  lemma {:induction false} RStripAfter(a: string, b: string)
    requires a != [] && !IsSpace(a[|a| - 1])
    ensures RStrip(a + b) == a + RStrip(b)
    decreases |b|
  {
    if b == [] {
      assert a + b == a;
    } else if IsSpace(b[|b| - 1]) {
      assert (a + b)[..|a + b| - 1] == a + b[..|b| - 1];
      RStripAfter(a, b[..|b| - 1]);
    }
  }

  /** Leading whitespace makes no difference to `strip()`. */
  lemma {:induction false} StripSpaces(w: string, y: string)
    requires forall k | 0 <= k < |w| :: IsSpace(w[k])
    ensures Strip(w + y) == Strip(y)
  {
    var r := RStrip(y);
    if r != [] {
      assert r[|r| - 1] == y[|r| - 1];
      RStripAfter(w + r, y[|r|..]);
      assert w + y == (w + r) + y[|r|..];
      RStripAllSpace(y[|r|..]);
      LStripSpaces(w, r);
    }
  }

  /** A text made only of whitespace is stripped to nothing from the right. */
  lemma {:induction false} RStripAllSpace(s: string)
    requires forall k | 0 <= k < |s| :: IsSpace(s[k])
    ensures RStrip(s) == []
  {
  }

  /** Leading whitespace makes no difference to `lstrip()`. */
  lemma {:induction false} LStripSpaces(w: string, y: string)
    requires forall k | 0 <= k < |w| :: IsSpace(w[k])
    ensures LStrip(w + y) == LStrip(y)
    decreases |w|
  {
    if w != [] {
      assert (w + y)[1..] == w[1..] + y;
      LStripSpaces(w[1..], y);
    } else {
      assert w + y == y;
    }
  }

  function FirstSpace(s: string): (r: Option<nat>)
    ensures r.Some? ==> r.value < |s| && IsSpace(s[r.value]) && NoSpace(s[..r.value])
    ensures r.None? ==> NoSpace(s)
  {
    if s == [] then None
    else if IsSpace(s[0]) then Some(0)
    else match FirstSpace(s[1..])
      case None => None
      case Some(i) => Some(i + 1)
  }

  lemma {:induction false} FirstSpaceAt(s: string, i: nat)
    requires i < |s| && IsSpace(s[i]) && NoSpace(s[..i])
    ensures FirstSpace(s) == Some(i)
  {
    if i > 0 {
      assert s[0] == s[..i][0];
      assert s[1..][..i - 1] == s[..i][1..];
      FirstSpaceAt(s[1..], i - 1);
    }
  }

  /** Words, with one more in front. */
  lemma {:induction false} WordsCons(w: string, rest: seq<string>)
    requires w != [] && NoSpace(w)
    requires forall k :: 0 <= k < |rest| ==> rest[k] != [] && NoSpace(rest[k])
    ensures forall k :: 0 <= k < |[w] + rest| ==> ([w] + rest)[k] != [] && NoSpace(([w] + rest)[k])
  {
    forall k | 0 <= k < |[w] + rest| ensures ([w] + rest)[k] != [] && NoSpace(([w] + rest)[k]) {
      if k > 0 {
        assert ([w] + rest)[k] == rest[k - 1];
      }
    }
  }

  /** `s.split()`: the maximal runs of non-whitespace, in order. */
  function SplitWords(s: string): (words: seq<string>)
    ensures forall k :: 0 <= k < |words| ==> words[k] != [] && NoSpace(words[k])
    decreases |s|
  {
    var t := LStrip(s);
    if t == [] then []
    else match FirstSpace(t)
      case None => [t]
      case Some(i) =>
        WordsCons(t[..i], SplitWords(t[i..]));
        [t[..i]] + SplitWords(t[i..])
  }

  /** `" ".join(words).split() == words` for non-empty words without whitespace. */
  lemma {:induction false} SplitWordsJoin(words: seq<string>)
    requires forall k :: 0 <= k < |words| ==> words[k] != [] && NoSpace(words[k])
    ensures SplitWords(Join(words, " ")) == words
  {
    if |words| == 1 {
      SplitOneWord(words[0]);
    } else if |words| > 1 {
      assert Join(words, " ") == words[0] + " " + Join(words[1..], " ");
      SplitWordsStep(words[0], Join(words[1..], " "));
      WordsTail(words);
      SplitWordsJoin(words[1..]);
      assert words == [words[0]] + words[1..];
    }
  }

  lemma {:induction false} WordsTail(words: seq<string>)
    requires words != [] && forall k :: 0 <= k < |words| ==> words[k] != [] && NoSpace(words[k])
    ensures forall k :: 0 <= k < |words[1..]| ==> words[1..][k] != [] && NoSpace(words[1..][k])
  {
    forall k | 0 <= k < |words[1..]| ensures words[1..][k] != [] && NoSpace(words[1..][k]) {
      assert words[1..][k] == words[k + 1];
    }
  }

  /** A single word splits into itself. */
  lemma {:induction false} SplitOneWord(w: string)
    requires w != [] && NoSpace(w)
    ensures SplitWords(w) == [w]
  {
    assert LStrip(w) == w;
  }

  /** A word, a space and a text split into the word and the words of the text. */
  lemma {:induction false} SplitWordsStep(w: string, rest: string)
    requires w != [] && NoSpace(w)
    ensures SplitWords(w + " " + rest) == [w] + SplitWords(rest)
  {
    var s := w + " " + rest;
    assert s[0] == w[0];
    assert LStrip(s) == s;
    assert s[..|w|] == w;
    FirstSpaceAt(s, |w|);
    assert s[|w|..] == " " + rest;
    SplitWordsLeadingSpace(" " + rest);
    assert (" " + rest)[1..] == rest;
  }

  /** Leading whitespace does not change the words of a text. */
  lemma {:induction false} SplitWordsLeadingSpace(x: string)
    requires x != [] && IsSpace(x[0])
    ensures SplitWords(x) == SplitWords(x[1..])
  {
    assert LStrip(x) == LStrip(x[1..]);
  }

  // ---------------------------------------------------------------------------
  // Stripping one character, replacing a substring
  // ---------------------------------------------------------------------------

  /** `s.strip(c)`: drop every leading and trailing `c`. */
  function StripChar(s: string, c: char): (r: string)
    ensures r == [] || (r[0] != c && r[|r| - 1] != c)
    ensures |r| <= |s|
    decreases |s|
  {
    if s == [] then s
    else if s[0] == c then StripChar(s[1..], c)
    else if s[|s| - 1] == c then StripChar(s[..|s| - 1], c)
    else s
  }

  lemma {:induction false} StripCharNoop(s: string, c: char)
    requires NoChar(s, c)
    ensures StripChar(s, c) == s
  {
    if s != [] {
      assert s[0] != c && s[|s| - 1] != c;
    }
  }

  /** Stripping the quotes around a quoted text that has none of its own at either end. */
  lemma {:induction false} StripCharQuoted(x: string, c: char)
    requires x != [] && x[0] != c && x[|x| - 1] != c
    ensures StripChar([c] + x + [c], c) == x
  {
    var s := [c] + x + [c];
    assert s[1..] == x + [c];
    assert (x + [c])[..|x|] == x;
    assert StripChar(x, c) == x;
    assert (x + [c])[0] == x[0];
    assert StripChar(x + [c], c) == StripChar(x, c);
  }

  /** `s.replace(pat, rep)`: every non-overlapping occurrence, left to right. */
  function ReplaceAll(s: string, pat: string, rep: string): string
    requires pat != []
    decreases |s|
  {
    if |s| < |pat| then s
    else if pat <= s then rep + ReplaceAll(s[|pat|..], pat, rep)
    else [s[0]] + ReplaceAll(s[1..], pat, rep)
  }

  /** A text without the pattern is left as it is. */
  lemma {:induction false} ReplaceAbsent(s: string, pat: string, rep: string)
    requires pat != [] && !Contains(s, pat)
    ensures ReplaceAll(s, pat, rep) == s
    decreases |s|
  {
    if |s| >= |pat| {
      assert !OccursAt(s, pat, 0);
      assert s[..|pat|] != pat;
      forall i: nat | i <= |s[1..]|
        ensures !OccursAt(s[1..], pat, i)
      {
        if OccursAt(s[1..], pat, i) {
          assert s[1..][i..i + |pat|] == s[i + 1..i + 1 + |pat|];
          assert OccursAt(s, pat, i + 1);
        }
      }
      ReplaceAbsent(s[1..], pat, rep);
      assert s == [s[0]] + s[1..];
    }
  }

  /** An occurrence at the start is replaced, and the scan goes on after it. */
  lemma {:induction false} ReplaceLeading(pat: string, t: string, rep: string)
    requires pat != []
    ensures ReplaceAll(pat + t, pat, rep) == rep + ReplaceAll(t, pat, rep)
  {
    assert pat <= pat + t;
    assert (pat + t)[|pat|..] == t;
  }

  /** Removing a pattern never touches a first character that the pattern does not start with. */
  lemma {:induction false} ReplaceKeepsFirst(s: string, pat: string)
    requires pat != [] && s != [] && s[0] != pat[0]
    ensures ReplaceAll(s, pat, "") != [] && ReplaceAll(s, pat, "")[0] == s[0]
  {
    if |s| >= |pat| {
      assert !(pat <= s);
    }
  }
}
