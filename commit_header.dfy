/**
 * Commit records as printed by `git rev-list --header`: the commit id on its
 * own line, the `tree`, `parent`, `author` and `committer` headers, a blank
 * line and the message with every line indented by four spaces; records are
 * separated by NUL characters.
 *
 * Each accessor is the regular expression of the original, evaluated with
 * `re.MULTILINE`: `^` is the start of a line and `$` its end, so the
 * single-line patterns are scanners over `raw.split("\n")`.
 */
module CommitHeaders {
  import opened Wrappers
  import opened Text

  /** The unparsed text of one record. */
  datatype CommitHeader = CommitHeader(raw: string)

  datatype Author = Author(name: string, email: string)

  // ---------------------------------------------------------------------------
  // Records
  // ---------------------------------------------------------------------------

  /** `split_header`: the NUL-separated records, dropping the text after the last NUL. */
  function SplitHeader(s: string): (headers: seq<CommitHeader>)
    ensures forall k :: 0 <= k < |headers| ==> NoChar(headers[k].raw, '\0')
  {
    var parts := Split(s, '\0');
    seq(|parts| - 1, k requires 0 <= k < |parts| - 1 => CommitHeader(parts[k]))
  }

  /**
   * Splitting the output of `rev-list`, in which every record is followed by
   * a NUL, gives back exactly the records, in order.
   */
  lemma {:induction false} SplitHeaderRecords(records: seq<string>)
    requires forall k :: 0 <= k < |records| ==> NoChar(records[k], '\0')
    ensures SplitHeader(Join(records + [""], "\0"))
            == seq(|records|, k requires 0 <= k < |records| => CommitHeader(records[k]))
  {
    var parts := records + [""];
    assert forall k :: 0 <= k < |parts| ==> NoChar(parts[k], '\0') by {
      forall k | 0 <= k < |parts| ensures NoChar(parts[k], '\0') {
        if k < |records| { assert parts[k] == records[k]; }
      }
    }
    SplitJoin(parts, '\0');
  }

  // ---------------------------------------------------------------------------
  // Line patterns
  // ---------------------------------------------------------------------------

  function Lines(h: CommitHeader): seq<string> { Split(h.raw, '\n') }

  predicate IsHexChar(c: char) { '0' <= c <= '9' || 'a' <= c <= 'f' }

  /** A whole line matching `[a-f0-9]+`. */
  predicate IsHexLine(l: string) { |l| > 0 && forall k :: 0 <= k < |l| ==> IsHexChar(l[k]) }

  /** A line matching `^tree (.+)$`. */
  predicate IsTreeLine(l: string) { "tree " <= l && |l| > 5 }

  /** A line matching `^parent ([a-f0-9]+)$`. */
  predicate IsParentLine(l: string) { "parent " <= l && IsHexLine(l[7..]) }

  /** A line matching `^    (.*)$`. */
  predicate IsMessageLine(l: string) { "    " <= l }

  /** Index of the first line, at or after `from`, that satisfies `p`. */
  function FirstIndex(lines: seq<string>, p: string -> bool, from: nat := 0): (r: Option<nat>)
    requires from <= |lines|
    ensures r.Some? ==> from <= r.value < |lines| && p(lines[r.value])
                        && forall k :: from <= k < r.value ==> !p(lines[k])
    ensures r.None? ==> forall k :: from <= k < |lines| ==> !p(lines[k])
    decreases |lines| - from
  {
    if from == |lines| then None
    else if p(lines[from]) then Some(from)
    else FirstIndex(lines, p, from + 1)
  }

  /** `commit_id()`: the first line made of lower-case hex digits only. */
  function CommitId(h: CommitHeader): Option<string>
  {
    var lines := Lines(h);
    match FirstIndex(lines, IsHexLine)
    case None => None
    case Some(i) => Some(lines[i])
  }

  /** `tree()`: the rest of the first `tree ` line. */
  function Tree(h: CommitHeader): Option<string>
  {
    var lines := Lines(h);
    match FirstIndex(lines, IsTreeLine)
    case None => None
    case Some(i) => Some(lines[i][5..])
  }

  function ParentsOf(lines: seq<string>): seq<string>
  {
    if lines == [] then []
    else (if IsParentLine(lines[0]) then [lines[0][7..]] else []) + ParentsOf(lines[1..])
  }

  /** `parents()`: every `parent` header, in order. */
  function Parents(h: CommitHeader): seq<string> { ParentsOf(Lines(h)) }

  function MessageLines(lines: seq<string>): seq<string>
  {
    if lines == [] then []
    else (if IsMessageLine(lines[0]) then [lines[0][4..]] else []) + MessageLines(lines[1..])
  }

  /** `commit_msg()`: the indented lines, un-indented and joined by "\n". */
  function CommitMsg(h: CommitHeader): string { Join(MessageLines(Lines(h)), "\n") }

  /** `title()`: the first indented line. */
  function Title(h: CommitHeader): Option<string>
  {
    var lines := Lines(h);
    match FirstIndex(lines, IsMessageLine)
    case None => None
    case Some(i) => Some(lines[i][4..])
  }

  // ---------------------------------------------------------------------------
  // The author pattern `^author (?P<name>[^<]+?) <(?P<email>[^>]+)>`
  // ---------------------------------------------------------------------------

  /**
   * The author pattern anchored at the start of `t`. The name is lazy and
   * cannot hold '<', so it ends right before " <" at the first '<'; the
   * e-mail is greedy and cannot hold '>', so it runs to the first '>' after
   * that. Both may cross line ends, as `[^<]` and `[^>]` do.
   */
  function AuthorAt(t: string): Option<Author>
  {
    if !("author " <= t) then None
    else
      var r := t[7..];
      match IndexOf(r, '<')
      case None => None
      case Some(k) =>
        if k < 2 || r[k - 1] != ' ' then None
        else match IndexOf(r[k + 1..], '>')
          case None => None
          case Some(m) => if m == 0 then None else Some(Author(r[..k - 1], r[k + 1..k + 1 + m]))
  }

  /** The first line start, at line `j` or later, where the author pattern matches. */
  function AuthorFromLine(lines: seq<string>, j: nat): Option<Author>
    decreases |lines| - j
  {
    if j >= |lines| then None
    else
      var a := AuthorAt(Join(lines[j..], "\n"));
      if a.Some? then a else AuthorFromLine(lines, j + 1)
  }

  /** `author_name()` and `author_email()`, together. */
  function AuthorOf(h: CommitHeader): Option<Author> { AuthorFromLine(Lines(h), 0) }

  /** `author()`: the whole matched `name <email>`. */
  function AuthorText(a: Author): string { a.name + " <" + a.email + ">" }

  // ---------------------------------------------------------------------------
  // Round trip: the accessors read back what git printed
  // ---------------------------------------------------------------------------

  datatype CommitFields = CommitFields(
    id: string,
    tree: string,
    parents: seq<string>,
    author: Author,
    authorDate: string,
    committer: string,
    message: seq<string>)

  function ParentLines(ps: seq<string>): seq<string>
  {
    seq(|ps|, k requires 0 <= k < |ps| => "parent " + ps[k])
  }

  function Indented(msg: seq<string>): seq<string>
  {
    seq(|msg|, k requires 0 <= k < |msg| => "    " + msg[k])
  }

  /** The lines `git rev-list --header` prints for one commit. */
  function HeaderLines(f: CommitFields): seq<string>
  {
    [f.id, "tree " + f.tree] + ParentLines(f.parents)
    + ["author " + AuthorText(f.author) + " " + f.authorDate, "committer " + f.committer, ""]
    + Indented(f.message)
  }

  predicate WellFormed(f: CommitFields)
  {
    && IsHexLine(f.id)
    && f.tree != [] && NoChar(f.tree, '\n')
    && (forall k :: 0 <= k < |f.parents| ==> IsHexLine(f.parents[k]))
    && f.author.name != [] && NoChar(f.author.name, '<') && NoChar(f.author.name, '\n')
    && f.author.email != [] && NoChar(f.author.email, '>') && NoChar(f.author.email, '\n')
    && NoChar(f.authorDate, '\n') && NoChar(f.committer, '\n')
    && (forall k :: 0 <= k < |f.message| ==> NoChar(f.message[k], '\n'))
  }

  lemma {:induction false} HeaderLinesNoNewline(f: CommitFields)
    requires WellFormed(f)
    ensures forall k :: 0 <= k < |HeaderLines(f)| ==> NoChar(HeaderLines(f)[k], '\n')
  {
    var ls := HeaderLines(f);
    forall k | 0 <= k < |ls| ensures NoChar(ls[k], '\n') {
      var p := |f.parents|;
      if k == 1 {
        assert ls[k] == "tree " + f.tree;
      } else if 2 <= k < 2 + p {
        assert ls[k] == "parent " + f.parents[k - 2];
      } else if k == 2 + p {
        assert ls[k] == "author " + f.author.name + " <" + f.author.email + ">" + " " + f.authorDate;
      } else if k == 3 + p {
        assert ls[k] == "committer " + f.committer;
      } else if k >= 5 + p {
        assert ls[k] == "    " + f.message[k - 5 - p];
      }
    }
  }

  /** A pattern without a newline that prefixes joined lines prefixes the first line. */
  lemma {:induction false} PrefixOfJoin(p: string, ls: seq<string>)
    requires ls != [] && NoChar(p, '\n')
    ensures p <= Join(ls, "\n") ==> p <= ls[0]
  {
    if |ls| > 1 {
      JoinCons(ls[0], ls[1..], "\n");
      assert ls == [ls[0]] + ls[1..];
      PrefixBeforeChar(p, ls[0], '\n', Join(ls[1..], "\n"));
    }
  }

  lemma {:induction false} ParentsOfConcat(a: seq<string>, b: seq<string>)
    ensures ParentsOf(a + b) == ParentsOf(a) + ParentsOf(b)
  {
    if a == [] {
      assert a + b == b;
    } else {
      assert (a + b)[0] == a[0];
      assert (a + b)[1..] == a[1..] + b;
      ParentsOfConcat(a[1..], b);
    }
  }

  lemma {:induction false} MessageLinesConcat(a: seq<string>, b: seq<string>)
    ensures MessageLines(a + b) == MessageLines(a) + MessageLines(b)
  {
    if a == [] {
      assert a + b == b;
    } else {
      assert (a + b)[0] == a[0];
      assert (a + b)[1..] == a[1..] + b;
      MessageLinesConcat(a[1..], b);
    }
  }

  lemma {:induction false} ParentsOfParentLines(ps: seq<string>)
    requires forall k :: 0 <= k < |ps| ==> IsHexLine(ps[k])
    ensures ParentsOf(ParentLines(ps)) == ps
  {
    if ps != [] {
      var ls := ParentLines(ps);
      assert ls[0] == "parent " + ps[0] && ls[0][7..] == ps[0];
      assert ls[1..] == ParentLines(ps[1..]);
      ParentsOfParentLines(ps[1..]);
    }
  }

  lemma {:induction false} MessageLinesIndented(msg: seq<string>)
    ensures MessageLines(Indented(msg)) == msg
  {
    if msg != [] {
      var ls := Indented(msg);
      assert ls[0] == "    " + msg[0] && ls[0][4..] == msg[0];
      assert ls[1..] == Indented(msg[1..]);
      MessageLinesIndented(msg[1..]);
    }
  }

  lemma {:induction false} ParentsOfNone(ls: seq<string>)
    requires forall k :: 0 <= k < |ls| ==> !IsParentLine(ls[k])
    ensures ParentsOf(ls) == []
  {
    if ls != [] { ParentsOfNone(ls[1..]); }
  }

  lemma {:induction false} MessageLinesNone(ls: seq<string>)
    requires forall k :: 0 <= k < |ls| ==> !IsMessageLine(ls[k])
    ensures MessageLines(ls) == []
  {
    if ls != [] { MessageLinesNone(ls[1..]); }
  }

  /** The author pattern reads the name and e-mail of a formatted author header. */
  lemma {:induction false} AuthorAtFormatted(name: string, email: string, after: string)
    requires name != [] && NoChar(name, '<') && email != [] && NoChar(email, '>')
    ensures AuthorAt("author " + name + " <" + email + ">" + after) == Some(Author(name, email))
  {
    var t := "author " + name + " <" + email + ">" + after;
    var k := |name| + 1;
    AuthorOpen(name, email + ">" + after);
    assert t == "author " + name + " <" + (email + ">" + after);
    var s := t[7..][k + 1..];
    AuthorClose(s, email, after);
    assert t[7..][k + 1..k + 1 + |email|] == s[..|email|];
    AuthorAtOf(t, k, |email|);
  }

  /** After `author `, the name ends right before ` <`. */
  lemma {:induction false} AuthorOpen(name: string, rest: string)
    requires name != [] && NoChar(name, '<')
    ensures var t := "author " + name + " <" + rest;
      && "author " <= t && t[7..][|name|] == ' ' && t[7..][..|name|] == name
      && IndexOf(t[7..], '<') == Some(|name| + 1) && t[7..][|name| + 2..] == rest
  {
    var t := "author " + name + " <" + rest;
    var r := t[7..];
    assert r == (name + " ") + ['<'] + rest;
    NoCharConcat(name, " ", '<');
    IndexOfAt(name + " ", '<', rest);
  }

  /** The e-mail ends at the first `>`. */
  lemma {:induction false} AuthorClose(s: string, email: string, after: string)
    requires s == email + ">" + after && NoChar(email, '>')
    ensures IndexOf(s, '>') == Some(|email|) && s[..|email|] == email
  {
    IndexOfAt(email, '>', after);
  }

  /** The author pattern, once the `<` and the `>` are found. */
  lemma {:induction false} AuthorAtOf(t: string, k: nat, m: nat)
    requires "author " <= t
    requires IndexOf(t[7..], '<') == Some(k) && k >= 2 && t[7..][k - 1] == ' '
    requires IndexOf(t[7..][k + 1..], '>') == Some(m) && m > 0
    ensures AuthorAt(t) == Some(Author(t[7..][..k - 1], t[7..][k + 1..k + 1 + m]))
  {
  }

  /** The lines of a header before the author line. */
  function Front(f: CommitFields): seq<string>
  {
    [f.id, "tree " + f.tree] + ParentLines(f.parents)
  }

  /** The author, committer and blank lines. */
  function Middle(f: CommitFields): seq<string>
  {
    ["author " + AuthorText(f.author) + " " + f.authorDate, "committer " + f.committer, ""]
  }

  lemma {:induction false} HeaderLinesParts(f: CommitFields)
    ensures HeaderLines(f) == Front(f) + Middle(f) + Indented(f.message)
  {
  }

  /** Every line before the author line starts with a hex digit, `t` or `p`. */
  lemma {:induction false} FrontLines(f: CommitFields)
    requires WellFormed(f)
    ensures forall k :: 0 <= k < |Front(f)| ==> Front(f)[k] != [] && IsFrontStart(Front(f)[k][0])
  {
    var fr := Front(f);
    forall k | 0 <= k < |fr| ensures fr[k] != [] && IsFrontStart(fr[k][0]) {
      if k == 1 {
        assert fr[k] == "tree " + f.tree;
      } else if k >= 2 {
        assert fr[k] == "parent " + f.parents[k - 2];
      }
    }
  }

  predicate IsFrontStart(c: char) { IsHexChar(c) || c == 't' || c == 'p' }

  lemma {:induction false} HeaderLinesRead(f: CommitFields)
    requires WellFormed(f)
    ensures Lines(CommitHeader(Join(HeaderLines(f), "\n"))) == HeaderLines(f)
  {
    HeaderLinesNoNewline(f);
    SplitJoin(HeaderLines(f), '\n');
  }

  lemma {:induction false} IdAndTree(f: CommitFields)
    requires WellFormed(f)
    ensures FirstIndex(HeaderLines(f), IsHexLine) == Some(0)
    ensures FirstIndex(HeaderLines(f), IsTreeLine) == Some(1)
  {
    var ls := HeaderLines(f);
    assert ls[0] == f.id;
    assert !IsTreeLine(ls[0]) by { assert IsHexChar(f.id[0]); }
    assert ls[1] == "tree " + f.tree;
    assert FirstIndex(ls, IsTreeLine, 1) == Some(1);
  }

  lemma {:induction false} ParentsOfHeader(f: CommitFields)
    requires WellFormed(f)
    ensures ParentsOf(HeaderLines(f)) == f.parents
  {
    var front := [f.id, "tree " + f.tree];
    assert !IsParentLine(f.id) by { assert IsHexChar(f.id[0]); }
    assert front[1][0] == 't';
    assert forall k :: 0 <= k < |front| ==> !IsParentLine(front[k]);
    var mid := Middle(f);
    assert forall k :: 0 <= k < |mid| ==> !IsParentLine(mid[k]) by {
      assert mid[0][0] == 'a' && mid[1][0] == 'c' && mid[2] == [];
    }
    var ind := Indented(f.message);
    assert forall k :: 0 <= k < |ind| ==> !IsParentLine(ind[k]) by {
      forall k | 0 <= k < |ind| ensures !IsParentLine(ind[k]) { assert ind[k][0] == ' '; }
    }
    ParentsOfNone(front);
    ParentsOfNone(mid);
    ParentsOfNone(ind);
    ParentsOfParentLines(f.parents);
    ParentsOfConcat(front, ParentLines(f.parents));
    ParentsOfConcat(Front(f), mid);
    ParentsOfConcat(Front(f) + mid, ind);
    HeaderLinesParts(f);
  }

  lemma {:induction false} MessageOfHeader(f: CommitFields)
    requires WellFormed(f)
    ensures MessageLines(HeaderLines(f)) == f.message
    ensures FirstIndex(HeaderLines(f), IsMessageLine)
            == if f.message == [] then None else Some(|Front(f)| + 3)
  {
    var head := Front(f) + Middle(f);
    var ls := HeaderLines(f);
    HeaderLinesParts(f);
    assert ls == head + Indented(f.message);
    FrontLines(f);
    var mid := Middle(f);
    assert mid[0][0] == 'a' && mid[1][0] == 'c' && mid[2] == [];
    forall k | 0 <= k < |head| ensures !IsMessageLine(head[k]) {
      if k < |Front(f)| {
        assert head[k] == Front(f)[k];
      } else {
        assert head[k] == mid[k - |Front(f)|];
      }
    }
    MessageLinesNone(head);
    MessageLinesConcat(head, Indented(f.message));
    MessageLinesIndented(f.message);
    assert FirstIndex(ls, IsMessageLine, |head|) == if f.message == [] then None else Some(|head|);
    FirstIndexSkip(ls, IsMessageLine, |head|);
  }

  /** Lines that fail `p` can be skipped when looking for the first one that holds. */
  lemma {:induction false} FirstIndexSkip(lines: seq<string>, p: string -> bool, i: nat)
    requires i <= |lines|
    requires forall k :: 0 <= k < i ==> !p(lines[k])
    ensures FirstIndex(lines, p) == FirstIndex(lines, p, i)
    decreases i
  {
    if i > 0 {
      FirstIndexSkip(lines, p, i - 1);
    }
  }

  lemma {:induction false} AuthorFromLineSkip(ls: seq<string>, i: nat)
    requires i <= |ls|
    requires forall k :: 0 <= k < i ==> AuthorAt(Join(ls[k..], "\n")).None?
    ensures AuthorFromLine(ls, 0) == AuthorFromLine(ls, i)
    decreases i
  {
    if i > 0 {
      AuthorFromLineSkip(ls, i - 1);
    }
  }

  /** The author pattern matches at none of the lines before the author line. */
  lemma {:induction false} FrontNotAuthor(f: CommitFields)
    requires WellFormed(f)
    ensures forall k :: 0 <= k < |Front(f)| ==> AuthorAt(Join(HeaderLines(f)[k..], "\n")).None?
  {
    var ls := HeaderLines(f);
    HeaderLinesParts(f);
    FrontLines(f);
    forall k | 0 <= k < |Front(f)| ensures AuthorAt(Join(ls[k..], "\n")).None? {
      assert ls[k] == Front(f)[k];
      assert |ls[k]| < 2 || ls[k][0] != 'a' || ls[k][1] != 'u';
      NotAuthorLine(ls, k);
    }
  }

  /** A line that does not start with `au` starts no author match. */
  lemma {:induction false} NotAuthorLine(ls: seq<string>, k: nat)
    requires k < |ls| && (|ls[k]| < 2 || ls[k][0] != 'a' || ls[k][1] != 'u')
    ensures AuthorAt(Join(ls[k..], "\n")).None?
  {
    assert ls[k..][0] == ls[k];
    PrefixOfJoin("author ", ls[k..]);
  }

  lemma {:induction false} AuthorLineRead(f: CommitFields, rest: seq<string>)
    requires WellFormed(f)
    ensures AuthorAt(Join([Middle(f)[0]] + rest, "\n")) == Some(f.author)
  {
    var after := " " + f.authorDate + (if rest == [] then "" else "\n" + Join(rest, "\n"));
    if rest != [] {
      JoinCons(Middle(f)[0], rest, "\n");
    }
    assert Join([Middle(f)[0]] + rest, "\n")
        == "author " + f.author.name + " <" + f.author.email + ">" + after;
    AuthorAtFormatted(f.author.name, f.author.email, after);
  }

  lemma {:induction false} AuthorOfHeader(f: CommitFields)
    requires WellFormed(f)
    ensures AuthorFromLine(HeaderLines(f), 0) == Some(f.author)
  {
    var ls := HeaderLines(f);
    var n := |Front(f)|;
    HeaderLinesParts(f);
    FrontNotAuthor(f);
    AuthorFromLineSkip(ls, n);
    assert ls[n..] == [Middle(f)[0]] + ls[n + 1..];
    AuthorLineRead(f, ls[n + 1..]);
  }

  /**
   * Parsing the record git prints for a commit gives back its id, tree,
   * parents, author and message.
   */
  lemma {:induction false} HeaderRoundTrip(f: CommitFields)
    requires WellFormed(f)
    ensures CommitId(CommitHeader(Join(HeaderLines(f), "\n"))) == Some(f.id)
    ensures Tree(CommitHeader(Join(HeaderLines(f), "\n"))) == Some(f.tree)
    ensures Parents(CommitHeader(Join(HeaderLines(f), "\n"))) == f.parents
    ensures AuthorOf(CommitHeader(Join(HeaderLines(f), "\n"))) == Some(f.author)
    ensures CommitMsg(CommitHeader(Join(HeaderLines(f), "\n"))) == Join(f.message, "\n")
    ensures Title(CommitHeader(Join(HeaderLines(f), "\n")))
            == if f.message == [] then None else Some(f.message[0])
  {
    HeaderLinesRead(f);
    IdAndTree(f);
    ParentsOfHeader(f);
    MessageOfHeader(f);
    AuthorOfHeader(f);
    var ls := HeaderLines(f);
    assert ls[0] == f.id && ls[1] == "tree " + f.tree;
    if f.message != [] {
      assert ls[|Front(f)| + 3] == "    " + f.message[0];
    }
  }
}
