/**
 * The texts the tool writes to GitHub: the table of contents of a stack,
 * the cross-linked PR body, the squash-merge title and message of
 * `land_pr`, and the message `strip_metadata` commits.
 */
module PrText {
  import opened Wrappers
  import opened Text
  import CommitHeaders
  import StackInfo
  import Allocator

  const TOC_TITLE: string := "Stacked PRs:"
  const ARROW: string := "__->__"
  const DELIMITER: string := "--- --- ---"

  // ---------------------------------------------------------------------------
  // Table of contents
  // ---------------------------------------------------------------------------

  /** One line of the table of contents; the arrow marks the PR the body belongs to. */
  function TocEntry(id: string, current: string): string
  {
    " * " + (if id == current then ARROW else "") + "#" + id + "\n"
  }

  /** The lines for `ids`, in the order given. */
  function TocEntries(ids: seq<string>, current: string): string
  {
    if ids == [] then "" else TocEntry(ids[0], current) + TocEntries(ids[1..], current)
  }

  /** The whole table for PR numbers listed top first. */
  function TocText(ids: seq<string>, current: string): string
  {
    TOC_TITLE + "\n" + TocEntries(ids, current) + "\n"
  }

  function Reversed<T>(s: seq<T>): (r: seq<T>)
    ensures |r| == |s| && forall i | 0 <= i < |s| :: r[i] == s[|s| - 1 - i]
  {
    if s == [] then [] else Reversed(s[1..]) + [s[0]]
  }

  /** `last(pr)` of every link, or the error of a link without a '/'. */
  function PrIds(prs: seq<string>): (r: Result<seq<string>, string>)
    ensures r.Err? <==> exists i | 0 <= i < |prs| :: NoChar(prs[i], '/')
    ensures r.Ok? ==> |r.value| == |prs| && forall i | 0 <= i < |prs| :: Allocator.Last(prs[i]) == Ok(r.value[i])
  {
    if prs == [] then Ok([])
    else match Allocator.Last(prs[0])
      case Err(e) => Err(e)
      case Ok(id) =>
        match PrIds(prs[1..])
        case Err(e) => Err(e)
        case Ok(rest) => Ok([id] + rest)
  }

  /**
   * `generate_toc`: the PR links of the stack, bottom first, listed top
   * first by number, with the arrow on the line whose number is `current`.
   */
  function GenerateToc(prs: seq<string>, current: string): (r: Result<string, string>)
    ensures r.Err? <==> exists i | 0 <= i < |prs| :: NoChar(prs[i], '/')
  {
    match PrIds(prs)
    case Err(e) => Err(e)
    case Ok(ids) => Ok(TocText(Reversed(ids), current))
  }

  // ---------------------------------------------------------------------------
  // RE_PR_TOC as a scanner
  // ---------------------------------------------------------------------------

  /** A line of a table of contents: whether it carries the arrow, and the number. */
  datatype TocItem = TocItem(current: bool, id: string)

  /** `\r?\n` at position `i`: the position after it. */
  function NewlineAt(s: string, i: nat): (r: Option<nat>)
    ensures r.Some? ==> i < r.value <= |s|
  {
    if i < |s| && s[i] == '\n' then Some(i + 1)
    else if i + 1 < |s| && s[i] == '\r' && s[i + 1] == '\n' then Some(i + 2)
    else None
  }

  /** The end of the digits from position `i` (`\d+` is greedy). */
  function DigitsEnd(s: string, i: nat): (j: nat)
    requires i <= |s|
    ensures i <= j <= |s|
    decreases |s| - i
  {
    if i < |s| && IsDigit(s[i]) then DigitsEnd(s, i + 1) else i
  }

  /** The text of `s` from `i` on starts with `t`. */
  predicate At(s: string, i: nat, t: string)
  {
    i + |t| <= |s| && s[i..i + |t|] == t
  }

  /**
   * ` \* (__->__)?#\d+\r?\n` at position `i`: the item and the position
   * after it. Neither the optional arrow nor the greedy digits can be given
   * back to make a failed match succeed, so one pass decides the match.
   */
  function ItemAt(s: string, i: nat): (r: Option<(TocItem, nat)>)
    ensures r.Some? ==> i < r.value.1 <= |s|
  {
    if At(s, i, " * ") then
      var arrow := At(s, i + 3, ARROW);
      var h := if arrow then i + 3 + |ARROW| else i + 3;
      if At(s, h, "#") then
        match NumberAt(s, h + 1)
        case None => None
        case Some(n) => Some((TocItem(arrow, n.0), n.1))
      else None
    else None
  }

  /** `\d+\r?\n` at position `j`: the digits and the position after the line break. */
  function NumberAt(s: string, j: nat): (r: Option<(string, nat)>)
    ensures r.Some? ==> j < r.value.1 <= |s|
  {
    if j > |s| then None
    else
      var d := DigitsEnd(s, j);
      if d == j then None
      else match NewlineAt(s, d)
        case None => None
        case Some(e) => Some((s[j..d], e))
  }

  /** The repeated item group from position `i`: the items and the position after them. */
  function ItemsFrom(s: string, i: nat): (r: (seq<TocItem>, nat))
    requires i <= |s|
    ensures i <= r.1 <= |s|
    decreases |s| - i
  {
    match ItemAt(s, i)
    case None => ([], i)
    case Some(m) =>
      var r := ItemsFrom(s, m.1);
      ([m.0] + r.0, r.1)
  }

  /**
   * `RE_PR_TOC` matched at the start of `s`: the items it lists and the
   * length of the match. The closing `\r?\n` cannot take a character an
   * item needs (an item starts with a space), so the greedy repetition
   * never has to give an item back.
   */
  function MatchToc(s: string): (r: Option<(seq<TocItem>, nat)>)
    ensures r.Some? ==> r.value.1 <= |s|
  {
    if !(TOC_TITLE <= s) then None
    else match NewlineAt(s, |TOC_TITLE|)
      case None => None
      case Some(p) =>
        var r := ItemsFrom(s, p);
        match NewlineAt(s, r.1)
        case None => None
        case Some(e) => Some((r.0, e))
  }

  /** The items a table for `ids` lists: each number, with the arrow where it is `current`. */
  function Items(ids: seq<string>, current: string): (r: seq<TocItem>)
    ensures |r| == |ids|
    ensures forall i | 0 <= i < |ids| :: r[i] == TocItem(ids[i] == current, ids[i])
  {
    if ids == [] then [] else [TocItem(ids[0] == current, ids[0])] + Items(ids[1..], current)
  }

  lemma {:induction false} DigitsEndOf(s: string, i: nat, d: string)
    requires At(s, i, d) && AllDigits(d)
    requires i + |d| < |s| && !IsDigit(s[i + |d|])
    ensures DigitsEnd(s, i) == i + |d|
    decreases |d|
  {
    if d != [] {
      assert s[i] == d[0];
      assert s[i + 1..i + 1 + |d[1..]|] == d[1..];
      DigitsEndOf(s, i + 1, d[1..]);
    }
  }

  lemma {:induction false} AtSplit(s: string, i: nat, a: string, b: string)
    requires At(s, i, a + b)
    ensures At(s, i, a) && At(s, i + |a|, b)
  {
    assert s[i..i + |a|] == s[i..i + |a + b|][..|a|];
    assert s[i + |a|..i + |a| + |b|] == s[i..i + |a + b|][|a|..];
  }

  /** A numeric id and a newline are matched as that number. */
  lemma {:induction false} NumberOf(s: string, j: nat, id: string)
    requires IsNumeric(id) && At(s, j, id + "\n")
    ensures NumberAt(s, j) == Some((id, j + |id| + 1))
  {
    AtSplit(s, j, id, "\n");
    var d := j + |id|;
    assert s[d] == s[d..d + 1][0];
    DigitsEndOf(s, j, id);
  }

  /** The line written for a numeric id is matched as exactly that item. */
  lemma {:induction false} MatchEntry(s: string, i: nat, id: string, current: string)
    requires IsNumeric(id) && At(s, i, TocEntry(id, current))
    ensures ItemAt(s, i) == Some((TocItem(id == current, id), i + |TocEntry(id, current)|))
  {
    var arrow := id == current;
    var a: string := if arrow then ARROW else "";
    var rest := "#" + (id + "\n");
    EntryShape(id, current);
    AtSplit(s, i, " * ", a + rest);
    AtSplit(s, i + 3, a, rest);
    AtSplit(s, i + 3 + |a|, "#", id + "\n");
    ArrowAt(s, i + 3, arrow);
    NumberOf(s, i + 3 + |a| + 1, id);
    ItemAtParts(s, i, arrow, id, i + 3 + |a| + 1 + |id| + 1);
  }

  /** The line for `id` in parts: the bullet, the optional arrow, and the number. */
  lemma {:induction false} EntryShape(id: string, current: string)
    ensures var a: string := if id == current then ARROW else "";
      && TocEntry(id, current) == " * " + (a + ("#" + (id + "\n")))
      && |TocEntry(id, current)| == 3 + |a| + 1 + |id| + 1
  {
  }

  /** After the bullet, the arrow is found exactly where it was written. */
  lemma {:induction false} ArrowAt(s: string, j: nat, arrow: bool)
    requires arrow ==> At(s, j, ARROW)
    requires !arrow ==> At(s, j, "#")
    ensures At(s, j, ARROW) == arrow
  {
    if !arrow {
      assert s[j] == s[j..j + 1][0] == '#';
    }
  }

  /** An item matched from its parts. */
  lemma {:induction false} ItemAtParts(s: string, i: nat, arrow: bool, id: string, e: nat)
    requires At(s, i, " * ") && At(s, i + 3, ARROW) == arrow
    requires At(s, if arrow then i + 3 + |ARROW| else i + 3, "#")
    requires NumberAt(s, (if arrow then i + 3 + |ARROW| else i + 3) + 1) == Some((id, e))
    ensures ItemAt(s, i) == Some((TocItem(arrow, id), e))
  {
  }

  /** Every id is numeric, stated one id at a time. */
  predicate AllNumeric(ids: seq<string>)
  {
    ids == [] || (IsNumeric(ids[0]) && AllNumeric(ids[1..]))
  }

  lemma {:induction false} AllNumericOf(ids: seq<string>)
    requires forall k | 0 <= k < |ids| :: IsNumeric(ids[k])
    ensures AllNumeric(ids)
    decreases |ids|
  {
    if ids != [] {
      NumericTail(ids);
      AllNumericOf(ids[1..]);
    }
  }

  /** The lines written for numeric ids are matched as exactly those items. */
  lemma {:induction false} MatchEntries(s: string, i: nat, ids: seq<string>, current: string)
    requires AllNumeric(ids)
    requires At(s, i, TocEntries(ids, current))
    requires ItemAt(s, i + |TocEntries(ids, current)|).None?
    ensures ItemsFrom(s, i).0 == Items(ids, current)
    ensures ItemsFrom(s, i).1 == i + |TocEntries(ids, current)|
    decreases |ids|
  {
    if ids == [] {
      ItemsFromNone(s, i);
    } else {
      var j := i + |TocEntry(ids[0], current)|;
      EntryThenEntries(s, i, ids, current);
      MatchEntries(s, j, ids[1..], current);
      ItemsStep(s, i, ids, current, j);
    }
  }

  /** The items from `i` are the first id's item followed by the items of the rest. */
  lemma {:induction false} ItemsStep(s: string, i: nat, ids: seq<string>, current: string, j: nat)
    requires ids != [] && i <= |s|
    requires ItemAt(s, i) == Some((TocItem(ids[0] == current, ids[0]), j))
    requires j <= |s| && ItemsFrom(s, j).0 == Items(ids[1..], current)
    ensures ItemsFrom(s, i).0 == Items(ids, current)
    ensures ItemsFrom(s, i).1 == ItemsFrom(s, j).1
  {
    ItemsFromSome(s, i, TocItem(ids[0] == current, ids[0]), j);
    ItemsCons(ids, current);
  }

  /** The first line of a table's entries is matched as its item, and the other lines follow it. */
  lemma {:induction false} EntryThenEntries(s: string, i: nat, ids: seq<string>, current: string)
    requires ids != [] && IsNumeric(ids[0])
    requires At(s, i, TocEntries(ids, current))
    ensures ItemAt(s, i) == Some((TocItem(ids[0] == current, ids[0]), i + |TocEntry(ids[0], current)|))
    ensures At(s, i + |TocEntry(ids[0], current)|, TocEntries(ids[1..], current))
    ensures |TocEntries(ids, current)| == |TocEntry(ids[0], current)| + |TocEntries(ids[1..], current)|
  {
    EntriesCons(ids, current);
    AtSplit(s, i, TocEntry(ids[0], current), TocEntries(ids[1..], current));
    MatchEntry(s, i, ids[0], current);
  }

  lemma {:induction false} ItemsFromNone(s: string, i: nat)
    requires i <= |s| && ItemAt(s, i).None?
    ensures ItemsFrom(s, i).0 == [] && ItemsFrom(s, i).1 == i
  {
  }

  lemma {:induction false} ItemsFromSome(s: string, i: nat, item: TocItem, j: nat)
    requires i <= |s| && ItemAt(s, i) == Some((item, j))
    ensures j <= |s|
    ensures ItemsFrom(s, i).0 == [item] + ItemsFrom(s, j).0
    ensures ItemsFrom(s, i).1 == ItemsFrom(s, j).1
  {
  }

  lemma {:induction false} EntriesCons(ids: seq<string>, current: string)
    requires ids != []
    ensures TocEntries(ids, current) == TocEntry(ids[0], current) + TocEntries(ids[1..], current)
  {
  }

  lemma {:induction false} ItemsCons(ids: seq<string>, current: string)
    requires ids != []
    ensures Items(ids, current) == [TocItem(ids[0] == current, ids[0])] + Items(ids[1..], current)
  {
  }

  lemma {:induction false} NumericTail(ids: seq<string>)
    requires ids != [] && forall k | 0 <= k < |ids| :: IsNumeric(ids[k])
    ensures forall k | 0 <= k < |ids[1..]| :: IsNumeric(ids[1..][k])
  {
    forall k | 0 <= k < |ids[1..]| ensures IsNumeric(ids[1..][k]) {
      assert ids[1..][k] == ids[k + 1];
    }
  }

  /**
   * A table written for numeric ids matches `RE_PR_TOC` as a whole and lists
   * exactly those ids, in order, with the arrow on the lines equal to `current`.
   */
  lemma {:induction false} TocMatches(ids: seq<string>, current: string)
    requires forall i | 0 <= i < |ids| :: IsNumeric(ids[i])
    ensures MatchToc(TocText(ids, current)) == Some((Items(ids, current), |TocText(ids, current)|))
  {
    var body := TocEntries(ids, current);
    var s := TocText(ids, current);
    var p := |TOC_TITLE| + 1;
    assert s == TOC_TITLE + "\n" + body + "\n";
    assert TOC_TITLE <= s;
    assert s[|TOC_TITLE|] == '\n';
    assert s[p..p + |body|] == body;
    assert s[p + |body|] == '\n';
    AllNumericOf(ids);
    MatchEntries(s, p, ids, current);
  }

  /**
   * When every link ends in a number (as `verify` makes sure before any
   * body is written), the table `generate_toc` writes matches `RE_PR_TOC`
   * completely and lists one item per entry, top entry first, with the
   * arrow on exactly the entries numbered `current`.
   */
  lemma {:induction false} GenerateTocMatches(prs: seq<string>, current: string)
    requires PrIds(prs).Ok? && forall i | 0 <= i < |prs| :: IsNumeric(PrIds(prs).value[i])
    ensures GenerateToc(prs, current).Ok?
    ensures var toc := GenerateToc(prs, current).value;
      && MatchToc(toc).Some? && MatchToc(toc).value.1 == |toc|
      && |MatchToc(toc).value.0| == |prs|
      && forall i | 0 <= i < |prs| ::
           var id := PrIds(prs).value[|prs| - 1 - i];
           MatchToc(toc).value.0[i] == TocItem(id == current, id)
  {
    var rs := Reversed(PrIds(prs).value);
    TocMatches(rs, current);
  }

  // ---------------------------------------------------------------------------
  // The cross-linked PR body
  // ---------------------------------------------------------------------------

  /** The commit message without its first line and without stack-info lines. */
  function BodyOf(msg: string): string
  {
    var lines := SplitLines(msg);
    StackInfo.Remove(if lines == [] then "" else Join(lines[1..], "\n"))
  }

  /**
   * What `--keep-body` keeps of the current PR body: the stripped body after
   * the first delimiter (all of it when there is none), left-stripped.
   */
  function KeptBody(current: string): string
  {
    LStrip(AfterDelimiter(Strip(current)))
  }

  /** `s.split(DELIMITER, 1)[-1]`: the text after the first delimiter, or all of `s` when there is none. */
  function AfterDelimiter(s: string): (u: string)
    ensures |u| <= |s| && u == s[|s| - |u|..]
  {
    match Find(s, DELIMITER)
    case None => s
    case Some(p) => s[p + |DELIMITER|..]
  }

  /**
   * The body `add_cross_links` writes: the table, the delimiter line, and
   * either the kept part of the current body or the commit's title and body.
   */
  function CrossLinkBody(toc: string, title: string, msg: string, keepBody: bool, currentBody: string): string
  {
    Join([toc, DELIMITER + "\n"]
         + (if keepBody then [KeptBody(currentBody)] else ["### " + title, "", BodyOf(msg)]), "\n")
  }

  /**
   * The body `add_cross_links` writes for the entry at `i`: fails when a
   * link has no '/' and when the commit has no message line.
   */
  function EntryBody(prs: seq<string>, i: nat, commit: CommitHeaders.CommitHeader, keepBody: bool, currentBody: string)
    : (r: Result<string, string>)
    requires i < |prs|
    ensures r.Ok? ==> forall k | 0 <= k < |prs| :: !NoChar(prs[k], '/')
    ensures r.Ok? ==> CommitHeaders.Title(commit).Some?
  {
    match Allocator.Last(prs[i])
    case Err(e) => Err(e)
    case Ok(id) =>
      match GenerateToc(prs, id)
      case Err(e) => Err(e)
      case Ok(toc) =>
        match CommitHeaders.Title(commit)
        case None => Err("commit has no title line")
        case Some(title) => Ok(CrossLinkBody(toc, title, CommitHeaders.CommitMsg(commit), keepBody, currentBody))
  }

  /** Every '-' is followed by '>': no run of dashes that could start the delimiter. */
  predicate DashesPointRight(s: string)
  {
    forall k | 0 <= k < |s| && s[k] == '-' :: k + 1 < |s| && s[k + 1] == '>'
  }

  lemma {:induction false} DashesConcat(a: string, b: string)
    requires DashesPointRight(a) && DashesPointRight(b)
    ensures DashesPointRight(a + b)
  {
    forall k | 0 <= k < |a + b| && (a + b)[k] == '-' ensures k + 1 < |a + b| && (a + b)[k + 1] == '>' {
      if k >= |a| {
        assert (a + b)[k] == b[k - |a|];
        assert (a + b)[k + 1] == b[k - |a| + 1];
      } else {
        assert (a + b)[k + 1] == a[k + 1];
      }
    }
  }

  lemma {:induction false} NumericDashes(id: string)
    requires AllDigits(id)
    ensures DashesPointRight(id)
  {
    forall k | 0 <= k < |id| ensures id[k] != '-' { assert IsDigit(id[k]); }
  }

  lemma {:induction false} EntriesDashes(ids: seq<string>, current: string)
    requires forall i | 0 <= i < |ids| :: IsNumeric(ids[i])
    ensures DashesPointRight(TocEntries(ids, current))
  {
    if ids != [] {
      var a := if ids[0] == current then ARROW else "";
      assert DashesPointRight(ARROW) by {
        assert ARROW[2] == '-' && ARROW[3] == '>';
      }
      NumericDashes(ids[0]);
      DashesConcat(" * ", a);
      DashesConcat(" * " + a, "#");
      DashesConcat(" * " + a + "#", ids[0]);
      DashesConcat(" * " + a + "#" + ids[0], "\n");
      EntriesDashes(ids[1..], current);
      DashesConcat(TocEntry(ids[0], current), TocEntries(ids[1..], current));
    }
  }

  /** A table for numeric ids cannot be mistaken for the delimiter, and starts with a letter. */
  lemma {:induction false} TocShape(ids: seq<string>, current: string)
    requires forall i | 0 <= i < |ids| :: IsNumeric(ids[i])
    ensures var t := TocText(ids, current); t != [] && !IsSpace(t[0]) && DashesPointRight(t)
  {
    EntriesDashes(ids, current);
    DashesConcat(TOC_TITLE, "\n");
    DashesConcat(TOC_TITLE + "\n", TocEntries(ids, current));
    DashesConcat(TOC_TITLE + "\n" + TocEntries(ids, current), "\n");
  }

  /** The first delimiter after a table is the one the tool wrote. */
  lemma {:induction false} DelimiterFirst(toc: string, w: string)
    requires DashesPointRight(toc)
    ensures Find(toc + "\n" + DELIMITER + w, DELIMITER) == Some(|toc| + 1)
  {
    var z := toc + "\n" + DELIMITER + w;
    var q := |toc| + 1;
    assert z[q..q + |DELIMITER|] == DELIMITER;
    forall k: nat | k < q ensures z[k] != '-' || z[k + 1] != '-' {
      if k < |toc| {
        assert z[k] == toc[k];
        if k + 1 < |toc| {
          assert z[k + 1] == toc[k + 1];
        } else {
          assert z[k + 1] == '\n';
        }
      } else {
        assert z[k] == '\n';
      }
    }
    forall k: nat | k < q ensures !OccursAt(z, DELIMITER, k) {
      if k + |DELIMITER| <= |z| {
        assert z[k..k + |DELIMITER|][0] == z[k] && z[k..k + |DELIMITER|][1] == z[k + 1];
      }
    }
    FindFirst(z, DELIMITER, q);
  }

  /** Once stripped, a body that starts with a table and a delimiter keeps what follows the delimiter. */
  lemma {:induction false} KeptBodyFrom(x: string, toc: string, r: string)
    requires DashesPointRight(toc) && Strip(x) == toc + "\n" + DELIMITER + r
    ensures KeptBody(x) == LStrip(r)
  {
    DelimiterFirst(toc, r);
    assert Strip(x)[|toc| + 1 + |DELIMITER|..] == r;
  }

  /** Stripping a body that starts with a table only strips its end. */
  lemma {:induction false} StripAfterToc(toc: string, y: string)
    requires toc != [] && !IsSpace(toc[0])
    ensures Strip(toc + "\n" + DELIMITER + "\n" + "\n" + y) == toc + "\n" + DELIMITER + RStrip("\n\n" + y)
  {
    var a := toc + "\n" + DELIMITER;
    assert toc + "\n" + DELIMITER + "\n" + "\n" + y == a + ("\n\n" + y);
    RStripAfter(a, "\n\n" + y);
    assert (a + RStrip("\n\n" + y))[0] == toc[0];
  }

  /** After the table and the delimiter, `--keep-body` keeps exactly the stripped rest. */
  lemma {:induction false} KeptBodyAfter(toc: string, y: string)
    requires toc != [] && !IsSpace(toc[0]) && DashesPointRight(toc)
    ensures KeptBody(toc + "\n" + DELIMITER + "\n" + "\n" + y) == Strip(y)
  {
    StripAfterToc(toc, y);
    KeptBodyFrom(toc + "\n" + DELIMITER + "\n" + "\n" + y, toc, RStrip("\n\n" + y));
    StripBlankLines(y);
  }

  /** Blank lines before a text disappear when it is stripped. */
  lemma {:induction false} StripBlankLines(y: string)
    ensures LStrip(RStrip("\n\n" + y)) == Strip(y)
  {
    var w := "\n\n";
    assert |w| == 2 && IsSpace(w[0]) && IsSpace(w[1]);
    StripSpaces(w, y);
  }

  /**
   * A body written without `--keep-body`, read back by a later `--keep-body`
   * submit, keeps the commit title and body that were written (up to
   * trailing whitespace).
   */
  lemma {:induction false} KeptBodyOfWritten(toc: string, title: string, msg: string, currentBody: string)
    requires toc != [] && !IsSpace(toc[0]) && DashesPointRight(toc)
    ensures KeptBody(CrossLinkBody(toc, title, msg, false, currentBody))
            == RStrip("### " + title + "\n\n" + BodyOf(msg))
  {
    WrittenBody(toc, title, msg, currentBody);
    KeptBodyAfter(toc, "### " + title + "\n\n" + BodyOf(msg));
    StripHeading(title, BodyOf(msg));
  }

  /** The body written without `--keep-body`, as one text. */
  lemma {:induction false} WrittenBody(toc: string, title: string, msg: string, currentBody: string)
    ensures CrossLinkBody(toc, title, msg, false, currentBody)
            == toc + "\n" + DELIMITER + "\n" + "\n" + ("### " + title + "\n\n" + BodyOf(msg))
  {
    assert [toc, DELIMITER + "\n"] + ["### " + title, "", BodyOf(msg)]
        == [toc, DELIMITER + "\n", "### " + title, "", BodyOf(msg)];
    WrittenShape(toc, "### " + title, BodyOf(msg));
  }

  /** A heading is only stripped at its end. */
  lemma {:induction false} StripHeading(title: string, b: string)
    ensures Strip("### " + title + "\n\n" + b) == RStrip("### " + title + "\n\n" + b)
  {
    var y := "### " + title + "\n\n" + b;
    assert y[0] == '#';
    StripSolidStart(y);
  }

  /** A text that starts with a non-space is only stripped at its end. */
  lemma {:induction false} StripSolidStart(y: string)
    requires y != [] && !IsSpace(y[0])
    ensures Strip(y) == RStrip(y)
  {
    var r := RStrip(y);
    assert r != [] && r[0] == y[0];
  }

  /** The written body, joined: the table, the delimiter, a blank line, the title, a blank line, the body. */
  lemma {:induction false} WrittenShape(toc: string, t: string, b: string)
    ensures Join([toc, DELIMITER + "\n", t, "", b], "\n")
            == toc + "\n" + DELIMITER + "\n" + "\n" + (t + "\n\n" + b)
  {
    var parts := [toc, DELIMITER + "\n", t, "", b];
    JoinCons(toc, parts[1..], "\n");
    JoinCons(DELIMITER + "\n", parts[2..], "\n");
    JoinCons(t, parts[3..], "\n");
    JoinTwo("", b, "\n");
  }

  /** The kept body, joined: the table, the delimiter, a blank line, the kept text. */
  lemma {:induction false} KeptShape(toc: string, k: string)
    ensures Join([toc, DELIMITER + "\n"] + [k], "\n") == toc + "\n" + DELIMITER + "\n" + "\n" + k
  {
    var parts := [toc, DELIMITER + "\n"] + [k];
    assert parts[1..] == [DELIMITER + "\n", k];
    JoinCons(toc, parts[1..], "\n");
    JoinTwo(DELIMITER + "\n", k, "\n");
  }

  /** What `--keep-body` keeps is already stripped on both sides. */
  lemma {:induction false} KeptBodyStripped(current: string)
    ensures Strip(KeptBody(current)) == KeptBody(current)
  {
    var r0 := RStrip(current);
    var s := Strip(current);
    SuffixEndsSolid(r0, s);
    var u := AfterDelimiter(s);
    SuffixEndsSolid(s, u);
    var k := LStrip(u);
    SuffixEndsSolid(u, k);
    RStripSolid(k);
  }

  /** Nothing to strip at the end: empty, or the last character is not a space. */
  predicate EndsSolid(x: string) { x == [] || !IsSpace(x[|x| - 1]) }

  /** A suffix of a text that ends in a non-space ends in it too. */
  lemma {:induction false} SuffixEndsSolid(x: string, y: string)
    requires EndsSolid(x) && |y| <= |x| && y == x[|x| - |y|..]
    ensures EndsSolid(y)
  {
    if y != [] {
      assert y[|y| - 1] == x[|x| - 1];
    }
  }

  /** A text with nothing to strip at its end is not changed by `rstrip`. */
  lemma {:induction false} RStripSolid(x: string)
    requires EndsSolid(x)
    ensures RStrip(x) == x
  {
  }

  /**
   * Submitting again with `--keep-body` reproduces what was kept: the body
   * the tool writes keeps the same text after the delimiter.
   */
  lemma {:induction false} KeptBodyStable(toc: string, title: string, msg: string, currentBody: string)
    requires toc != [] && !IsSpace(toc[0]) && DashesPointRight(toc)
    ensures KeptBody(CrossLinkBody(toc, title, msg, true, currentBody)) == KeptBody(currentBody)
  {
    var k := KeptBody(currentBody);
    var x := CrossLinkBody(toc, title, msg, true, currentBody);
    assert x == toc + "\n" + DELIMITER + "\n" + "\n" + k by {
      KeptShape(toc, k);
    }
    assert KeptBody(x) == Strip(k) by {
      KeptBodyAfter(toc, k);
    }
    KeptBodyStripped(currentBody);
    assert KeptBody(x) == k;
  }

  // ---------------------------------------------------------------------------
  // Landing and abandoning
  // ---------------------------------------------------------------------------

  /** The title and message of a squash merge. */
  datatype Squash = Squash(title: string, body: string)

  /**
   * The squash merge of `land_pr`: the message without stack-info lines,
   * its first line with the PR number as title, the rest as body (a single
   * space when empty). Fails when the link has no '/' or no line is left.
   */
  function SquashMessage(msg: string, prLink: string): (r: Result<Squash, string>)
    ensures r.Ok? ==> r.value.body != []
  {
    var lines := SplitLines(StackInfo.Remove(msg));
    match Allocator.Last(prLink)
    case Err(e) => Err(e)
    case Ok(id) =>
      if lines == [] then Err("list index out of range")
      else
        var body := Join(lines[1..], "\n");
        Ok(Squash(lines[0] + " (#" + id + ")", if body == "" then " " else body))
  }

  /** The commit message `strip_metadata` amends the commit with. */
  function StripMetadata(msg: string): string { StackInfo.Remove(msg) }

  /** A message whose lines are `lines`: none breaks a line, the last is not empty. */
  predicate MessageOf(msg: string, lines: seq<string>)
  {
    && |lines| >= 1 && lines[|lines| - 1] != []
    && (forall k | 0 <= k < |lines| :: NoLineBreak(lines[k]))
    && msg == Join(lines, "\n")
  }

  /** A joined text ends with its last part. */
  lemma {:induction false} JoinEndsWith(lines: seq<string>, sep: string)
    requires |lines| >= 1
    ensures var s := Join(lines, sep); var l := lines[|lines| - 1];
      |l| <= |s| && s[|s| - |l|..] == l
    decreases |lines|
  {
    if |lines| > 1 {
      JoinEndsWith(lines[1..], sep);
      assert lines[1..][|lines| - 2] == lines[|lines| - 1];
      assert Join(lines, sep) == lines[0] + sep + Join(lines[1..], sep);
    }
  }

  /** A joined text whose last part is not empty ends with that part's last character. */
  lemma {:induction false} JoinLast(lines: seq<string>, sep: string)
    requires |lines| >= 1 && lines[|lines| - 1] != []
    ensures var s := Join(lines, sep); s != [] && s[|s| - 1] == lines[|lines| - 1][|lines[|lines| - 1]| - 1]
  {
    JoinEndsWith(lines, sep);
    var s := Join(lines, sep);
    var l := lines[|lines| - 1];
    assert s[|s| - 1] == s[|s| - |l|..][|l| - 1];
  }

  /**
   * Landing a commit that `add_or_update_metadata` amended: the squash title
   * is the original first line with the PR number, and the body is the
   * rest of the original message, without the stack-info line.
   */
  lemma {:induction false} SquashOfAmended(msg: string, lines: seq<string>, pr: string, head: string)
    requires MessageOf(msg, lines) && StackInfo.ReadMetadata(msg).None?
    requires pr != [] && head != [] && NoChar(pr, '\n') && NoChar(head, '\n')
    ensures SquashMessage(StackInfo.Append(msg, pr, head), pr).Ok? <==> !NoChar(pr, '/')
    ensures SquashMessage(StackInfo.Append(msg, pr, head), pr).Ok? ==>
      var id := Allocator.Last(pr).value;
      var body := Join(lines[1..], "\n");
      SquashMessage(StackInfo.Append(msg, pr, head), pr).value
        == Squash(lines[0] + " (#" + id + ")", if body == "" then " " else body)
  {
    StackInfo.RemoveAppended(msg, pr, head);
    JoinLast(lines, "\n");
    SplitLinesAppendNewline(msg);
    SplitLinesJoin(lines);
  }

  /** `strip_metadata` of an amended message gives back the message and one newline, with no metadata left. */
  lemma {:induction false} StripMetadataOfAmended(msg: string, pr: string, head: string)
    requires StackInfo.ReadMetadata(msg).None?
    requires pr != [] && head != [] && NoChar(pr, '\n') && NoChar(head, '\n')
    ensures StripMetadata(StackInfo.Append(msg, pr, head)) == msg + "\n"
    ensures StackInfo.ReadMetadata(StripMetadata(StackInfo.Append(msg, pr, head))).None?
  {
    StackInfo.RemoveAppended(msg, pr, head);
  }

  /**
   * The PR body of an amended commit is the message after its first line,
   * without the stack-info line: nothing when the message was one line.
   */
  lemma {:induction false} BodyOfAmended(lines: seq<string>, pr: string, head: string)
    requires MessageOf(Join(lines, "\n"), lines)
    requires |lines| >= 2 ==> StackInfo.ReadMetadata(Join(lines[1..], "\n")).None?
    requires pr != [] && head != [] && NoLineBreak(pr) && NoLineBreak(head)
    ensures BodyOf(StackInfo.Append(Join(lines, "\n"), pr, head))
            == if |lines| == 1 then "" else Join(lines[1..], "\n") + "\n"
  {
    var rest := lines[1..];
    BodyOfSplit(lines, pr, head);
    RemoveAmendedRest(rest, pr, head);
  }

  /** The body of an amended message is what remains of its lines after the first, with the metadata removed. */
  lemma {:induction false} BodyOfSplit(lines: seq<string>, pr: string, head: string)
    requires MessageOf(Join(lines, "\n"), lines)
    requires NoLineBreak(pr) && NoLineBreak(head)
    ensures BodyOf(StackInfo.Append(Join(lines, "\n"), pr, head))
            == StackInfo.Remove(Join(lines[1..] + ["", StackInfo.Line(pr, head)], "\n"))
  {
    SplitAmended(lines, pr, head);
    assert (lines + ["", StackInfo.Line(pr, head)])[1..] == lines[1..] + ["", StackInfo.Line(pr, head)];
  }

  /**
   * The lines after the first, a blank line and the metadata line: removing
   * the metadata leaves those lines and a newline, or nothing when there
   * were none.
   */
  lemma {:induction false} RemoveAmendedRest(rest: seq<string>, pr: string, head: string)
    requires rest != [] ==> StackInfo.ReadMetadata(Join(rest, "\n")).None?
    requires pr != [] && head != [] && NoLineBreak(pr) && NoLineBreak(head)
    ensures StackInfo.Remove(Join(rest + ["", StackInfo.Line(pr, head)], "\n"))
            == if rest == [] then "" else Join(rest, "\n") + "\n"
  {
    var l := StackInfo.Line(pr, head);
    if rest == [] {
      assert Join(rest + ["", l], "\n") == "" + "\n" + l by {
        assert rest + ["", l] == ["", l];
        JoinTwo("", l, "\n");
      }
      StackInfo.RemoveLastLine("", pr, head);
    } else {
      var m := Join(rest, "\n");
      assert Join(rest + ["", l], "\n") == StackInfo.Append(m, pr, head) by {
        JoinAppend(rest, "", l);
      }
      StackInfo.RemoveAppended(m, pr, head);
    }
  }

  /** The lines of an amended message: the original lines, a blank line and the stack-info line. */
  lemma {:induction false} SplitAmended(lines: seq<string>, pr: string, head: string)
    requires MessageOf(Join(lines, "\n"), lines)
    requires NoLineBreak(pr) && NoLineBreak(head)
    ensures SplitLines(StackInfo.Append(Join(lines, "\n"), pr, head)) == lines + ["", StackInfo.Line(pr, head)]
  {
    var l := StackInfo.Line(pr, head);
    var all := lines + ["", l];
    assert NoLineBreak(l) && l != [] by {
      LineBreakFree(pr, head);
      assert l[..|StackInfo.PREFIX|] == StackInfo.PREFIX;
    }
    assert forall k | 0 <= k < |all| :: NoLineBreak(all[k]) by {
      forall k | 0 <= k < |all| ensures NoLineBreak(all[k]) {
        if k < |lines| { assert all[k] == lines[k]; }
      }
    }
    assert StackInfo.Append(Join(lines, "\n"), pr, head) == Join(all, "\n") by {
      JoinAppend(lines, "", l);
    }
    SplitLinesJoin(all);
  }

  lemma {:induction false} LineBreakFree(pr: string, head: string)
    requires NoLineBreak(pr) && NoLineBreak(head)
    ensures NoLineBreak(StackInfo.Line(pr, head))
  {
    var l := StackInfo.Line(pr, head);
    assert l == StackInfo.PREFIX + pr + StackInfo.SEP + head;
    forall k | 0 <= k < |l| ensures !IsLineBreak(l[k]) {
      if k < |StackInfo.PREFIX| {
        assert l[k] == StackInfo.PREFIX[k];
      } else if k < |StackInfo.PREFIX| + |pr| {
        assert l[k] == pr[k - |StackInfo.PREFIX|];
      } else if k < |StackInfo.PREFIX| + |pr| + |StackInfo.SEP| {
        assert l[k] == StackInfo.SEP[k - |StackInfo.PREFIX| - |pr|];
      } else {
        assert l[k] == head[k - |StackInfo.PREFIX| - |pr| - |StackInfo.SEP|];
      }
    }
  }

  /** Joining with two more lines appends a blank line and the last one. */
  lemma {:induction false} JoinAppend(lines: seq<string>, b: string, c: string)
    requires |lines| >= 1
    ensures Join(lines + [b, c], "\n") == Join(lines, "\n") + "\n" + b + "\n" + c
  {
    if |lines| == 1 {
      assert lines + [b, c] == [lines[0], b, c];
      JoinCons(lines[0], [b, c], "\n");
      JoinTwo(b, c, "\n");
    } else {
      assert (lines + [b, c])[1..] == lines[1..] + [b, c];
      JoinAppend(lines[1..], b, c);
    }
  }
}
