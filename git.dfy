/**
 * The helpers of `git.py` the stack commands rely on: the SHA test, the
 * return-code conventions of `git show-ref` and `git rev-parse`, the
 * grouping of `git status --porcelain`, the login in the answer of
 * `gh api graphql`, and the files and top-level directories of
 * `git diff --name-only`. No command is run: its return code and its
 * standard output are passed in.
 */
module Git {
  import opened Wrappers
  import opened Text
  import CommitHeaders

  /** What a failed command becomes. */
  datatype Failure =
    | GitError(message: string)
    /** A `subprocess.CalledProcessError` passed on unchanged. */
    | CalledProcessError(returncode: int)

  /** A finished `git` or `gh` process: its return code and its output. */
  datatype Completed = Completed(returncode: int, stdout: string)

  const NotInRepo := "Not inside a valid git repository."

  /**
   * `get_command_output`: a failing command raises `CalledProcessError`
   * with its return code; otherwise its output, right-stripped.
   */
  function CommandOutput(proc: Completed): (r: Result<string, int>)
    ensures r.Err? <==> proc.returncode != 0
    ensures r.Err? ==> r.error == proc.returncode
    ensures r.Ok? ==> r.value <= proc.stdout && (r.value == [] || !IsSpace(r.value[|r.value| - 1]))
    ensures r.Ok? ==> forall k | |r.value| <= k < |proc.stdout| :: IsSpace(proc.stdout[k])
  {
    if proc.returncode != 0 then Err(proc.returncode) else Ok(RStrip(proc.stdout))
  }

  /**
   * The `except` clause shared by `get_current_branch_name` and
   * `get_uncommitted_changes`: return code 128 means there is no
   * repository, any other failure is raised again.
   */
  function CommandError(returncode: int): (f: Failure)
    ensures f.GitError? <==> returncode == 128
    ensures f.GitError? ==> f.message == NotInRepo
    ensures f.CalledProcessError? ==> f.returncode == returncode
  {
    if returncode == 128 then GitError(NotInRepo) else CalledProcessError(returncode)
  }

  // ---------------------------------------------------------------------------
  // Commit ids
  // ---------------------------------------------------------------------------

  /** `all(c in digits for c in s)`, one character after the other. */
  function AllHex(s: string): bool
  {
    s == [] || (CommitHeaders.IsHexChar(s[0]) && AllHex(s[1..]))
  }

  lemma {:induction false} AllHexEach(s: string)
    ensures AllHex(s) <==> forall k | 0 <= k < |s| :: CommitHeaders.IsHexChar(s[k])
  {
    if s != [] {
      AllHexEach(s[1..]);
      assert forall k | 1 <= k < |s| :: s[k] == s[1..][k - 1];
    }
  }

  /** `is_full_git_sha`: forty lowercase hexadecimal digits. */
  function IsFullGitSha(s: string): (b: bool)
    ensures b <==> |s| == 40 && forall k | 0 <= k < |s| :: CommitHeaders.IsHexChar(s[k])
  {
    AllHexEach(s);
    |s| == 40 && AllHex(s)
  }

  // ---------------------------------------------------------------------------
  // Return codes
  // ---------------------------------------------------------------------------

  /** `branch_exists`, from the return code of `git show-ref -q refs/heads/<branch>`. */
  function BranchExists(returncode: int): (r: Result<bool, Failure>)
    ensures r.Ok? <==> returncode == 0 || returncode == 1
    ensures r.Ok? ==> (r.value <==> returncode == 0)
    ensures r.Err? ==> r.error == GitError(NotInRepo)
  {
    if returncode == 0 then Ok(true)
    else if returncode == 1 then Ok(false)
    else Err(GitError(NotInRepo))
  }

  /** `get_current_branch_name`, from `git rev-parse --abbrev-ref HEAD`. */
  function CurrentBranchName(proc: Completed): (r: Result<string, Failure>)
    ensures r.Ok? <==> proc.returncode == 0
    ensures r.Err? ==> r.error == CommandError(proc.returncode)
    ensures r.Ok? ==> |r.value| <= |proc.stdout|
    ensures r.Ok? && r.value != [] ==> !IsSpace(r.value[0]) && !IsSpace(r.value[|r.value| - 1])
  {
    match CommandOutput(proc)
    case Err(code) => Err(CommandError(code))
    case Ok(out) =>
      StripEnds(out);
      Ok(Strip(out))
  }

  /** `strip()` leaves no white space at either end. */
  lemma {:induction false} StripEnds(s: string)
    ensures |Strip(s)| <= |s|
    ensures Strip(s) != [] ==> !IsSpace(Strip(s)[0]) && !IsSpace(Strip(s)[|Strip(s)| - 1])
  {
    var r := RStrip(s);
    var t := LStrip(r);
    if t != [] {
      assert t[|t| - 1] == r[|r| - 1];
    }
  }

  // ---------------------------------------------------------------------------
  // Uncommitted changes
  // ---------------------------------------------------------------------------

  /** `line[:2]`: the two status columns of a porcelain line. */
  function StatusOf(line: string): (s: string)
    ensures |s| <= 2 && s <= line
  {
    if |line| < 2 then line else line[..2]
  }

  /** `line[3:]`: the path of a porcelain line. */
  function PathOf(line: string): (p: string)
    ensures |line| >= 3 ==> line == line[..3] + p
    ensures |line| < 3 ==> p == []
  {
    if |line| < 3 then [] else line[3..]
  }

  /** The paths of the lines with status `key`, in the order of the lines. */
  function Group(lines: seq<string>, key: string): (g: seq<string>)
    ensures |g| <= |lines|
  {
    if lines == [] then []
    else
      var last := lines[|lines| - 1];
      Group(lines[..|lines| - 1], key) + if StatusOf(last) == key then [PathOf(last)] else []
  }

  /** Some line has status `key`. */
  predicate HasStatus(lines: seq<string>, key: string)
  {
    exists i | 0 <= i < |lines| :: StatusOf(lines[i]) == key
  }

  /**
   * The dictionary `get_uncommitted_changes` builds from `lines`: one key
   * per status that occurs, holding the paths of its lines in order.
   */
  ghost predicate Grouped(changes: map<string, seq<string>>, lines: seq<string>)
  {
    && (forall key :: key in changes <==> HasStatus(lines, key))
    && (forall key | key in changes :: changes[key] == Group(lines, key))
  }

  /** Without a line of status `key` the group is empty. */
  lemma {:induction false} GroupAbsent(lines: seq<string>, key: string)
    requires !HasStatus(lines, key)
    ensures Group(lines, key) == []
  {
    if lines != [] {
      var init := lines[..|lines| - 1];
      assert !HasStatus(init, key) by {
        forall i | 0 <= i < |init|
          ensures StatusOf(init[i]) != key
        {
          assert init[i] == lines[i];
        }
      }
      GroupAbsent(init, key);
    }
  }

  /** One more line joins its own group and no other. */
  lemma {:induction false} GroupSnoc(lines: seq<string>, line: string, key: string)
    ensures Group(lines + [line], key) == Group(lines, key) + if StatusOf(line) == key then [PathOf(line)] else []
    ensures HasStatus(lines + [line], key) <==> HasStatus(lines, key) || StatusOf(line) == key
  {
    var s := lines + [line];
    assert s[..|s| - 1] == lines;
    if HasStatus(s, key) && StatusOf(line) != key {
      var i :| 0 <= i < |s| && StatusOf(s[i]) == key;
      assert s[i] == lines[i];
    }
    if HasStatus(lines, key) {
      var i :| 0 <= i < |lines| && StatusOf(lines[i]) == key;
      assert s[i] == lines[i];
    }
    if StatusOf(line) == key {
      assert s[|lines|] == line;
    }
  }

  /** `changes.setdefault(line[:2], []).append(line[3:])` keeps the grouping. */
  lemma {:induction false} GroupedStep(changes: map<string, seq<string>>, lines: seq<string>, i: nat, group: seq<string>)
    requires i < |lines| && Grouped(changes, lines[..i])
    requires group == if StatusOf(lines[i]) in changes then changes[StatusOf(lines[i])] else []
    ensures Grouped(changes[StatusOf(lines[i]) := group + [PathOf(lines[i])]], lines[..i + 1])
  {
    assert lines[..i + 1] == lines[..i] + [lines[i]];
    GroupedSnoc(changes, lines[..i], lines[i], group);
  }

  /** The grouping of the lines, extended by one more line. */
  lemma {:induction false} GroupedSnoc(changes: map<string, seq<string>>, lines: seq<string>, line: string, group: seq<string>)
    requires Grouped(changes, lines)
    requires group == if StatusOf(line) in changes then changes[StatusOf(line)] else []
    ensures Grouped(changes[StatusOf(line) := group + [PathOf(line)]], lines + [line])
  {
    var key := StatusOf(line);
    var next := changes[key := group + [PathOf(line)]];
    if key !in changes {
      GroupAbsent(lines, key);
    }
    forall k
      ensures k in next <==> HasStatus(lines + [line], k)
      ensures k in next ==> next[k] == Group(lines + [line], k)
    {
      GroupSnoc(lines, line, k);
    }
  }

  /** The loop of `get_uncommitted_changes`, filling the dictionary line by line. */
  method GroupLines(lines: seq<string>) returns (changes: map<string, seq<string>>)
    ensures Grouped(changes, lines)
  {
    changes := map[];
    for i := 0 to |lines|
      invariant Grouped(changes, lines[..i])
    {
      var key := StatusOf(lines[i]);
      var group := if key in changes then changes[key] else [];
      GroupedStep(changes, lines, i, group);
      changes := changes[key := group + [PathOf(lines[i])]];
    }
    assert lines[..|lines|] == lines;
  }

  /**
   * `get_uncommitted_changes` on the result of `git status --porcelain`:
   * the lines are grouped by status; a failure of the command is mapped
   * as `CommandError` says.
   */
  method UncommittedChanges(proc: Completed) returns (r: Result<map<string, seq<string>>, Failure>)
    ensures proc.returncode != 0 ==> r == Err(CommandError(proc.returncode))
    ensures proc.returncode == 0 ==> r.Ok? && Grouped(r.value, SplitLines(RStrip(proc.stdout)))
  {
    var out := CommandOutput(proc);
    if out.Err? {
      return Err(CommandError(out.error));
    }
    var changes := GroupLines(SplitLines(out.value));
    return Ok(changes);
  }

  /** Groups of consecutive runs of lines concatenate. */
  lemma {:induction false} GroupConcat(a: seq<string>, b: seq<string>, key: string)
    ensures Group(a + b, key) == Group(a, key) + Group(b, key)
    decreases |b|
  {
    if b == [] {
      assert a + b == a;
    } else {
      var init := b[..|b| - 1];
      var last := b[|b| - 1];
      assert a + b == (a + init) + [last];
      assert b == init + [last];
      GroupSnoc(a + init, last, key);
      GroupSnoc(init, last, key);
      GroupConcat(a, init, key);
    }
  }

  /**
   * Every line lands in exactly one group: the one of its status, right
   * after the lines of that status before it.
   */
  lemma {:induction false} LineInItsGroup(lines: seq<string>, i: nat, key: string)
    requires i < |lines|
    ensures var before := |Group(lines[..i], key)|;
      && |Group(lines[..i + 1], key)| == before + (if StatusOf(lines[i]) == key then 1 else 0)
      && (StatusOf(lines[i]) == key ==> before < |Group(lines, key)| && Group(lines, key)[before] == PathOf(lines[i]))
  {
    assert lines[..i + 1] == lines[..i] + [lines[i]];
    GroupSnoc(lines[..i], lines[i], key);
    assert lines == lines[..i + 1] + lines[i + 1..];
    GroupConcat(lines[..i + 1], lines[i + 1..], key);
  }

  /** `is_repo_clean`: every uncommitted change is an untracked file. */
  function IsRepoClean(changes: map<string, seq<string>>): (clean: bool)
    ensures clean <==> forall key | key in changes :: key == "??"
  {
    var tracked := changes - {"??"};
    assert forall key | key in changes && key != "??" :: key in tracked;
    tracked == map[]
  }

  /** The repository is clean exactly when every porcelain line is `??`. */
  lemma {:induction false} CleanIffUntracked(changes: map<string, seq<string>>, lines: seq<string>)
    requires Grouped(changes, lines)
    ensures IsRepoClean(changes) <==> forall i | 0 <= i < |lines| :: StatusOf(lines[i]) == "??"
  {
    if !IsRepoClean(changes) {
      var key :| key in changes && key != "??";
      var i :| 0 <= i < |lines| && StatusOf(lines[i]) == key;
    } else {
      forall i | 0 <= i < |lines|
        ensures StatusOf(lines[i]) == "??"
      {
        assert HasStatus(lines, StatusOf(lines[i]));
      }
    }
  }

  // ---------------------------------------------------------------------------
  // The user name
  // ---------------------------------------------------------------------------

  /** The literal that opens the login in `"login":"(.*?)"`. */
  const Login := "\"login\":\""

  /**
   * Where the lazy `(.*?)"` starting at `i` ends: the first `"`, provided
   * no line feed (which `.` does not match) comes before it.
   */
  function ValueEnd(q: string, i: nat): (r: Option<nat>)
    requires i <= |q|
    ensures r.Some? ==> i <= r.value < |q| && q[r.value] == '"'
                        && NoChar(q[i..r.value], '"') && NoChar(q[i..r.value], '\n')
    decreases |q| - i
  {
    if i == |q| then None
    else if q[i] == '"' then Some(i)
    else if q[i] == '\n' then None
    else ValueEnd(q, i + 1)
  }

  lemma {:induction false} ValueEndAt(q: string, i: nat, j: nat)
    requires i <= j < |q| && q[j] == '"'
    requires NoChar(q[i..j], '"') && NoChar(q[i..j], '\n')
    ensures ValueEnd(q, i) == Some(j)
    decreases j - i
  {
    if i < j {
      assert q[i] == q[i..j][0];
      assert q[i + 1..j] == q[i..j][1..];
      ValueEndAt(q, i + 1, j);
    }
  }

  /** The login a match of the pattern starting at `p` captures. */
  function MatchAt(q: string, p: nat): (r: Option<string>)
    ensures r.Some? ==> OccursAt(q, Login, p) && NoChar(r.value, '"') && NoChar(r.value, '\n')
  {
    if !OccursAt(q, Login, p) then None
    else match ValueEnd(q, p + |Login|)
      case None => None
      case Some(j) => Some(q[p + |Login|..j])
  }

  /** `re.search` from position `from`: the leftmost match. */
  function SearchFrom(q: string, from: nat): (r: Option<string>)
    ensures r.Some? ==> exists p: nat | from <= p :: MatchAt(q, p) == r && forall p': nat | from <= p' < p :: MatchAt(q, p').None?
    ensures r.None? ==> forall p: nat | from <= p :: MatchAt(q, p).None?
    decreases |q| - from
  {
    if from + |Login| > |q| then None
    else match MatchAt(q, from)
      case Some(v) => Some(v)
      case None => SearchFrom(q, from + 1)
  }

  /** The leftmost match is the one `re.search` reports. */
  lemma {:induction false} SearchFirst(q: string, from: nat, p: nat)
    requires from <= p && MatchAt(q, p).Some?
    requires forall p': nat | from <= p' < p :: MatchAt(q, p').None?
    ensures SearchFrom(q, from) == MatchAt(q, p)
    decreases p - from
  {
    if from < p {
      SearchFirst(q, from + 1, p);
    }
  }

  /** `get_gh_username`, on the answer of `gh api graphql`. */
  function GhUsername(answer: string): (r: Result<string, Failure>)
    ensures r.Err? <==> forall p: nat :: MatchAt(answer, p).None?
    ensures r.Err? ==> r.error == GitError("Unable to find current github user name")
    ensures r.Ok? ==> NoChar(r.value, '"') && NoChar(r.value, '\n')
  {
    match SearchFrom(answer, 0)
    case None => Err(GitError("Unable to find current github user name"))
    case Some(v) => Ok(v)
  }

  /**
   * A login without quotes or line feeds, after a text that holds no
   * earlier `"login":"`, is the one reported.
   */
  lemma {:induction false} UsernameRoundTrip(before: string, user: string, after: string)
    requires NoChar(user, '"') && NoChar(user, '\n')
    requires forall p: nat | p < |before| :: !OccursAt(before + Login, Login, p)
    ensures GhUsername(before + Login + user + "\"" + after) == Ok(user)
  {
    var q := before + Login + user + "\"" + after;
    var i := |before| + |Login|;
    var j := i + |user|;
    assert q[..j + 1] == before + Login + user + "\"";
    assert q[i..j] == user;
    assert OccursAt(q, Login, |before|);
    ValueEndAt(q, i, j);
    forall p: nat | p < |before|
      ensures MatchAt(q, p).None?
    {
      var prefix := before + Login;
      assert q[..|prefix|] == prefix;
      assert p + |Login| <= |prefix|;
      assert q[p..p + |Login|] == prefix[p..p + |Login|];
      assert !OccursAt(prefix, Login, p);
      assert !OccursAt(q, Login, p);
    }
    SearchFirst(q, 0, |before|);
  }

  // ---------------------------------------------------------------------------
  // Changed files and directories
  // ---------------------------------------------------------------------------

  /** The command `get_changed_files` runs; the base defaults to `main`. */
  function DiffCommand(base: Option<string>): (cmd: seq<string>)
    ensures |cmd| == 5 && cmd[..3] == ["git", "diff", "--name-only"] && cmd[4] == "HEAD"
    ensures base.None? ==> cmd[3] == "main"
    ensures base.Some? ==> cmd[3] == base.value
  {
    ["git", "diff", "--name-only", if base.Some? then base.value else "main", "HEAD"]
  }

  /** `get_changed_files`: the text `get_command_output` returns, split at line feeds. */
  function ChangedFiles(out: string): (files: seq<string>)
    ensures |files| >= 1 && forall k | 0 <= k < |files| :: NoChar(files[k], '\n')
    ensures Join(files, "\n") == out
  {
    JoinSplit(out, '\n');
    Split(out, '\n')
  }

  /** File names without line feeds are read back as written. */
  lemma {:induction false} ChangedFilesJoin(files: seq<string>)
    requires |files| >= 1 && forall k | 0 <= k < |files| :: NoChar(files[k], '\n')
    ensures ChangedFiles(Join(files, "\n")) == files
  {
    SplitJoin(files, '\n');
  }

  /** The anchor of a POSIX path: `//` for exactly two leading slashes, `/` for one or more. */
  function Root(path: string): (r: string)
    ensures r == "" || r == "/" || r == "//"
    ensures r == "" <==> path == [] || path[0] != '/'
  {
    if path == [] || path[0] != '/' then ""
    else if |path| >= 2 && path[1] == '/' && (|path| == 2 || path[2] != '/') then "//"
    else "/"
  }

  /** The names between slashes that `pathlib` keeps: not empty and not `.`. */
  function Components(names: seq<string>): (cs: seq<string>)
    ensures forall k | 0 <= k < |cs| :: cs[k] in names && cs[k] != "" && cs[k] != "."
    ensures forall k | 0 <= k < |names| && names[k] != "" && names[k] != "." :: names[k] in cs
  {
    if names == [] then []
    else
      var rest := Components(names[1..]);
      assert forall k | 1 <= k < |names| :: names[k] == names[1..][k - 1];
      (if names[0] == "" || names[0] == "." then [] else [names[0]]) + rest
  }

  /** `Path(path).parts`. */
  function Parts(path: string): (ps: seq<string>)
    ensures Root(path) != "" ==> ps != [] && ps[0] == Root(path)
    ensures forall k | 0 <= k < |ps| :: ps[k] != ""
  {
    (if Root(path) == "" then [] else [Root(path)]) + Components(Split(path, '/'))
  }

  /** A relative path's first part is its first name. */
  lemma {:induction false} TopOfRelative(dir: string, rest: string)
    requires dir != "" && dir != "." && NoChar(dir, '/')
    ensures Parts(dir + "/" + rest)[0] == dir
  {
    var path := dir + "/" + rest;
    assert path[0] == dir[0];
    assert path == dir + ['/'] + rest;
    IndexOfAt(dir, '/', rest);
    assert path[|dir| + 1..] == rest;
    assert Split(path, '/')[0] == dir;
  }

  /** Each part `Path.parts` yields for a relative path is a single name. */
  lemma {:induction false} PartIsName(path: string, k: nat)
    requires k < |Parts(path)| && Root(path) == ""
    ensures Parts(path)[k] != "" && Parts(path)[k] != "." && NoChar(Parts(path)[k], '/')
  {
    var names := Split(path, '/');
    var cs := Components(names);
    assert Parts(path) == cs;
    var j :| 0 <= j < |names| && names[j] == cs[k];
  }

  /**
   * `get_changed_dirs` as written: `file.parts[0]` raises `IndexError`
   * for a name with no parts, the empty one above all.
   */
  function ChangedDirs(out: string): (r: Result<set<string>, string>)
    ensures var files := ChangedFiles(out);
      r.Err? <==> exists k | 0 <= k < |files| :: Parts(files[k]) == []
  {
    var files := ChangedFiles(out);
    if exists k | 0 <= k < |files| :: Parts(files[k]) == [] then Err("tuple index out of range")
    else Ok(set k | 0 <= k < |files| :: Parts(files[k])[0])
  }

  /** An empty diff, the output of a commit with no changes, makes `get_changed_dirs` raise. */
  lemma {:induction false} EmptyDiffFails()
    ensures ChangedDirs("").Err?
  {
    assert ChangedFiles("") == [""];
    assert Split("", '/') == [""];
    assert Parts("") == [];
  }

  /** The top-level directories of the changed files, skipping names with no parts. */
  function TopDirs(out: string): (dirs: set<string>)
    ensures forall d | d in dirs :: exists k | 0 <= k < |ChangedFiles(out)| :: Parts(ChangedFiles(out)[k]) != [] && Parts(ChangedFiles(out)[k])[0] == d
    ensures forall k | 0 <= k < |ChangedFiles(out)| && Parts(ChangedFiles(out)[k]) != [] :: Parts(ChangedFiles(out)[k])[0] in dirs
  {
    var files := ChangedFiles(out);
    set k | 0 <= k < |files| && Parts(files[k]) != [] :: Parts(files[k])[0]
  }

  /** An empty diff has no changed directory. */
  lemma {:induction false} TopDirsOfEmpty()
    ensures TopDirs("") == {}
  {
    assert ChangedFiles("") == [""];
    assert Split("", '/') == [""];
    assert Parts("") == [];
  }

  /** Wherever the code as written returns, it returns `TopDirs`. */
  lemma {:induction false} ChangedDirsAgree(out: string)
    requires ChangedDirs(out).Ok?
    ensures ChangedDirs(out).value == TopDirs(out)
  {
  }

  /** Every relative file name under a directory puts that directory in `TopDirs`. */
  lemma {:induction false} TopDirOfFile(out: string, k: nat, dir: string, rest: string)
    requires k < |ChangedFiles(out)| && ChangedFiles(out)[k] == dir + "/" + rest
    requires dir != "" && dir != "." && NoChar(dir, '/')
    ensures dir in TopDirs(out)
  {
    TopOfRelative(dir, rest);
  }
}
