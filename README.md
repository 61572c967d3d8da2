# stack-pr, modelled in Dafny

stack-pr keeps a stack of local git commits in step with a stack of GitHub
pull requests, one PR per commit. Each PR's base branch is the head branch of
the PR below it. `submit` gives every commit a head branch named
`<user>/stack/<n>` and pushes the branches. It then creates or updates the
PRs, writes a `stack-info: PR: <link>, branch: <head>` line into each commit
message, and cross-links the PR bodies with a table of contents. `land`
checks the stack against GitHub and squash-merges the bottom PR. It then
rebases the rest of the stack and deletes the landed branches.

This project models the deterministic logic between the raw `git`/`gh`
output and the commands the tool issues. It covers three source files:

- `src/stack_pr/cli.py`, the package version;
- `stack-pr.py`, the older single-file version, where it differs;
- `src/stack_pr/git.py`, the git helpers.

Every answer from `git` or `gh` is a parameter:

| parameter | what it stands for |
|---|---|
| a boolean | the ancestry test |
| a string | the `rev-list`, `for-each-ref`, `status` and `diff` outputs |
| a map | the `gh pr view` answers |
| a return code | the exit status of a command |

Commands that change the world are recorded as steps of a log.

| file | module | what it holds |
|---|---|---|
| `wrappers.dfy` | `Wrappers` | `Option` and `Result` |
| `text.dfy` | `Text` | Python's `split`, `"\n".join`, `splitlines`, `split()`, `strip`/`lstrip`/`rstrip`, `strip("'")`, `replace`, `str.find`, `int()`/`str()` on ASCII digits, with their round trips |
| `commit_header.dfy` | `CommitHeaders` | `split_header` and the `CommitHeader` accessors as line scanners, and the round trip from the record git prints back to its fields |
| `stack_info.dfy` | `StackInfo` | `RE_STACK_INFO_LINE` as an exact scanner: `search` (read), the appended line (write), `sub` (remove) |
| `stack_entry.dfy` | `Stack` | the `StackEntry` class (fields updated in place), `get_stack`, `set_base_branches` |
| `allocator.dfy` | `Allocator` | `is_valid_ref`, `last`, `get_available_branch_name`, `get_next_available_branch_name`, `set_head_branches` |
| `verifier.dfy` | `Verifier` | `verify` as a fail-fast pipeline over the PR info map |
| `pr_text.dfy` | `PrText` | `generate_toc` and `RE_PR_TOC`, the `add_cross_links` body, the `land_pr` squash message, `strip_metadata` |
| `submit.dfy` | `Submit` | `draft_bitmask_type`, the gate and draft flags of `command_submit`, `add_or_update_metadata` and the `needs_rebase` loop, `push_branches` |
| `land.dfy` | `Land` | `delete_local_branches`, `delete_remote_branches`, `land_pr` and `command_land` as a log |
| `legacy.dfy` | `Legacy` | the divergent parts of `stack-pr.py`: its ref test and allocator, its `set_head_branches`, its delimiter-free PR body, and its land-every-entry loop |
| `git.dfy` | `Git` | `get_command_output` (from `src/stack_pr/shell_commands.py`), `is_full_git_sha`, `branch_exists`, `get_current_branch_name`, `get_uncommitted_changes`, `is_repo_clean`, `get_gh_username`, `get_changed_files`, `get_changed_dirs` |

Both versions share several functions line for line:

- `set_base_branches`;
- `verify`;
- `add_or_update_metadata`;
- `generate_toc`;
- the squash message of `land_pr`;
- `strip_metadata`;
- `split_header`;
- `last`;
- `get_next_available_branch_name`.

These are modelled once. `Legacy` holds only what differs.

Where the tool's written description and its code disagree, the model follows
the code:

- **Existing lines are never replaced.** The description has the metadata
  writer replace an existing stack-info line. `add_or_update_metadata` never
  replaces one. When a line is already there it amends nothing and passes
  `needs_rebase` through unchanged (`Submit.AmendIdempotent`). The
  read-after-write round trip therefore holds only for a message without a
  line (`StackInfo.AppendThenRead`).
- **Stripping is not idempotent.** The description has stripping remove
  every stack-info line, so that stripping twice changes nothing. The
  regular expression eats the newline before its line.
  - Of two consecutive lines, only the first is removed
    (`StackInfo.RemoveTwoLines`).
  - Removing a line can glue the text around it into a new stack-info line
    (`StackInfo.RemoveCanJoinLines`).
  - "No match after removal" holds only for the messages the tool writes
    (`StackInfo.RemoveAppended`).
- **Only the bottom PR is landed.** The description has `land` merge every
  entry, oldest first. `cli.py` lands only the bottom entry and rebases the
  rest (`Land.LandLogMergesBottom`). It asks for the deletion of the remote
  branch of that entry only (`st[:1]`). The older `stack-pr.py` does land
  every entry (`Legacy.LandLogMerges`).

## Model

| member | source | states |
|---|---|---|
| `CommitHeaders.SplitHeader` | src/stack_pr/cli.py:356-357 | no record holds a NUL |
| `CommitHeaders.SplitHeaderRecords` | src/stack_pr/cli.py:356-357 | splitting `rev-list` output in which every record is followed by a NUL gives back exactly the records, in order (the text after the last NUL is dropped) |
| `CommitHeaders.FirstIndex` | src/stack_pr/cli.py:185-188 | `_search_group` with `re.MULTILINE`: the first line at or after the start that matches, and none before it; `None` exactly when no line matches (where the original's `assert m` fails) |
| `CommitHeaders.HeaderLinesRead` | src/stack_pr/cli.py:174-214 | the printed record, split at line feeds, gives back its header lines |
| `CommitHeaders.IdAndTree` | src/stack_pr/cli.py:190-197 | in a printed record the first hex-only line is line 0 (the id) and the first `tree ` line is line 1 |
| `CommitHeaders.ParentsOfHeader` | src/stack_pr/cli.py:199-200 | `parents()` reads back exactly the parent ids, in order |
| `CommitHeaders.MessageOfHeader` | src/stack_pr/cli.py:211-214 | the indented lines of a record, un-indented, are the message lines; the first of them follows the blank line |
| `CommitHeaders.ParentsOfConcat` | src/stack_pr/cli.py:199-200 | `finditer` over lines distributes over concatenation |
| `CommitHeaders.MessageLinesConcat` | src/stack_pr/cli.py:211-214 | the message-line scan distributes over concatenation |
| `CommitHeaders.ParentsOfParentLines` | src/stack_pr/cli.py:199-200 | `parent <id>` lines read back as the ids |
| `CommitHeaders.MessageLinesIndented` | src/stack_pr/cli.py:211-214 | lines indented by four spaces read back un-indented |
| `CommitHeaders.HeaderLinesNoNewline` | src/stack_pr/cli.py:174-214 | no printed header line holds a line feed |
| `CommitHeaders.AuthorAtFormatted` | src/stack_pr/cli.py:68-70 | the author pattern (lazy name without `<`, e-mail without `>`) reads name and e-mail back from `author <name> <<email>>...` |
| `CommitHeaders.FrontNotAuthor` | src/stack_pr/cli.py:202-209 | the author pattern matches at no line before the author header |
| `CommitHeaders.AuthorLineRead` | src/stack_pr/cli.py:202-209 | the author header, whatever follows it, is read as the record's author |
| `CommitHeaders.AuthorOfHeader` | src/stack_pr/cli.py:202-209 | `author_name()`/`author_email()` of a printed record are its author |
| `CommitHeaders.HeaderRoundTrip` | src/stack_pr/cli.py:174-214 | parsing a printed record gives back its id, tree, parents, author, message, and title (the first message line, absent for an empty message) |
| `StackInfo.LineEnd` | src/stack_pr/cli.py:76-78 | the end of the current line lies between the start and the end of the text |
| `StackInfo.LastSepBelow` | src/stack_pr/cli.py:76-78 | where the greedy group 1 can end leaves both groups non-empty |
| `StackInfo.LastSepOfLine` | src/stack_pr/cli.py:76-78 | in `<pr>, branch: <head>` group 1 ends at or after `pr`, and exactly after it when `head` holds no `, branch: ` |
| `StackInfo.LastSepBelowSpec` | src/stack_pr/cli.py:76-78 | the greedy group 1 ends at the last `, branch: ` that leaves both groups non-empty, and no such position exists above it; none when there is none at all |
| `StackInfo.MatchHere` | src/stack_pr/cli.py:76-78 | a match covers at least one character and no more than the text |
| `StackInfo.MatchHereShape` | src/stack_pr/cli.py:76-78 | a match is a newline, the prefix, two non-empty groups without line feeds around `, branch: `, and the following newline if there is one |
| `StackInfo.MatchLine` | src/stack_pr/cli.py:76-78 | a newline and a metadata line match with the expected length and, when `head` holds no separator, exactly the written groups |
| `StackInfo.MatchHereExtend` | src/stack_pr/cli.py:76-78 | text after the line end does not change whether, or with which groups, the pattern matches |
| `StackInfo.SearchWith` | src/stack_pr/cli.py:300 | `search` returns a position at or after the start where the pattern matches |
| `StackInfo.SearchSpec` | src/stack_pr/cli.py:300 | `search` finds the leftmost match, and `None` only when there is none |
| `StackInfo.SubWithNoMatch` | src/stack_pr/cli.py:1008 | `sub` leaves a text without a match unchanged |
| `StackInfo.ReadMetadataNewline` | src/stack_pr/cli.py:298-304 | a message followed by a newline holds no metadata when the message held none |
| `StackInfo.ReadLineAfter` | src/stack_pr/cli.py:298-304 | a metadata line after a newline, with no match before it, is read back with its values |
| `StackInfo.AppendThenRead` | src/stack_pr/cli.py:512 | appending the line to a message without one and reading it back gives exactly the written PR and head |
| `StackInfo.AppendShape` | src/stack_pr/cli.py:512 | the appended message is the message, a blank line and the metadata line |
| `StackInfo.RemoveNoMatch` | src/stack_pr/cli.py:1008 | removal leaves a message without metadata unchanged |
| `StackInfo.RemoveLastLine` | src/stack_pr/cli.py:1008 | a metadata line ending the text is removed with the newline before it |
| `StackInfo.RemoveLine` | src/stack_pr/cli.py:1008 | an inner metadata line is removed with the newlines around it, and removal goes on after it |
| `StackInfo.RemoveAppended` | src/stack_pr/cli.py:1005-1008 | stripping a freshly appended message gives the original message plus one newline, which holds no metadata |
| `StackInfo.RemoveTwoLines` | src/stack_pr/cli.py:76-78 | of two consecutive metadata lines only the first is removed, and the second is still read |
| `StackInfo.LineNoNewline` | src/stack_pr/cli.py:76-78 | a metadata line with values free of line feeds holds none |
| `StackInfo.PrefixStartNoMatch` | src/stack_pr/cli.py:76-78 | a newline and a proper start of the prefix hold no metadata |
| `StackInfo.RemoveCanJoinLines` | src/stack_pr/cli.py:76-78 | removing a line can join the text around it into a new metadata line that is then read |
| `Stack.Get` | src/stack_pr/cli.py:233-237 | a property getter succeeds exactly when the field is set, with its value, and otherwise raises `<name> is not set` |
| `Stack.StackEntry.constructor` | src/stack_pr/cli.py:226-231 | a new entry keeps its commit and has no PR, head or base, and `need_update` false |
| `Stack.StackEntry.Pr` | src/stack_pr/cli.py:233-237 | the `pr` property succeeds exactly when `_pr` is set, with its value |
| `Stack.StackEntry.Head` | src/stack_pr/cli.py:246-250 | the `head` property succeeds exactly when `_head` is set, with its value |
| `Stack.StackEntry.Base` | src/stack_pr/cli.py:259-263 | the `base` property succeeds exactly when `_base` is set, with its value |
| `Stack.StackEntry.HasMissingInfo` | src/stack_pr/cli.py:269-270 | missing information exactly when one of the three getters would raise |
| `Stack.StackEntry.ReadMetadata` | src/stack_pr/cli.py:298-304 | with a match, `pr` and `head` become its two groups; without one, nothing changes; `base` never changes |
| `Stack.GetStack` | src/stack_pr/cli.py:394-416 | fails exactly when the base is not an ancestor; otherwise one fresh, distinct entry per record, oldest first, each with the links read from its message and no base |
| `Stack.NewEntries` | src/stack_pr/cli.py:408-412 | one fresh entry per record in reverse order, all links unset |
| `Stack.LoadEntries` | src/stack_pr/cli.py:414-415 | after the loop every entry carries the links its message holds |
| `Stack.SetBaseBranches` | src/stack_pr/cli.py:419-422 | the bottom base is the target, every other base is the previous entry's head (possibly unset), and no `pr`, `head` or `need_update` changes |
| `Stack.ChainedMissingInfo` | src/stack_pr/cli.py:269-270 | after chaining, an entry lacks information exactly when it lacks a PR or head or the entry below lacks a head |
| `Stack.AmendedCommitReadBack` | src/stack_pr/cli.py:298-304 | a commit whose message was amended with the line is read back by `get_stack` with exactly the written PR and head |
| `Allocator.Last` | src/stack_pr/cli.py:368-369 | fails exactly when the ref has no `/`; otherwise the text after the last `/` |
| `Allocator.RefNumbers` | src/stack_pr/cli.py:360-365 | a ref carries a number exactly when it passes `is_valid_ref`, and that number is `int(last(ref.strip("'")))`: the text after the last `/` of the unquoted ref is numeric and has that value |
| `Allocator.MaxNumber` | src/stack_pr/cli.py:532 | bounds every number present and is one of them, or 0 |
| `Allocator.MaxRefNumber` | src/stack_pr/cli.py:531-532 | the largest number of a valid ref, or 0 when none is valid |
| `Allocator.MaxOfRefs` | src/stack_pr/cli.py:531-532 | the same, stated over the filtered refs |
| `Allocator.QuotedRefNumber` | src/stack_pr/cli.py:360-365 | a quoted `<prefix>/stack/<n>` ref as `--format='%(refname)'` prints it is valid and carries `n` |
| `Allocator.UnquoteRef` | src/stack_pr/cli.py:361 | `strip("'")` removes the quotes around such a ref |
| `Allocator.StackRefNumber` | src/stack_pr/cli.py:360-365 | a ref that unquotes to `<prefix>/stack/<n>` is valid and carries `n` |
| `Allocator.NumberedName` | src/stack_pr/cli.py:362 | how `rsplit("/", 2)` cuts `<prefix>/stack/<n>` |
| `Allocator.NextAvailableBranchName` | src/stack_pr/cli.py:538-540 | fails exactly when the name has no `/` (the unpacking of `rsplit` fails) or its last part is not a string of ASCII digits |
| `Allocator.NextOfBranchName` | src/stack_pr/cli.py:538-540 | `<user>/stack/<n>` becomes `<user>/stack/<n+1>` |
| `Allocator.AvailableNumber` | src/stack_pr/cli.py:519-535 | the first number handed out exceeds every valid ref in the `for-each-ref` output and is exactly one above the largest of them, or 1 when no ref is valid |
| `Allocator.CountUnset` | src/stack_pr/cli.py:547 | at most the stack size |
| `Allocator.AssignHeads` | src/stack_pr/cli.py:543-550 | after assignment every entry has a head |
| `Allocator.AssignHeadsAt` | src/stack_pr/cli.py:543-550 | an entry with a head keeps it; the entry without a head that has `c` such entries before it gets `<user>/stack/<n+c>` |
| `Allocator.CountUnsetGrows` | src/stack_pr/cli.py:547 | a later entry without a head has more such entries before it |
| `Allocator.AssignHeadsDistinct` | src/stack_pr/cli.py:543-550 | two entries that had no head get different names |
| `Allocator.BranchNameInjective` | src/stack_pr/cli.py:535 | different numbers give different names |
| `Allocator.NextName` | src/stack_pr/cli.py:550 | the next name of an allocated name is the following number |
| `Allocator.AssignHeadsAll` | src/stack_pr/cli.py:543-550 | heads that agree entry by entry with the assignment are its result |
| `Allocator.AssignStep` | src/stack_pr/cli.py:547-550 | one iteration: the head an entry gets and the count of entries without a head |
| `Allocator.CountUnsetStep` | src/stack_pr/cli.py:547 | the count grows by one exactly at an entry without a head |
| `Allocator.Heads` | src/stack_pr/cli.py:547 | the heads of the stack, in order |
| `Allocator.SetHeadBranches` | src/stack_pr/cli.py:543-550 | the heads become the assignment from the first available number; no `pr`, `base` or `need_update` changes |
| `Allocator.AssignFrom` | src/stack_pr/cli.py:547-550 | the loop gives consecutive names to the entries without a head |
| `Allocator.AssignHead` | src/stack_pr/cli.py:547-549 | an entry is filled exactly when it has no head, and gets the name |
| `Allocator.AssignedAboveRemote` | src/stack_pr/cli.py:519-550 | every name handed out is numbered above every valid ref on the remote |
| `Verifier.HasRequired` | src/stack_pr/cli.py:447-450 | a response has the four fields `verify` reads |
| `Verifier.VerifyFrom` | src/stack_pr/cli.py:425-470 | a reported failure lies at or after the starting entry |
| `Verifier.CheckEntryFirstFailure` | src/stack_pr/cli.py:425-470 | the check of one entry reports the first failing check, in the order missing info, no `/`, non-numeric number, failed view, missing field, not open, number, head, base (only with `check_base`), and nothing exactly when all hold |
| `Verifier.IndexIn` | src/stack_pr/cli.py:425-470 | every failure has its place in that order |
| `Verifier.LastOfLink` | src/stack_pr/cli.py:368-369 | `last` on a set link fails exactly when it has no `/` |
| `Verifier.VerifyFromFirst` | src/stack_pr/cli.py:427 | `verify` stops at the first failing entry, reports its check, and every entry below it passes |
| `Verifier.VerifyStackConsistent` | src/stack_pr/cli.py:425-470 | `verify` passes exactly when every entry is consistent |
| `Verifier.CheckBaseOnlyAdds` | src/stack_pr/cli.py:464-470 | `check_base` only adds the last check |
| `Verifier.Snapshot` | src/stack_pr/cli.py:425-470 | the links of every entry, in order |
| `Verifier.Verify` | src/stack_pr/cli.py:425-470 | the method over the entries returns the pipeline's verdict and changes no entry |
| `PrText.Reversed` | src/stack_pr/cli.py:614 | `st[::-1]` |
| `PrText.PrIds` | src/stack_pr/cli.py:610 | fails exactly when some link has no `/`; otherwise each entry's `last(pr)` |
| `PrText.GenerateToc` | src/stack_pr/cli.py:608-615 | fails exactly when some link has no `/` |
| `PrText.Items` | src/stack_pr/cli.py:608-615 | the items a table lists: one per id, arrow exactly where the id is `current` |
| `PrText.MatchToc` | src/stack_pr/cli.py:79-81 | a match of `RE_PR_TOC` ends within the text |
| `PrText.MatchEntries` | src/stack_pr/cli.py:79-81 | the written lines for numeric ids are matched as exactly those items |
| `PrText.TocMatches` | src/stack_pr/cli.py:79-81 | a table for numeric ids matches `RE_PR_TOC` whole and lists those ids with the arrow on `current` |
| `PrText.GenerateTocMatches` | src/stack_pr/cli.py:608-615 | with numeric ids the table `generate_toc` writes matches `RE_PR_TOC` completely, one item per entry, top first, with the arrow exactly on `current` |
| `PrText.AfterDelimiter` | src/stack_pr/cli.py:646 | `split(DELIM, 1)[-1]` is a suffix of the body |
| `PrText.EntryBody` | src/stack_pr/cli.py:625-659 | a body is written only when every link has a `/` and the commit has a title |
| `PrText.TocShape` | src/stack_pr/cli.py:608-615 | a table for numeric ids starts with a letter and holds no run of dashes |
| `PrText.DelimiterFirst` | src/stack_pr/cli.py:646 | the first delimiter after a table is the one written |
| `PrText.KeptBodyAfter` | src/stack_pr/cli.py:646 | after the table and delimiter, `--keep-body` keeps exactly the stripped rest |
| `PrText.KeptBodyOfWritten` | src/stack_pr/cli.py:625-659 | a body written without `--keep-body` and read back by `--keep-body` keeps the title heading and the body |
| `PrText.WrittenBody` | src/stack_pr/cli.py:637-653 | the written body is the table, the delimiter, a blank line, the heading, a blank line and the body |
| `PrText.KeptBodyStripped` | src/stack_pr/cli.py:618-646 | what `--keep-body` keeps is stripped on both sides |
| `PrText.KeptBodyStable` | src/stack_pr/cli.py:625-659 | submitting again with `--keep-body` keeps the same text |
| `PrText.SquashMessage` | src/stack_pr/cli.py:901-908 | a squash body is never empty (a single space when nothing is left) |
| `PrText.SquashOfAmended` | src/stack_pr/cli.py:901-908 | on an amended message, fails exactly when the link has no `/`; otherwise the title is the first line with ` (#<id>)` and the body the remaining lines or `" "` |
| `PrText.StripMetadataOfAmended` | src/stack_pr/cli.py:1005-1008 | `strip_metadata` of an amended message gives the message and one newline, with no metadata left |
| `PrText.BodyOfAmended` | src/stack_pr/cli.py:631-638 | the PR body of an amended commit is the message after its first line, with a newline, or nothing for a one-line message |
| `PrText.SplitAmended` | src/stack_pr/cli.py:634 | an amended message splits into its lines, a blank line and the metadata line |
| `PrText.RemoveAmendedRest` | src/stack_pr/cli.py:637 | removing the metadata from the lines after the title leaves those lines and a newline |
| `Submit.DraftBitmask` | src/stack_pr/cli.py:479-485 | refused exactly when some character is not `0`/`1`; otherwise one flag per character, set exactly for `1` |
| `Submit.BitmaskText` | src/stack_pr/cli.py:479-485 | the spelling of flags is a bitmask of the same length |
| `Submit.BitmaskRoundTrip` | src/stack_pr/cli.py:479-485 | every flag list is spelled by an accepted bitmask that reads back unchanged |
| `Submit.BitmaskTextRoundTrip` | src/stack_pr/cli.py:479-485 | an accepted bitmask is the spelling of its flags |
| `Submit.SubmitGate` | src/stack_pr/cli.py:784-794 | stop on an empty stack, then on a bitmask whose length is not the stack size; proceed otherwise |
| `Submit.DraftFlags` | src/stack_pr/cli.py:814-816 | a PR is a draft exactly when `--draft` is given or its bitmask flag is set |
| `Submit.DraftFromText` | src/stack_pr/cli.py:814-816 | with a command-line bitmask the PR at position `i` is a draft exactly when `--draft` or the `i`-th character is `1` |
| `Submit.AddOrUpdateMetadata` | src/stack_pr/cli.py:491-516 | fails exactly when a getter it reads is unset; returns `needs_rebase` or whether the message lacked a line; rebases exactly when the flag is set; amends exactly when no line is present |
| `Submit.AmendWritesLinks` | src/stack_pr/cli.py:491-516 | the amended message reads back as the entry's PR and head |
| `Submit.AmendIdempotent` | src/stack_pr/cli.py:507-509 | on an amended message nothing is amended and the incoming flag is returned unchanged |
| `Submit.Views` | src/stack_pr/cli.py:824 | the message and links of every entry, in order |
| `Submit.EmbedMetadata` | src/stack_pr/cli.py:823-829 | the submit loop's result is the metadata pass over the whole stack |
| `Submit.EmbedAll` | src/stack_pr/cli.py:823-829 | the loop's result is the pass over all entries |
| `Submit.EmbedOne` | src/stack_pr/cli.py:826 | one iteration extends the pass, or its error ends the whole pass |
| `Submit.PassStep` | src/stack_pr/cli.py:826 | one more entry adds its own calls and passes its flag on |
| `Submit.PassErrStays` | src/stack_pr/cli.py:825-829 | the first error ends the pass |
| `Submit.FlagAfter` | src/stack_pr/cli.py:823-829 | after `n` entries the flag is set exactly when one of them lacked a line |
| `Submit.FlagStaysSet` | src/stack_pr/cli.py:823-829 | once the flag is set it stays set |
| `Submit.PassPrefixOk` | src/stack_pr/cli.py:823-829 | a successful pass succeeded on every shorter prefix |
| `Submit.PushCommand` | src/stack_pr/cli.py:560-564 | fails exactly when some head is unset; otherwise `git push -f <remote>` and one `head:head` refspec per entry, in order |
| `Submit.RefspecSides` | src/stack_pr/cli.py:563 | each refspec names the head on both sides of its `:` |
| `Land.DeleteLocalCommand` | src/stack_pr/cli.py:915-920 | fails exactly when some head is unset; otherwise `git branch -D` with exactly the non-empty heads |
| `Land.RemotePrefix` | src/stack_pr/cli.py:936 | the prefix `refs/remotes/<remote>/` starts with `r` |
| `Land.RemoteRefs` | src/stack_pr/cli.py:935-936 | one ref per word of the output |
| `Land.BranchesToDelete` | src/stack_pr/cli.py:937 | fails exactly when some head is unset; otherwise exactly the heads that are among the refs |
| `Land.DeleteRemoteCommand` | src/stack_pr/cli.py:939-942 | nothing is run when no branch is selected; otherwise one `:<branch>` refspec each |
| `Land.QuotedRefsNeverMatch` | src/stack_pr/cli.py:923-942 | as written, the quotes `--format='%(refname)'` prints keep every head out of the refs |
| `Land.NothingDeletedOnRemote` | src/stack_pr/cli.py:923-942 | as written, no landed branch is ever deleted on the remote |
| `Land.UnquotedRemoteRefs` | src/stack_pr/cli.py:935-936 | one ref per word, read without its quotes |
| `Land.UnquotedRefsMatch` | src/stack_pr/cli.py:935-937 | with the quotes stripped, each printed remote branch is read back as its name |
| `Land.UnquotedRef` | src/stack_pr/cli.py:936 | stripping the quotes and the prefix gives back the branch name |
| `Land.LandedHeadSelected` | src/stack_pr/cli.py:937 | with the quotes stripped, a landed head on the remote is selected for deletion |
| `Land.Merges` | src/stack_pr/cli.py:909-912 | the number of merges in a log; zero exactly when there is none |
| `Land.VerifiedLinked` | src/stack_pr/cli.py:427-430 | a stack that passes `verify` has every link set |
| `Land.HeadsOf` | src/stack_pr/cli.py:919 | one head per entry: position `k` holds entry `k`'s head, set or not |
| `Land.LandLogMergesBottom` | src/stack_pr/cli.py:974-984 | a landing merges exactly one PR, the bottom one, right after retargeting it |
| `Land.RebaseRest` | src/stack_pr/cli.py:977-984 | every entry above the bottom one is rebased, in stack order |
| `Land.LandedMerges` | src/stack_pr/cli.py:948-999 | a landing merges at most one PR, and one exactly when the squash message could be formed |
| `Land.NoRemoteDeletion` | src/stack_pr/cli.py:923-942 | with quoted refs and heads that do not start with a quote, the remote deletion runs no push |
| `Land.LandedKeepsRemote` | src/stack_pr/cli.py:986-990 | a successful landing on the refs `for-each-ref` prints ends with the local deletion; no remote branch is deleted |
| `Land.LandVerified` | src/stack_pr/cli.py:974-990 | retarget and merge the bottom PR, rebase the rest, retarget the new bottom, delete the local branches, then the remote branch of the bottom entry as the selection is written (with the refs keeping their quotes); stop after the retarget when the message cannot be formed |
| `Land.Assemble` | src/stack_pr/cli.py:974-990 | the parts form the log of a landing |
| `Land.Land` | src/stack_pr/cli.py:948-999 | an empty stack does nothing; bases are chained to the target; at most one merge, and a merge only after `verify` passes with bases checked |
| `Land.LandChained` | src/stack_pr/cli.py:970-990 | nothing happens unless `verify` passes; then the bottom PR is landed |
| `Legacy.RefNumbers` | stack-pr.py:340-344 | one entry per ref: the number `int(last(ref))` exactly when the ref passes the older, unstripped test |
| `Legacy.AvailableNumber` | stack-pr.py:493-510 | 1 for an empty listing; raises exactly when refs exist but none is valid; otherwise above every valid number |
| `Legacy.NumberFrom` | stack-pr.py:505-507 | the same, on the numbers of the refs |
| `Legacy.AvailableBranchName` | stack-pr.py:493-510 | fails exactly when the number does; otherwise `<user>/stack/<n>` |
| `Legacy.QuotedRefInvalid` | stack-pr.py:340-344 | a ref ending in a quote never passes |
| `Legacy.QuotedRefsFail` | stack-pr.py:493-510 | a non-empty quoted listing makes the allocator raise |
| `Legacy.OneRemoteBranchFails` | stack-pr.py:493-510 | a single remote branch printed by `for-each-ref` makes it raise |
| `Legacy.AgreesWithoutQuotes` | stack-pr.py:493-510 | without quotes, the older allocator gives the package's number whenever it succeeds |
| `Legacy.AgreesOnWords` | stack-pr.py:505-507 | the same, on the words of the listing |
| `Legacy.SameMax` | stack-pr.py:340-344 | without quotes both tests give the same largest number |
| `Legacy.NumberOk` | stack-pr.py:505-507 | a successful allocation is one above the largest number |
| `Legacy.SameNumbers` | stack-pr.py:340-344 | without quotes both tests number refs alike |
| `Legacy.SetHeadBranches` | stack-pr.py:518-525 | raises exactly when the allocator does, and then sets no head; otherwise the package's assignment |
| `Legacy.BodiesCompared` | stack-pr.py:589-609 | the older body is the table, heading, blank line and body with a final newline; the package's adds the delimiter and drops that newline |
| `Legacy.EntryBody` | stack-pr.py:589-609 | fails exactly where the package's body fails |
| `Legacy.Squashes` | stack-pr.py:791-798 | one squash message per entry: position `k` holds the one `land_pr` forms for entry `k` |
| `Legacy.LandEntry` | stack-pr.py:768-803 | one `land_pr`: rebase, retarget and merge, or stop before the merge |
| `Legacy.LandAll` | stack-pr.py:859-865 | the loop lands every entry bottom first, or stops at the first message that cannot be formed |
| `Legacy.MergesStep` | stack-pr.py:859-861 | counting merges one step further |
| `Legacy.MergesOfTriples` | stack-pr.py:859-861 | one merge per landed entry |
| `Legacy.LandLogMerges` | stack-pr.py:859-861 | a complete landing merges every entry |
| `Legacy.StoppedMerges` | stack-pr.py:859-861 | a landing stopped at entry `i` merged the `i` entries below it |
| `Legacy.LandedKeepsRemote` | stack-pr.py:812-828 | a complete landing on the refs `for-each-ref` prints ends with the local deletion; no remote branch is deleted |
| `Legacy.LandedMerges` | stack-pr.py:834-879 | all entries are merged on success, fewer on failure |
| `Legacy.Messages` | stack-pr.py:791 | one commit message per entry: position `k` holds `commit_msg()` of entry `k` |
| `Legacy.LandStack` | stack-pr.py:834-879 | empty stack does nothing; bases chained; merges only after `verify` passes with bases checked |
| `Legacy.LandChained` | stack-pr.py:857-865 | nothing happens unless `verify` passes; then every entry is landed |
| `Git.CommandOutput` | src/stack_pr/shell_commands.py:34-51 | fails with the return code exactly when it is not 0; otherwise the output without its trailing white space |
| `Git.CommandError` | src/stack_pr/git.py:118-121 | return code 128 becomes `GitError`; any other failure is raised again unchanged |
| `Git.AllHexEach` | src/stack_pr/git.py:37-38 | the `all(...)` test holds exactly when every character is a lowercase hex digit |
| `Git.IsFullGitSha` | src/stack_pr/git.py:28-38 | true exactly for forty lowercase hex digits |
| `Git.BranchExists` | src/stack_pr/git.py:92-96 | code 0 means true, 1 means false, any other raises `GitError` |
| `Git.CurrentBranchName` | src/stack_pr/git.py:114-121 | succeeds exactly on code 0, with the stripped output; failures are mapped as `CommandError` says |
| `Git.StripEnds` | src/stack_pr/git.py:117 | `strip()` leaves no white space at either end |
| `Git.StatusOf` | src/stack_pr/git.py:151 | `line[:2]` is a prefix of at most two characters |
| `Git.PathOf` | src/stack_pr/git.py:151 | `line[3:]` is the rest after the first three characters |
| `Git.Group` | src/stack_pr/git.py:148-152 | a group holds at most one path per line |
| `Git.GroupAbsent` | src/stack_pr/git.py:148-152 | without a line of a status its group is empty |
| `Git.GroupSnoc` | src/stack_pr/git.py:151 | one more line joins its own group and no other |
| `Git.GroupedStep` | src/stack_pr/git.py:151 | `setdefault(...).append(...)` keeps the dictionary equal to the grouping of the lines so far |
| `Git.GroupedSnoc` | src/stack_pr/git.py:151 | the same, for a line appended to the lines |
| `Git.GroupLines` | src/stack_pr/git.py:148-152 | the loop builds one key per status present, holding its paths in order |
| `Git.UncommittedChanges` | src/stack_pr/git.py:141-152 | failures map as `CommandError` says; otherwise the grouping of the lines of the stripped output |
| `Git.GroupConcat` | src/stack_pr/git.py:148-152 | groups of consecutive runs of lines concatenate |
| `Git.LineInItsGroup` | src/stack_pr/git.py:148-152 | every line is in exactly one group, right after the earlier lines of its status |
| `Git.IsRepoClean` | src/stack_pr/cli.py:385-391 | clean exactly when every key is `??` |
| `Git.CleanIffUntracked` | src/stack_pr/cli.py:385-391 | the repository is clean exactly when every porcelain line is untracked |
| `Git.ValueEnd` | src/stack_pr/git.py:196 | the lazy group ends at the first `"`, with no line feed before it |
| `Git.MatchAt` | src/stack_pr/git.py:196 | a match starts with `"login":"` and captures no `"` or line feed |
| `Git.SearchFrom` | src/stack_pr/git.py:196 | `re.search` reports the leftmost match, and nothing exactly when none exists |
| `Git.SearchFirst` | src/stack_pr/git.py:196 | the leftmost match is the one reported |
| `Git.GhUsername` | src/stack_pr/git.py:196-200 | raises `GitError` exactly when there is no match; otherwise a login without quotes or line feeds |
| `Git.UsernameRoundTrip` | src/stack_pr/git.py:196-200 | a login in the answer, with no earlier `"login":"`, is the one reported |
| `Git.DiffCommand` | src/stack_pr/git.py:211-217 | `git diff --name-only <base> HEAD` with `main` when no base is given |
| `Git.ChangedFiles` | src/stack_pr/git.py:218-219 | the names joined by line feeds give back the output, and none holds a line feed |
| `Git.ChangedFilesJoin` | src/stack_pr/git.py:218-219 | names without line feeds are read back as written |
| `Git.Root` | src/stack_pr/git.py:232 | the anchor of a POSIX path is `/` or `//`, and empty exactly for a relative path |
| `Git.Components` | src/stack_pr/git.py:232 | the kept names are the non-empty ones other than `.` |
| `Git.Parts` | src/stack_pr/git.py:232 | `Path.parts`: the anchor first, then the names, none empty |
| `Git.TopOfRelative` | src/stack_pr/git.py:232 | a relative path's first part is its first name |
| `Git.PartIsName` | src/stack_pr/git.py:232 | each part of a relative path is one name |
| `Git.ChangedDirs` | src/stack_pr/git.py:222-232 | as written, raises exactly when some changed name has no parts |
| `Git.EmptyDiffFails` | src/stack_pr/git.py:222-232 | an empty diff makes it raise |
| `Git.TopDirs` | src/stack_pr/git.py:222-232 | exactly the first parts of the changed names that have parts |
| `Git.TopDirsOfEmpty` | src/stack_pr/git.py:222-232 | an empty diff has no changed directory |
| `Git.ChangedDirsAgree` | src/stack_pr/git.py:222-232 | wherever the code as written returns, it returns `TopDirs` |
| `Git.TopDirOfFile` | src/stack_pr/git.py:222-232 | a relative file under a directory puts that directory in the result |
| `Text.ParseNatToString` | src/stack_pr/cli.py:540 | `int(str(n)) == n` |
| `Text.NatToStringInjective` | src/stack_pr/cli.py:535 | different numbers print differently |
| `Text.NatToString` | src/stack_pr/cli.py:535 | `str(n)` is a numeric string |
| `Text.Split` | src/stack_pr/cli.py:356-357 | `split(sep)` gives at least one part, and no part holds the separator |
| `Text.LastIndexOf` | src/stack_pr/cli.py:369 | the position of the last occurrence, with none after it; none exactly when the character is absent |
| `Text.JoinSplit` | src/stack_pr/cli.py:356-357 | joining the parts of a split gives back the text |
| `Text.SplitJoin` | src/stack_pr/cli.py:356-357 | splitting parts joined by a separator they lack gives back the parts |
| `Text.SplitLines` | src/stack_pr/cli.py:905 | no line of `splitlines` holds a line boundary |
| `Text.SplitLinesJoin` | src/stack_pr/cli.py:905 | `splitlines` gives back lines joined by line feeds when none holds a boundary and the last is not empty |
| `Text.SplitLinesAppendNewline` | src/stack_pr/cli.py:905 | a final line feed adds no line |
| `Text.SplitWords` | src/stack_pr/cli.py:529 | `split()` gives non-empty words without white space |
| `Text.SplitWordsJoin` | src/stack_pr/cli.py:529 | words joined by single spaces are split back |
| `Text.LStrip` | src/stack_pr/cli.py:646 | `lstrip()` removes exactly the leading white space |
| `Text.RStrip` | src/stack_pr/shell_commands.py:51 | `rstrip()` removes exactly the trailing white space |
| `Text.StripChar` | src/stack_pr/cli.py:361 | `strip("'")` leaves no quote at either end |
| `Text.StripCharQuoted` | src/stack_pr/cli.py:361 | it removes the quotes around a word without quotes at its ends |
| `Text.Find` | src/stack_pr/cli.py:646 | the first occurrence at or after the start, and none before it |
| `Text.ReplaceAbsent` | src/stack_pr/cli.py:936 | `replace` leaves a text without the pattern unchanged |
| `Text.ReplaceLeading` | src/stack_pr/cli.py:936 | `replace` removes a leading occurrence and goes on with the rest |

## Left out

- Running commands. No `git` or `gh` command is run. The following are parameters instead:
  - the ancestry test (`is_ancestor`);
  - the outputs of `rev-list`, `for-each-ref`, `status --porcelain` and `diff --name-only`;
  - the return codes;
  - the decoded `gh pr view` answers;
  - the user's login.
- Commands with effects. `fetch`, `checkout`, `push`, `rebase`, `gh pr create/edit/merge` and the final rebases of `land` are recorded as log steps only where they order a merge. Neither version's `land` log records the checkout of the original branch or the closing rebases onto the target.
- Omitted operations. These are all I/O or presentation:
  - `create_pr`;
  - `reset_remote_base_branches`;
  - `init_local_branches`' checkouts;
  - `should_update_local_base`, `update_local_base` and `deduce_base`;
  - `command_abandon` and `command_view`;
  - the console helpers and `print_*`;
  - argument parsing;
  - `rebase_pr`'s failure messages.
- Git helpers not modelled. `shallow_clone`, `fetch_checkout_commit` and `check_gh_installed` only run commands.
- `run_shell_command` is not part of this model. `get_command_output` is modelled by `Git.CommandOutput`, apart from its `capture_output` argument check.
- JSON decoding: a PR answer is a map from field names to values.
- `Allocator.NextAvailableBranchName`: `int(id)` is modelled on ASCII digits only, so a sign, surrounding white space or underscores (`"a/-1"`, `"a/1_0"`) give an error here where Python returns a name. These forms never reach the function in the tool, because the allocator only hands out digit suffixes (`Allocator.NextOfBranchName`).
- `Allocator.RefNumbers`: `isnumeric` and `int()` accept ASCII digits only, not other Unicode numerals.
- `Text.SplitLines`: it follows Python's line boundaries, but with no Unicode normalisation or encoding step. The model's strings are sequences of characters.
- `Git.Parts`: `Path` keeps only its POSIX anchor and names. Other normalisation is not modelled.
- `Stack.GetStack`: the `exit(1)` on a non-ancestor base is an error result.
- `PrText.EntryBody`: the `gh pr edit` call that sends the body is not modelled. With `--keep-body`, the current body is passed in after the `.strip()` of `get_current_pr_body`.
- Remote deletion in the landing logs: `Land.LandVerified`, `Land.Land`, `Land.LandChained`, `Legacy.LandAll`, `Legacy.LandStack` and `Legacy.LandChained` use the selection as written, so on real `for-each-ref` output they delete no remote branch (`Land.LandedKeepsRemote`, `Legacy.LandedKeepsRemote`). The corrected selection (`Land.UnquotedRemoteRefs`) is stated and proved on its own, not used in these logs.
- `Verifier.Verify`: the `gh pr view` responses are a map. A link without a response stands for a failed view.

## Findings

| source | as written | input that shows it | evidently intended | confidence | as-written member | corrected member |
|---|---|---|---|---|---|---|
| stack-pr.py:493-510 | `is_valid_ref` does not strip the quotes `--format='%(refname)'` prints. The `if refs` guard tests the unfiltered list, so `max` of an empty sequence raises | the listing `'refs/remotes/origin/alice/stack/1'` | strip the quotes before the test, as `cli.py` does, numbering above the largest remote branch | not executed | `Legacy.OneRemoteBranchFails` | `Allocator.AssignedAboveRemote` |
| src/stack_pr/cli.py:923-942 | refs keep their quotes after the prefix is replaced, so `e.head in refs` never holds and no remote branch is deleted | any landed head, with the listing `'refs/remotes/origin/alice/stack/1'` | compare the heads with the unquoted branch names | not executed | `Land.NothingDeletedOnRemote` | `Land.LandedHeadSelected` |
| src/stack_pr/git.py:222-232 | `file.parts[0]` on `Path("")`, whose parts are empty, raises `IndexError` | an empty diff (output `""`) | an empty set of changed directories | not executed | `Git.EmptyDiffFails` | `Git.TopDirsOfEmpty` |
