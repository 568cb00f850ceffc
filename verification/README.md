# Task checklist updater, modelled in Dafny

`scripts/validation/update_task_checklist.py` ticks every open list-item
checkbox of a task document. It takes a task number or a path. A task number
is looked up in `tasks/` by the file-name convention
`<number>-<status>-<description>.md`. Every list-item checkbox `[ ]` in the
file becomes `[x]`. The file is backed up to `<name>.bak` before it is
rewritten, unless `--no-backup` is given, and `--dry-run` only reports what
would change.

This project models three parts of that script:

- **The checkbox rewriter** `update_checkboxes`, in `markers.dfy` and
  `checklist.dfy`.
  - `Markers.Tick` states the rewrite as a rule about single positions. When
    a `[ ]` follows a bullet (`-` or `*`) and one or more whitespace
    characters, its space becomes `x`. Nothing else changes.
  - `Checklist.SubFrom` models the scan `re.sub` makes with the pattern
    `(\s*[-*]\s+)\[ \]`. It goes left to right, takes the regex engine's
    greedy match at each position, and resumes after a match.
    The contract of `Checklist.Sub` states that the scan computes `Tick`.
  - `Checklist.FindAllFrom` models `re.findall(r"\[ \]")`. It is proved to
    count the positions holding `[ ]`.
  - `Markers.IsSpace` is exactly the character set of Python's `\s` on
    strings.
- **Task-file resolution** `find_task_file`, in `resolver.dfy`.
  - The `tasks/` directory is a sequence of entry names, in the order the
    glob yields them.
  - A pattern `<n>-<status>-*.md` is compiled into glob tokens and matched
    the way `fnmatch` does: `*` matches any text, including the empty text.
  - The three statuses are tried in the order in-progress, completed,
    pending. The first matching entry of the first status with any match is
    returned.
- **The decisions of `main`**, in `cli.dfy`. `Cli.Run` is a pure function
  over:
  - the parsed argument and the two flags;
  - a `Disk`: the directory listing, the paths that exist, and the text of
    the readable ones;
  - an `Effects` record: whether the backup copy succeeds, the line the
    operator types (absent when input ends), and whether the write succeeds.

  It returns an `Outcome`: the exit status, the backup made, the file
  written, the backup location printed, and which report was printed.

`wrappers.dfy` holds the `Option` and `Result` types the other modules share.

Four behaviours of the code are easy to miss. The model keeps them:

- The bullet need not start a line, because the pattern has no anchor. A
  `- [ ]` after a word is ticked (`"a - [ ]"` becomes `"a - [x]"`,
  `Checklist.ExampleMidLine`), and so is the box in `**b** [ ]`, whose
  second `*` counts as a bullet.
- The gap between bullet and box is `\s+`, one or more whitespace
  characters. It is not limited to spaces: `"-\n[ ]"` is ticked
  (`Checklist.ExampleNewlineGap`).
- Lines 144-145 print "Backup available at" whenever `--no-backup` is not
  set. That includes the case where the copy failed and the operator typed
  `y`, so no backup exists. The model keeps this
  (`Cli.RunReportsMissingBackup`).
- A prompt that meets end of input raises an uncaught `EOFError`. The
  process then exits with status 1 without writing (`Report.PromptClosed`).

## Model

| member | source | states |
|---|---|---|
| Checklist.UpdateCheckboxes | scripts/validation/update_task_checklist.py:46-68 | the returned text is the input with every open list-item token ticked (`Tick`), and the returned number is the count of open list items in the input |
| Checklist.Sub | scripts/validation/update_task_checklist.py:56-61 | the left-to-right substitution of the pattern, each match replaced by its captured prefix and `[x]`, yields exactly the position-wise rule `Tick` |
| Checklist.SubFrom | scripts/validation/update_task_checklist.py:61 | the text the substitution emits from a position on is as long as the rest of the input: each match is replaced by text of its own length |
| Checklist.MatchAt | scripts/validation/update_task_checklist.py:56 | a match the greedy engine finds at a position is a match of the pattern: whitespace, a bullet, at least one whitespace character, then `[ ]` ending where the match ends |
| Checklist.MatchAtIsRegexMatch | scripts/validation/update_task_checklist.py:56 | at a position the pattern matches, ending at `e`, exactly when the text there is whitespace, a bullet, at least one whitespace character and `[ ]` ending at `e`, with the greedy runs the regex engine takes |
| Checklist.FindAll | scripts/validation/update_task_checklist.py:64-65 | `len(re.findall(r"\[ \]", s))` is the number of positions of `s` where `[ ]` starts |
| Checklist.FindAllCountsBoxes | scripts/validation/update_task_checklist.py:64-65 | the non-overlapping scan from any position counts every position from there on where `[ ]` starts |
| Checklist.UpdateChangesOnlyItemSpaces | scripts/validation/update_task_checklist.py:56-61 | the output has the input's length; a character differs exactly when it is the space of an open list-item token, and it then changed from a space to `x` |
| Checklist.UpdateTicksExactlyListItems | scripts/validation/update_task_checklist.py:56-61 | an open `[ ]` becomes `[x]` if and only if a bullet and one or more whitespace characters precede it; otherwise it stays `[ ]` |
| Checklist.UpdateKeepsTicked | scripts/validation/update_task_checklist.py:56-61 | an existing `[x]` is still `[x]` after the update |
| Checklist.UpdateCountIsTicked | scripts/validation/update_task_checklist.py:63-68 | the count, `[ ]` before minus `[ ]` after, is never negative; it equals the number of list items ticked and the growth in ticked list items |
| Checklist.UpdateTallies | scripts/validation/update_task_checklist.py:56-68 | after the update no open list item is left; ticked list items after = ticked before + open before |
| Checklist.UpdateNoItems | scripts/validation/update_task_checklist.py:56-68 | the text comes back unchanged with count 0 if and only if it has no open list item |
| Checklist.UpdateEmpty | scripts/validation/update_task_checklist.py:56-68 | the empty text comes back empty with count 0 |
| Checklist.UpdateIdempotent | scripts/validation/update_task_checklist.py:56-68 | updating an updated text returns it unchanged with count 0 |
| Markers.TickCut | scripts/validation/update_task_checklist.py:56-61 | for a cut `a + b` where `a` is non-empty and does not end with `[`, and `b` is empty or does not start with `[`, `]` or whitespace, the update of `a + b` is the update of `a` followed by the update of `b` |
| Markers.CountCut | scripts/validation/update_task_checklist.py:63-68 | across such a cut, the counts of the two pieces add up |
| Checklist.ExampleThreeItems | scripts/validation/update_task_checklist.py:46-68 | `- [ ] task one`, `* [ ] task two`, `- [x] task three` (one line each) become three ticked lines, with count 2 |
| Checklist.ExampleNewlineGap | scripts/validation/update_task_checklist.py:56 | `"-\n[ ]"` becomes `"-\n[x]"` with count 1, because `\s` includes the newline |
| Checklist.ExampleBareBox | scripts/validation/update_task_checklist.py:56-61 | a `[ ]` after a word is left alone, with count 0 |
| Checklist.ExampleMidLine | scripts/validation/update_task_checklist.py:56-61 | `"a - [ ]"` becomes `"a - [x]"` with count 1: the pattern has no anchor, so a bullet in the middle of a line counts |
| Checklist.ExampleNoGap | scripts/validation/update_task_checklist.py:56 | `"-[ ]"` is left alone, with count 0: the bullet needs at least one whitespace character before the box |
| Resolver.FindTaskFile | scripts/validation/update_task_checklist.py:21-43 | fails with `TaskNotFound(n)` if and only if no entry matches any of the three patterns; otherwise returns `tasks/` joined with the entry the priority order picks |
| Resolver.Locate | scripts/validation/update_task_checklist.py:25-41 | the hit is the first entry matching its status, and no status earlier in the order has a match; there is no hit exactly when nothing matches |
| Resolver.FirstMatch | scripts/validation/update_task_checklist.py:27-29 | the index found is the first entry from `from` on that matches; none is found only when no entry matches |
| Resolver.Priority | scripts/validation/update_task_checklist.py:25-41 | a match for some status guarantees a hit whose status comes no later: in-progress beats completed and pending, completed beats pending |
| Resolver.ChosenUnique | scripts/validation/update_task_checklist.py:25-41 | at most one entry and status satisfy the choice rule |
| Resolver.FoundNameShape | scripts/validation/update_task_checklist.py:26-41 | the returned entry starts with `<n>-<status>-` for the status that found it and ends with `.md` |
| Resolver.PatternShape | scripts/validation/update_task_checklist.py:26 | the pattern `Pattern(n, status)` is `<n>-<status>-`, then `*`, then `.md`, and that `*` is its only `*` |
| Resolver.CompileTokens | scripts/validation/update_task_checklist.py:27 | the compiled glob has one token per pattern character; a token is the wildcard exactly where the character is `*`, and otherwise the literal of that character |
| Resolver.GlobMatchBounds | scripts/validation/update_task_checklist.py:27 | a lone `*` matches every name; a pattern without `*` matches only names of its own length |
| Resolver.MatchesMeaning | scripts/validation/update_task_checklist.py:26-27 | an entry matches `<n>-<status>-*.md` exactly when it starts with `<n>-<status>-` and ends with `.md`, with the wildcard part possibly empty |
| Resolver.GlobPrefixStarSuffix | scripts/validation/update_task_checklist.py:27 | a glob `<prefix>*<suffix>` without other wildcards matches exactly the names that start with the prefix and end with the suffix, the two not overlapping |
| Resolver.Decimal | scripts/validation/update_task_checklist.py:26 | the numeral starts with `-` exactly for negative numbers, and the rest is digits without a leading zero (zero is `0`) |
| Resolver.ParseInt | scripts/validation/update_task_checklist.py:89 | a numeral is accepted exactly when it is an optional `-` followed by one or more digits; a numeral without leading zero (and not `-0`) is read as the number whose `str` it is |
| Resolver.ParseIntLeadingZero | scripts/validation/update_task_checklist.py:89 | leading zeros do not change the value read, with or without a minus sign (`0118` reads as `118`, `-007` as `-7`), and `-0` reads as 0; with the contract of `ParseInt` this fixes the value of every accepted numeral |
| Resolver.DecimalRoundTrip | scripts/validation/update_task_checklist.py:89 | the decimal numeral of any integer parses back to that integer |
| Resolver.ExampleCompletedFound | scripts/validation/update_task_checklist.py:31-35 | with only `118-completed-foo.md` in the directory, task 118 resolves to `tasks/118-completed-foo.md` |
| Resolver.ExampleInProgressFirst | scripts/validation/update_task_checklist.py:25-29 | an in-progress entry is returned even when a completed entry for the same task comes first in the listing |
| Cli.Classify | scripts/validation/update_task_checklist.py:88-93 | the argument is a task number exactly when it is an optional `-` and digits; such a numeral without leading zero writes the number read; any other argument is a path, kept as typed |
| Cli.ClassifyLeadingZero | scripts/validation/update_task_checklist.py:89-90 | leading zeros do not change the task number, with or without a minus sign (`0118` is task 118), and `-0` is task 0 |
| Cli.ClassifyNumeral | scripts/validation/update_task_checklist.py:89 | the numeral of a task number is read as that task number |
| Cli.ClassifyPath | scripts/validation/update_task_checklist.py:91-93 | an argument containing `/` is taken as a path |
| Cli.ResolvePath | scripts/validation/update_task_checklist.py:87-103 | the file found always exists; a path argument resolves, to itself, exactly when it exists; a task number resolves exactly when `find_task_file` finds a file that exists, and then to that file; a task number with no matching entry fails with `TaskNotFound` for that number |
| Cli.Apply | scripts/validation/update_task_checklist.py:112-125 | with no open list item the run ends with status 0 and touches nothing; a dry run ends with status 0 and reports the number of open list items; otherwise the ticked text and that number go to the commit step |
| Cli.Commit | scripts/validation/update_task_checklist.py:127-148 | the file is written exactly when the operator lets the write go ahead (`--no-backup`, a successful copy, or `y`/`Y`) and the write succeeds, and the status is 0 exactly then; the backup exists exactly when one is wanted and the copy succeeds; the backup location is shown after every write without `--no-backup`; a refusal ends in `PromptClosed` or `Aborted`, and a permitted write that fails ends in `WriteFailed` |
| Cli.Run | scripts/validation/update_task_checklist.py:87-148 | the exit status is 0 or 1, and 0 exactly for nothing-to-do, dry-run and successful-update runs; a write happens only with status 0 and not in a dry run; a backup only without `--no-backup` and not in a dry run; a backup location is printed only after a write without `--no-backup` |
| Cli.RunWithoutFile | scripts/validation/update_task_checklist.py:88-110 | when no readable file is resolved the run exits 1, with no backup and no write; it reports `NotFound` when resolution failed and `ReadFailed` when the resolved file could not be read |
| Cli.RunNothingToDo | scripts/validation/update_task_checklist.py:115-117 | a text without open list items ends the run with status 0, no backup and no write |
| Cli.RunDryRun | scripts/validation/update_task_checklist.py:115-125 | a dry run exits 0 without backup or write, and reports the number of open list items when there are any |
| Cli.RunWritesExactly | scripts/validation/update_task_checklist.py:127-148 | the file is written if and only if there is something to tick, it is not a dry run, the operator allows it (`--no-backup`, a successful copy, or `y`/`Y`) and the write succeeds; what is written is the ticked text at the resolved path |
| Cli.RunDeclined | scripts/validation/update_task_checklist.py:133-138 | a failed copy followed by any answer other than `y`/`Y`, or by end of input, exits 1 with no backup and no write |
| Cli.RunBackup | scripts/validation/update_task_checklist.py:128-132 | a backup is made if and only if a real run has something to tick, `--no-backup` is off and the copy succeeds; it is made at the path with `.bak` appended |
| Cli.RunWriteNeedsBackupOrYes | scripts/validation/update_task_checklist.py:127-142 | without `--no-backup`, a write implies that a backup was made or that the operator typed `y`/`Y` |
| Cli.RunReportsMissingBackup | scripts/validation/update_task_checklist.py:144-145 | after a failed copy and `y`, the run writes, makes no backup, and still prints the backup location |
| Cli.BackupPath | scripts/validation/update_task_checklist.py:129 | the backup is in the original's directory, and its name is the original's name followed by `.bak` |
| Cli.Confirms | scripts/validation/update_task_checklist.py:136 | the answer lower-cases to `y` exactly when it is `y` or `Y` |

## Left out

- Filesystem access is not modelled. `exists`, `read_text`, `shutil.copy2`, `write_text` and the directory listing become the `Disk` and `Effects` parameters. UTF-8 decoding errors are part of "not readable", and metadata copying is not modelled. `read_text` translates `\r\n` and `\r` line ends to `\n`, and `write_text` writes `\n` as the platform's line separator; the `Disk` text is the text after that translation, so a file with `\r\n` line ends comes back with `\n` on POSIX, which the model does not show.
- A failed `write_text` is modelled as "nothing written". A write that fails part-way and leaves a truncated file is not modelled. Likewise a failed `shutil.copy2` is modelled as "no backup"; a copy that fails part-way leaves a partial `.bak` file, which the model does not show.
- Glob order is implementation-defined, so the listing order is taken as given.
- Glob is also case-insensitive on some platforms; matching here is case-sensitive. The patterns built by the script contain no `?` or `[`, so `Resolver.Compile` treats only `*` as special.
- Cli.Classify: handles only an optional `-` followed by ASCII digits. `int()` also accepts surrounding whitespace, a `+`, `_` separators and non-ASCII digits; arguments of those forms are taken as paths here. In the other direction, `int()` raises `ValueError` for a numeral longer than 4300 digits (Python 3.11 and later, and patched 3.7-3.10), so the script takes such an argument as a path, while `Classify` returns a task number.
- Cli.ResolvePath: compares paths as strings. `pathlib` normalisation (`a//b`, `./x`) is not modelled.
- Cli.BackupPath: `with_suffix` raises on an empty file name. Such paths (`.`, `/`) are directories, whose read fails before the backup step.
- Cli.Lower: lower-cases ASCII letters only. No other character lower-cases to `y`, so the contract of `Cli.Confirms` holds for the full `str.lower` too.
- Printed messages and emoji are reduced to the `Report` value. Argument-parsing errors from `argparse` and `KeyboardInterrupt` are not modelled.
