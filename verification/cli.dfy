/**
 `main`: resolve the argument to a task file, read it, update its checkboxes,
 and decide whether to stop, back up, ask the operator, and write.

 Everything the process observes or does to the outside world is a
 parameter: the `tasks` listing and which paths exist or can be read
 (`Disk`), and whether the backup copy and the final write succeed and what
 the operator types at the prompt (`Effects`). The result is an `Outcome`
 record: exit status, the backup made, the file written, the backup location
 reported, and which report was printed.
 */
module Cli {
  import opened Wrappers
  import opened Resolver
  import Checklist
  import Markers

  /** The positional argument, after `int()` has decided whether it is a task number. */
  datatype Input = Number(n: int) | PathArg(path: string)

  /** What the file system shows the process. */
  datatype Disk = Disk(
    tasks: seq<string>,             // entries of `tasks/`, in the order the glob yields them
    existing: set<string>,          // paths for which `exists()` holds
    readable: map<string, string>)  // paths whose UTF-8 text can be read, with that text as `read_text` returns it

  /** How the side effects turn out. */
  datatype Effects = Effects(
    copyOk: bool,               // `shutil.copy2` to the backup path succeeds
    response: Option<string>,   // the line typed at the prompt; None when input ends first
    writeOk: bool)              // `write_text` succeeds

  /** Which final message the run prints. */
  datatype Report =
    | NotFound
    | ReadFailed
    | NothingToDo
    | WouldUpdate(count: int)
    | PromptClosed
    | Aborted
    | Updated(count: int)
    | WriteFailed

  datatype Write = Write(path: string, text: string)

  datatype Outcome = Outcome(
    exitCode: int,
    backup: Option<string>,       // the backup copy made, if any
    written: Option<Write>,       // the file written, if any
    backupShown: Option<string>,  // the backup location printed after the write, if any
    report: Report)

  /**
   `int(arg)` decides between a task number and a path (plain numerals only):
   a numeral is a task number, read back to the number it writes; anything
   else is a path, kept as typed.
   */
  function Classify(arg: string): (r: Input)
    ensures r.Number? <==> (0 < |arg| && AllDigits(arg)) || (1 < |arg| && arg[0] == '-' && AllDigits(arg[1..]))
    ensures r.Number? && arg[0] != '-' && (|arg| == 1 || arg[0] != '0') ==> Decimal(r.n) == arg
    ensures r.Number? && arg[0] == '-' && arg[1] != '0' ==> Decimal(r.n) == arg
    ensures r.PathArg? ==> r.path == arg
  {
    match ParseInt(arg)
    case Some(n) => Number(n)
    case None => PathArg(arg)
  }

  /** The numeral of a task number is read back as that number. */
  lemma ClassifyNumeral(n: int)
    ensures Classify(Decimal(n)) == Number(n)
  {
    DecimalRoundTrip(n);
  }

  /** Leading zeros do not change the task number: `0118` is task 118, and `-0` is task 0. */
  lemma ClassifyLeadingZero(t: string)
    requires 0 < |t| && AllDigits(t)
    ensures Classify("0" + t) == Classify(t)
    ensures Classify("-0" + t) == Classify("-" + t)
    ensures Classify("-0") == Number(0)
  {
    ParseIntLeadingZero(t);
  }

  /** An argument holding a `/` is never a number, so it is taken as a path. */
  lemma ClassifyPath(arg: string)
    requires '/' in arg
    ensures Classify(arg) == PathArg(arg)
  {
    var i :| 0 <= i < |arg| && arg[i] == '/';
    assert !IsDigit(arg[i]);
    if 0 < i {
      assert !AllDigits(arg[1..]) by { assert arg[1..][i - 1] == '/'; }
    }
  }

  // ---------------------------------------------------------------------------
  // Paths

  /** The position of the last `/` in `s`, if any. */
  function LastSlash(s: string): (r: Option<nat>)
    ensures r.Some? ==> r.value < |s| && s[r.value] == '/'
    ensures r.Some? ==> forall j :: r.value < j < |s| ==> s[j] != '/'
    ensures r.None? ==> '/' !in s
    decreases |s|
  {
    if |s| == 0 then None
    else if s[|s| - 1] == '/' then Some(|s| - 1)
    else LastSlash(s[..|s| - 1])
  }

  /** The directory part of a path, up to and including its last `/`. */
  function Parent(s: string): string {
    match LastSlash(s)
    case Some(i) => s[..i + 1]
    case None => ""
  }

  /** The final component of a path. */
  function Name(s: string): string {
    match LastSlash(s)
    case Some(i) => s[i + 1..]
    case None => s
  }

  /**
   `path.with_suffix(path.suffix + ".bak")`: the backup lies in the same
   directory as the original, named after it with `.bak` appended.
   */
  function BackupPath(path: string): (r: string)
    ensures Parent(r) == Parent(path)
    ensures Name(r) == Name(path) + ".bak"
  {
    var w := path + ".bak";
    LastSlashAppend(path, ".bak");
    match LastSlash(path)
    case Some(i) =>
      assert w[..i + 1] == path[..i + 1];
      assert w[i + 1..] == path[i + 1..] + ".bak";
      w
    case None => w
  }

  lemma {:induction false} LastSlashAppend(s: string, t: string)
    requires '/' !in t
    ensures LastSlash(s + t) == LastSlash(s)
    decreases |t|
  {
    if |t| > 0 {
      var w := s + t;
      assert w[|w| - 1] == t[|t| - 1];
      assert w[..|w| - 1] == s + t[..|t| - 1];
      LastSlashAppend(s, t[..|t| - 1]);
    } else {
      assert s + t == s;
    }
  }

  // ---------------------------------------------------------------------------
  // The operator's answer

  function LowerChar(c: char): char {
    if 'A' <= c <= 'Z' then (c as int + 32) as char else c
  }

  /** `str.lower()` on ASCII letters. */
  function Lower(s: string): (r: string)
    ensures |r| == |s|
  {
    seq(|s|, i requires 0 <= i < |s| => LowerChar(s[i]))
  }

  /** `response.lower() == "y"`: the operator goes on without a backup on `y` or `Y` and on nothing else. */
  function Confirms(response: string): (r: bool)
    ensures r <==> response == "y" || response == "Y"
  {
    assert |response| == 1 ==> Lower(response) == [LowerChar(response[0])];
    Lower(response) == "y"
  }

  // ---------------------------------------------------------------------------
  // The run

  /** The resolution step of `main`: the file to work on, or why there is none. */
  function ResolvePath(input: Input, disk: Disk): (r: Result<string, ResolveError>)
    ensures r.Success? ==> r.value in disk.existing
    ensures input.PathArg? ==> (r.Success? <==> input.path in disk.existing)
    ensures input.PathArg? && r.Success? ==> r.value == input.path
    ensures input.Number? ==> (r.Success? <==>
      FindTaskFile(disk.tasks, input.n).Success? && FindTaskFile(disk.tasks, input.n).value in disk.existing)
    ensures input.Number? && r.Success? ==> r.value == FindTaskFile(disk.tasks, input.n).value
    ensures input.Number? && FindTaskFile(disk.tasks, input.n).Failure? ==> r == Failure(TaskNotFound(input.n))
  {
    match input
    case Number(n) =>
      (match FindTaskFile(disk.tasks, n)
       case Failure(e) => Failure(e)
       case Success(p) => if p in disk.existing then Success(p) else Failure(FileNotFound(p)))
    case PathArg(p) =>
      if p in disk.existing then Success(p) else Failure(FileNotFound(p))
  }

  /**
   The backup prompt and the final write of `main`: back up (or ask), then
   write. The file is written when the operator lets the write go ahead and
   the write succeeds, and the run succeeds exactly then; the backup exists
   exactly when one is wanted and the copy succeeds; the backup location is
   shown after every write without `--no-backup`, whether or not the copy
   was made.
   */
  function Commit(path: string, updated: string, count: int, noBackup: bool, fx: Effects): (o: Outcome)
    ensures o.written.Some? <==> MayWrite(noBackup, fx) && fx.writeOk
    ensures o.written.Some? ==> o.written.value == Write(path, updated) && o.report == Updated(count)
    ensures o.exitCode == (if o.written.Some? then 0 else 1)
    ensures o.backup == (if !noBackup && fx.copyOk then Some(BackupPath(path)) else None)
    ensures o.backupShown == (if o.written.Some? && !noBackup then Some(BackupPath(path)) else None)
    ensures !MayWrite(noBackup, fx) ==> o.report == (if fx.response.None? then PromptClosed else Aborted)
    ensures MayWrite(noBackup, fx) && !fx.writeOk ==> o.report == WriteFailed
  {
    var backup := BackupPath(path);
    if !noBackup && !fx.copyOk && fx.response.None? then
      Outcome(1, None, None, None, PromptClosed)
    else if !noBackup && !fx.copyOk && !Confirms(fx.response.value) then
      Outcome(1, None, None, None, Aborted)
    else
      var copy := if !noBackup && fx.copyOk then Some(backup) else None;
      if fx.writeOk then
        Outcome(0, copy, Some(Write(path, updated)), if noBackup then None else Some(backup), Updated(count))
      else
        Outcome(1, copy, None, None, WriteFailed)
  }

  /**
   The steps of `main` after the read: update the text, then stop when
   nothing was ticked, report a dry run, or commit the ticked text.
   */
  function Apply(path: string, content: string, dryRun: bool, noBackup: bool, fx: Effects): (o: Outcome)
    ensures var n := Markers.Count(Markers.Unchecked, content, 0);
      && (n == 0 ==> o == Outcome(0, None, None, None, NothingToDo))
      && (n != 0 && dryRun ==> o == Outcome(0, None, None, None, WouldUpdate(n)))
      && (n != 0 && !dryRun ==> o == Commit(path, Markers.Tick(content), n, noBackup, fx))
  {
    var (updated, count) := Checklist.UpdateCheckboxes(content);
    if count == 0 then Outcome(0, None, None, None, NothingToDo)
    else if dryRun then Outcome(0, None, None, None, WouldUpdate(count))
    else Commit(path, updated, count, noBackup, fx)
  }

  /** `main` after argument parsing. */
  function Run(input: Input, dryRun: bool, noBackup: bool, disk: Disk, fx: Effects): (o: Outcome)
    ensures o.exitCode == 0 || o.exitCode == 1
    ensures o.exitCode == 0 <==> o.report.NothingToDo? || o.report.WouldUpdate? || o.report.Updated?
    ensures o.written.Some? ==> o.exitCode == 0 && !dryRun
    ensures o.backup.Some? ==> !noBackup && !dryRun
    ensures o.backupShown.Some? ==> o.written.Some? && !noBackup
  {
    match ResolvePath(input, disk)
    case Failure(_) => Outcome(1, None, None, None, NotFound)
    case Success(path) =>
      if path !in disk.readable then Outcome(1, None, None, None, ReadFailed)
      else Apply(path, disk.readable[path], dryRun, noBackup, fx)
  }

  // ---------------------------------------------------------------------------
  // Properties of a run

  /** The operator lets the write go ahead: no backup wanted, the backup made, or `y`/`Y` typed. */
  predicate MayWrite(noBackup: bool, fx: Effects) {
    noBackup || fx.copyOk || fx.response == Some("y") || fx.response == Some("Y")
  }

  /** Once the file is resolved and read, the run is the update of its text. */
  lemma RunIsApply(input: Input, dryRun: bool, noBackup: bool, disk: Disk, fx: Effects, path: string)
    requires ResolvePath(input, disk) == Success(path) && path in disk.readable
    ensures Run(input, dryRun, noBackup, disk, fx) == Apply(path, disk.readable[path], dryRun, noBackup, fx)
  {
  }

  /**
   Without a readable resolved file the run fails and touches nothing; it
   reports a file that cannot be found apart from one that cannot be read.
   */
  lemma RunWithoutFile(input: Input, dryRun: bool, noBackup: bool, disk: Disk, fx: Effects)
    requires ResolvePath(input, disk).Failure? || ResolvePath(input, disk).value !in disk.readable
    ensures var o := Run(input, dryRun, noBackup, disk, fx);
      && o.exitCode == 1 && o.backup.None? && o.written.None?
      && o.report == (if ResolvePath(input, disk).Failure? then NotFound else ReadFailed)
  {
  }

  /** A text with nothing to tick ends the run successfully without a backup or a write. */
  lemma RunNothingToDo(input: Input, dryRun: bool, noBackup: bool, disk: Disk, fx: Effects, path: string)
    requires ResolvePath(input, disk) == Success(path) && path in disk.readable
    requires forall p :: 0 <= p < |disk.readable[path]| ==> !Markers.OpenItem(disk.readable[path], p)
    ensures Run(input, dryRun, noBackup, disk, fx) == Outcome(0, None, None, None, NothingToDo)
  {
    RunIsApply(input, dryRun, noBackup, disk, fx, path);
    Checklist.UpdateNoItems(disk.readable[path]);
  }

  /** A dry run never backs up or writes; with something to tick it reports the count and succeeds. */
  lemma RunDryRun(input: Input, noBackup: bool, disk: Disk, fx: Effects, path: string)
    requires ResolvePath(input, disk) == Success(path) && path in disk.readable
    ensures var o := Run(input, true, noBackup, disk, fx);
      var n := Markers.Count(Markers.Unchecked, disk.readable[path], 0);
      && o.exitCode == 0 && o.backup.None? && o.written.None?
      && o.report == (if n == 0 then NothingToDo else WouldUpdate(n))
  {
    RunIsApply(input, true, noBackup, disk, fx, path);
  }

  /**
   The file is written exactly when there is something to tick, it is not a
   dry run, the operator lets the write go ahead and the write succeeds; what
   is written is the resolved file's text with its list items ticked.
   */
  lemma RunWritesExactly(input: Input, dryRun: bool, noBackup: bool, disk: Disk, fx: Effects, path: string)
    requires ResolvePath(input, disk) == Success(path) && path in disk.readable
    ensures var o := Run(input, dryRun, noBackup, disk, fx);
      var text := disk.readable[path];
      && (o.written.Some? <==>
          Markers.Count(Markers.Unchecked, text, 0) > 0 && !dryRun && MayWrite(noBackup, fx) && fx.writeOk)
      && (o.written.Some? ==> o.written.value == Write(path, Markers.Tick(text)))
  {
    RunIsApply(input, dryRun, noBackup, disk, fx, path);
  }

  /** When the copy fails and the operator does not answer `y`, the run aborts with status 1 and touches nothing. */
  lemma RunDeclined(input: Input, noBackup: bool, disk: Disk, fx: Effects, path: string)
    requires ResolvePath(input, disk) == Success(path) && path in disk.readable
    requires Markers.Count(Markers.Unchecked, disk.readable[path], 0) > 0
    requires !noBackup && !fx.copyOk && !MayWrite(noBackup, fx)
    ensures var o := Run(input, false, noBackup, disk, fx);
      && o.exitCode == 1 && o.backup.None? && o.written.None?
      && o.report == (if fx.response.None? then PromptClosed else Aborted)
  {
    RunIsApply(input, false, noBackup, disk, fx, path);
  }

  /**
   A backup is made exactly when a real run with something to tick wants one
   and the copy succeeds; it sits next to the resolved file, named with `.bak`
   appended.
   */
  lemma RunBackup(input: Input, dryRun: bool, noBackup: bool, disk: Disk, fx: Effects, path: string)
    requires ResolvePath(input, disk) == Success(path) && path in disk.readable
    ensures var o := Run(input, dryRun, noBackup, disk, fx);
      && (o.backup.Some? <==>
          Markers.Count(Markers.Unchecked, disk.readable[path], 0) > 0 && !dryRun && !noBackup && fx.copyOk)
      && (o.backup.Some? ==> o.backup.value == BackupPath(path))
  {
    RunIsApply(input, dryRun, noBackup, disk, fx, path);
  }

  /** Without `--no-backup`, a write implies that a backup was made or that `y` or `Y` was typed. */
  lemma RunWriteNeedsBackupOrYes(input: Input, dryRun: bool, disk: Disk, fx: Effects)
    ensures var o := Run(input, dryRun, false, disk, fx);
      o.written.Some? ==> o.backup.Some? || fx.response == Some("y") || fx.response == Some("Y")
  {
  }

  /**
   After a failed copy and a `y`, the run still prints a backup location,
   because the final write step tests only `--no-backup` before printing it;
   no backup exists there.
   */
  lemma RunReportsMissingBackup(input: Input, disk: Disk, fx: Effects, path: string)
    requires ResolvePath(input, disk) == Success(path) && path in disk.readable
    requires Markers.Count(Markers.Unchecked, disk.readable[path], 0) > 0
    requires !fx.copyOk && fx.response == Some("y") && fx.writeOk
    ensures var o := Run(input, false, false, disk, fx);
      o.backup.None? && o.written.Some? && o.backupShown == Some(BackupPath(path))
  {
    RunIsApply(input, false, false, disk, fx, path);
  }
}
