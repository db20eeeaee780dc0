/** Replacing the user file by a complete new one, `replaceFileAtomically` and the end of `SaveUsersToFile`
    in USER/udata/udata.cpp, on systems where a plain rename may fail: the old file is kept under a backup
    name meanwhile. A file is its contents; a failing operation leaves all files as they are. */
module FileReplace {
  import opened Wrappers

  datatype Files = Files(temp: Option<string>, target: Option<string>, backup: Option<string>)

  /** Which operations fail. */
  datatype Faults = Faults(rename: bool, removeBackup: bool,
    moveAside: bool, replace: bool, restore: bool, cleanUp: bool)

  datatype Outcome = InPlace | Kept | RestoreFailed

  /** The old copy is complete under one of two names, or the new copy is in place. */
  predicate Safe(f: Files, before: string, after: string) {
    f.target == Some(before) || f.backup == Some(before) || f.target == Some(after)
  }

  /** What the faults lead to. */
  function Result(faults: Faults): Outcome {
    if !faults.rename then InPlace
    else if faults.removeBackup || faults.moveAside then Kept
    else if !faults.replace then InPlace
    else if faults.restore then RestoreFailed
    else Kept
  }

  function TempToTarget(f: Files): Files { Files(None, f.temp, f.backup) }

  function TargetToBackup(f: Files): Files { Files(f.temp, None, f.target) }

  function BackupToTarget(f: Files): Files { Files(f.temp, f.backup, None) }

  function WithoutBackup(f: Files): Files { f.(backup := None) }

  /** What is then under the target's name. */
  function TargetAfter(f: Files, faults: Faults): Option<string> {
    match Result(faults)
    case InPlace => f.temp
    case Kept => f.target
    case RestoreFailed => None
  }

  /** The states the files go through, one for each operation that does not fail. */
  function Trace(f: Files, faults: Faults): seq<Files> {
    if !faults.rename then [TempToTarget(f)]
    else if faults.removeBackup then []
    else
      var cleared := WithoutBackup(f);
      if faults.moveAside then [cleared]
      else
        var aside := TargetToBackup(cleared);
        if !faults.replace then
          [cleared, aside, TempToTarget(aside)] + (if faults.cleanUp then [] else [WithoutBackup(TempToTarget(aside))])
        else if faults.restore then [cleared, aside]
        else [cleared, aside, BackupToTarget(aside)]
  }

  function Last(f: Files, trace: seq<Files>): Files { if trace == [] then f else trace[|trace| - 1] }

  /** Whatever fails, and wherever the sequence is cut short, a complete copy exists; at the end the target
      is new after success, old after a failure, and missing exactly when restoring it failed too. */
  lemma AlwaysSafe(f: Files, faults: Faults)
    requires f.temp.Some? && f.target.Some?
    ensures forall i :: 0 <= i < |Trace(f, faults)| ==> Safe(Trace(f, faults)[i], f.target.value, f.temp.value)
    ensures var last := Last(f, Trace(f, faults));
      match Result(faults)
      case InPlace => last.target == f.temp && last.temp == None
      case Kept => last.target == f.target && last.temp == f.temp
      case RestoreFailed => last == Files(f.temp, None, f.target)
  {
    var trace := Trace(f, faults);
    if faults.rename && !faults.removeBackup && !faults.moveAside {
      var aside := TargetToBackup(WithoutBackup(f));
      assert trace[..2] == [WithoutBackup(f), aside];
    }
  }

  class FileSystem {
    var files: Files
    /** Every state the files have been in, which is what a crash can leave behind. */
    ghost var history: seq<Files>

    constructor (target: Option<string>)
      ensures files == Files(None, target, None) && history == [files]
    {
      files := Files(None, target, None);
      history := [Files(None, target, None)];
    }

    method Become(next: Files)
      modifies this
      ensures files == next && history == old(history) + [next]
    {
      files := next;
      history := history + [next];
    }

    /** `rename` moves a file and replaces the one that has the new name. */
    method RenameTempToTarget(fails: bool) returns (ok: bool)
      requires files.temp.Some?
      modifies this
      ensures ok == !fails
      ensures files == if ok then TempToTarget(old(files)) else old(files)
      ensures history == old(history) + if ok then [files] else []
    {
      if !fails { Become(TempToTarget(files)); }
      ok := !fails;
    }

    method RenameTargetToBackup(fails: bool) returns (ok: bool)
      requires files.target.Some?
      modifies this
      ensures ok == !fails
      ensures files == if ok then TargetToBackup(old(files)) else old(files)
      ensures history == old(history) + if ok then [files] else []
    {
      if !fails { Become(TargetToBackup(files)); }
      ok := !fails;
    }

    method RenameBackupToTarget(fails: bool) returns (ok: bool)
      requires files.backup.Some?
      modifies this
      ensures ok == !fails
      ensures files == if ok then BackupToTarget(old(files)) else old(files)
      ensures history == old(history) + if ok then [files] else []
    {
      if !fails { Become(BackupToTarget(files)); }
      ok := !fails;
    }

    method RemoveBackup(fails: bool) returns (ok: bool)
      modifies this
      ensures ok == !fails
      ensures files == if ok then WithoutBackup(old(files)) else old(files)
      ensures history == old(history) + if ok then [files] else []
    {
      if !fails { Become(WithoutBackup(files)); }
      ok := !fails;
    }

    method ReplaceFileAtomically(faults: Faults) returns (outcome: Outcome)
      requires files.temp.Some? && files.target.Some?
      modifies this
      ensures outcome == Result(faults)
      ensures history == old(history) + Trace(old(files), faults)
      ensures files == Last(old(files), Trace(old(files), faults))
    {
      var ok := RenameTempToTarget(faults.rename);
      if ok { return InPlace; }
      ok := RemoveBackup(faults.removeBackup);
      if !ok { return Kept; }
      ok := RenameTargetToBackup(faults.moveAside);
      if !ok { return Kept; }
      ok := RenameTempToTarget(faults.replace);
      if !ok {
        ok := RenameBackupToTarget(faults.restore);
        return if ok then Kept else RestoreFailed;
      }
      var _ := RemoveBackup(faults.cleanUp);
      outcome := InPlace;
    }

    /** The end of a save: a temporary file that was not put in place is removed. */
    method FinishSave(faults: Faults, removeFails: bool) returns (ok: bool)
      requires files.temp.Some? && files.target.Some?
      modifies this
      ensures ok <==> Result(faults).InPlace?
      ensures files.target == TargetAfter(old(files), faults)
      ensures Result(faults).RestoreFailed? ==> files.backup == old(files).target
      ensures !removeFails ==> files.temp == None
    {
      AlwaysSafe(files, faults);
      var outcome := ReplaceFileAtomically(faults);
      ok := outcome.InPlace?;
      if !ok && !removeFails { Become(files.(temp := None)); }
    }
  }
}
