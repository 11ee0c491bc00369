/**
 * Replacing a private file so that a crash at any moment leaves either the complete old or the
 * complete new contents. Which file-system calls fail, and how, is a parameter of each operation,
 * and every state the disk passes through is kept in a history: a crash is stopping at one of them.
 */
module PrivateFile {
  import opened Wrappers
  import opened Files

  /** The file, its `.bak` and the temporary file being written. */
  datatype Disk<V> = Disk(main: Option<V>, backup: Option<V>, temp: Option<V>)

  /** What the next process finds in the file once it has run the backup recovery. */
  function AfterRecovery<V>(d: Disk<V>): Option<V> {
    if d.main.Some? then d.main else d.backup
  }

  /** After recovery the file would hold the old contents or the new ones, complete. */
  ghost predicate OldOrNew<V>(d: Disk<V>, old': Option<V>, value: V) {
    AfterRecovery(d) == old' || AfterRecovery(d) == Some(value)
  }

  ghost predicate HistorySafe<V>(history: seq<Disk<V>>, from: nat, old': Option<V>, value: V) {
    forall k :: from <= k < |history| ==> OldOrNew(history[k], old', value)
  }

  ghost predicate HistoryKeeps<V>(history: seq<Disk<V>>, from: nat, old': Option<V>) {
    forall k :: from <= k < |history| ==> AfterRecovery(history[k]) == old'
  }

  ghost predicate Extends<V>(history: seq<Disk<V>>, before: seq<Disk<V>>) {
    |before| <= |history| && history[..|before|] == before
  }

  /** What was safe up to some moment and is safe from then on is safe throughout. */
  lemma SafeGoesOn<V>(start: seq<Disk<V>>, until: seq<Disk<V>>, history: seq<Disk<V>>, old': Option<V>, value: V)
    requires Extends(until, start) && Extends(history, until)
    requires HistorySafe(until, |start|, old', value) && HistorySafe(history, |until|, old', value)
    ensures Extends(history, start) && HistorySafe(history, |start|, old', value)
  {
    assert history[..|start|] == history[..|until|][..|start|];
    forall k | |start| <= k < |until| ensures OldOrNew(history[k], old', value) {
      assert history[k] == history[..|until|][k] == until[k];
    }
  }

  /** Why a call fails apart from a missing file, or None if nothing is in its way. */
  type Fault = f: Option<Errno> | f != Some(ENOENT) witness None

  /** The error of a call that needs a file to be present. */
  function Outcome(present: bool, fault: Fault): Option<Errno> {
    if fault.Some? then fault else if present then None else Some(ENOENT)
  }

  /** What may go wrong while the backup is recovered. */
  datatype RecoveryFaults = RecoveryFaults(stat: Fault, remove: Fault, rename: Fault)

  /** What may go wrong while the file is replaced; the two renames that are tried again count their attempts from 0. */
  datatype ReplaceFaults = ReplaceFaults(
    direct: Fault, drop: Fault, aside: nat -> Fault, into: nat -> Fault, dropAgain: Fault, putBack: Fault)

  datatype WriteFaults = WriteFaults(write: Fault, replace: ReplaceFaults, removeTemp: Fault)

  /** Errors after which a rename is tried again. */
  predicate Transient(fault: Fault) {
    fault == Some(EPERM) || fault == Some(EACCES)
  }

  /** Errors of the direct rename after which the long way is taken. */
  predicate InTheWay(fault: Fault) {
    fault == Some(EEXIST) || Transient(fault)
  }

  /** What a rename that is tried up to five times ends with. */
  function Retried(faults: nat -> Fault, attempt: nat): Fault
    requires attempt <= 4
    decreases 4 - attempt
  {
    if Transient(faults(attempt)) && attempt < 4 then Retried(faults, attempt + 1) else faults(attempt)
  }

  /** Attempt `k` meets no fault, and those made before it only transient ones. */
  predicate WorksAt(faults: nat -> Fault, first: nat, k: nat) {
    faults(k).None? && forall j: nat :: first <= j < k ==> Transient(faults(j))
  }

  lemma {:induction false} RetriedIff(faults: nat -> Fault, attempt: nat)
    requires attempt <= 4
    ensures Retried(faults, attempt).None? <==> exists k: nat :: attempt <= k < 5 && WorksAt(faults, attempt, k)
    decreases 4 - attempt
  {
    forall k: nat | attempt <= k < 5
      ensures WorksAt(faults, attempt, k) <==>
              if k == attempt then faults(k).None? else Transient(faults(attempt)) && WorksAt(faults, attempt + 1, k)
    {}
    if attempt == 4 {
      assert WorksAt(faults, 4, 4) <==> faults(4).None?;
    } else {
      RetriedIff(faults, attempt + 1);
      assert WorksAt(faults, attempt, attempt) <==> faults(attempt).None?;
    }
  }

  /** Replacing the file works exactly if this is None. */
  function ReplaceError(faults: ReplaceFaults): Fault {
    if !InTheWay(faults.direct) then faults.direct
    else if faults.drop.Some? then faults.drop
    else if Retried(faults.aside, 0).Some? then Retried(faults.aside, 0)
    else if Retried(faults.into, 0).Some? then Retried(faults.into, 0)
    else faults.dropAgain
  }

  /** One of the five attempts works. */
  ghost predicate GetsThrough(faults: nat -> Fault) {
    exists k: nat :: k < 5 && WorksAt(faults, 0, k)
  }

  /**
   * Replacing works exactly if the direct rename does, or if it finds the old file in the way and
   * then dropping the backup, both retried renames and dropping the backup again work.
   */
  lemma ReplaceWorksIff(faults: ReplaceFaults)
    ensures ReplaceError(faults).None? <==>
            || faults.direct.None?
            || (&& faults.direct in {Some(EEXIST), Some(EPERM), Some(EACCES)}
                && faults.drop.None? && GetsThrough(faults.aside) && GetsThrough(faults.into) && faults.dropAgain.None?)
  {
    RetriedIff(faults.aside, 0);
    RetriedIff(faults.into, 0);
  }

  function RecoveryError(present: bool, faults: RecoveryFaults): Fault {
    if faults.stat.Some? then faults.stat else if present then faults.remove else faults.rename
  }

  function WriteError(faults: WriteFaults): Fault {
    if faults.write.Some? then faults.write
    else if ReplaceError(faults.replace).Some? && faults.removeTemp.Some? then faults.removeTemp
    else ReplaceError(faults.replace)
  }

  /** What a write leaves. */
  function AfterWrite<V>(before: Disk<V>, value: V, cutShort: V, faults: WriteFaults): Disk<V> {
    if faults.write.Some? then before.(temp := Some(cutShort))
    else if ReplaceError(faults.replace).None? then Disk(Some(value), None, None)
    else
      var failed := AfterFailure(before.(temp := Some(value)), value, faults.replace);
      if faults.removeTemp.Some? then failed else failed.(temp := None)
  }

  /** What a failed replacement leaves. */
  function AfterFailure<V>(before: Disk<V>, value: V, faults: ReplaceFaults): Disk<V>
    requires ReplaceError(faults).Some?
  {
    if !InTheWay(faults.direct) || faults.drop.Some? || Retried(faults.aside, 0).Some? then before
    else if Retried(faults.into, 0).Some? then
      if before.main.None? || faults.putBack.None? then before else Disk(None, before.main, Some(value))
    else if before.main.None? then Disk(Some(value), None, None)
    else if faults.putBack.None? then Disk(before.main, None, None)
    else Disk(Some(value), before.main, None)
  }

  class PrivateFile<V(==)> {
    var disk: Disk<V>
    ghost var history: seq<Disk<V>>

    constructor (disk: Disk<V>)
      ensures this.disk == disk && history == [disk]
    {
      this.disk, this.history := disk, [disk];
    }

    method Record()
      modifies this`history
      ensures history == old(history) + [disk]
    {
      history := history + [disk];
    }

    /** `rename(temporary, path)`. */
    method RenameTempToMain(fault: Fault) returns (error: Option<Errno>)
      modifies this
      ensures error == Outcome(old(disk).temp.Some?, fault)
      ensures disk == if error.None? then Disk(old(disk).temp, old(disk).backup, None) else old(disk)
      ensures history == old(history) + [disk]
    {
      error := Outcome(disk.temp.Some?, fault);
      if error.None? { disk := Disk(disk.temp, disk.backup, None); }
      Record();
    }

    /** `rename(path, backup)`. */
    method RenameMainToBackup(fault: Fault) returns (error: Option<Errno>)
      modifies this
      ensures error == Outcome(old(disk).main.Some?, fault)
      ensures disk == if error.None? then Disk(None, old(disk).main, old(disk).temp) else old(disk)
      ensures history == old(history) + [disk]
    {
      error := Outcome(disk.main.Some?, fault);
      if error.None? { disk := Disk(None, disk.main, disk.temp); }
      Record();
    }

    /** `rename(backup, path)`. */
    method RenameBackupToMain(fault: Fault) returns (error: Option<Errno>)
      modifies this
      ensures error == Outcome(old(disk).backup.Some?, fault)
      ensures disk == if error.None? then Disk(old(disk).backup, None, old(disk).temp) else old(disk)
      ensures history == old(history) + [disk]
    {
      error := Outcome(disk.backup.Some?, fault);
      if error.None? { disk := Disk(disk.backup, None, disk.temp); }
      Record();
    }

    /** `rm(backup, { force: true })`. */
    method RemoveBackup(fault: Fault) returns (error: Option<Errno>)
      modifies this
      ensures error == fault
      ensures disk == if error.None? then old(disk).(backup := None) else old(disk)
      ensures history == old(history) + [disk]
    {
      error := fault;
      if error.None? { disk := disk.(backup := None); }
      Record();
    }

    /** Completing normally it restores what the crash left; failing or crashing it changes nothing of it. */
    method RecoverPrivateBackup(faults: RecoveryFaults) returns (error: Option<Errno>)
      modifies this
      ensures error == RecoveryError(old(disk).main.Some?, faults)
      ensures disk == if error.None? then Disk(AfterRecovery(old(disk)), None, old(disk).temp) else old(disk)
      ensures Extends(history, old(history)) && |old(history)| < |history| && history[|history| - 1] == disk
      ensures HistoryKeeps(history, |old(history)|, AfterRecovery(old(disk)))
    {
      var statError := Outcome(disk.main.Some?, faults.stat);
      Record();
      if statError.None? {
        error := RemoveBackup(faults.remove);
        return error;
      }
      if statError != Some(ENOENT) { return statError; }
      error := RenameBackupToMain(faults.rename);
      if error == Some(ENOENT) { error := None; }
    }

    /**
     * Returning normally the file holds the new contents and no backup remains. At every moment,
     * and after any failure, recovery finds the old or the new contents; it finds the new ones
     * after a failure only if the backup of the old file could not be dropped, and there was none
     * or it could not be put back.
     */
    method RenamePrivateFile(value: V, faults: ReplaceFaults) returns (error: Option<Errno>)
      requires disk.temp == Some(value) && disk.backup.None?
      modifies this
      ensures error == ReplaceError(faults)
      ensures error.None? ==> disk == Disk(Some(value), None, None)
      ensures error.Some? ==> disk == AfterFailure(old(disk), value, faults)
      ensures Extends(history, old(history))
      ensures HistorySafe(history, |old(history)|, old(disk).main, value)
    {
      ghost var start := history;
      error := RenameTempToMain(faults.direct);
      if error.None? { return None; }
      if error != Some(EEXIST) && error != Some(EPERM) && error != Some(EACCES) { return error; }
      ghost var h := history;
      error := ReplaceByBackup(value, faults);
      SafeGoesOn(start, h, history, old(disk).main, value);
    }

    /** The long way, when the old file is in the way of a direct rename. */
    method ReplaceByBackup(value: V, faults: ReplaceFaults) returns (error: Option<Errno>)
      requires disk.temp == Some(value) && disk.backup.None? && InTheWay(faults.direct)
      modifies this
      ensures error == ReplaceError(faults)
      ensures error.None? ==> disk == Disk(Some(value), None, None)
      ensures error.Some? ==> disk == AfterFailure(old(disk), value, faults)
      ensures Extends(history, old(history))
      ensures HistorySafe(history, |old(history)|, old(disk).main, value)
    {
      ghost var start, main := history, disk.main;
      error := RemoveBackup(faults.drop);
      if error.Some? { return error; }
      var previousMoved := false;
      ghost var h := history;
      error, previousMoved := MoveAside(value, faults.aside);
      SafeGoesOn(start, h, history, main, value);
      h := history;
      if error.None? { error := MoveIn(value, faults.into); }
      SafeGoesOn(start, h, history, main, value);
      h := history;
      if error.None? { error := RemoveBackup(faults.dropAgain); }
      SafeGoesOn(start, h, history, main, value);
      h := history;
      if error.Some? && previousMoved {
        var _ := RenameBackupToMain(faults.putBack);
      }
      SafeGoesOn(start, h, history, main, value);
    }

    /** The first retry loop: move the present file to the backup name. */
    method MoveAside(value: V, faults: nat -> Fault) returns (error: Option<Errno>, previousMoved: bool)
      requires disk.temp == Some(value) && disk.backup.None?
      modifies this
      ensures error == Retried(faults, 0)
      ensures previousMoved <==> error.None? && old(disk).main.Some?
      ensures disk == if previousMoved then Disk(None, old(disk).main, Some(value)) else old(disk)
      ensures Extends(history, old(history))
      ensures HistoryKeeps(history, |old(history)|, old(disk).main)
    {
      error, previousMoved := None, false;
      for attempt := 0 to 5
        invariant attempt <= 4 // the fifth attempt always returns
        invariant Retried(faults, attempt) == Retried(faults, 0) && disk == old(disk)
        invariant Extends(history, old(history))
        invariant HistoryKeeps(history, |old(history)|, old(disk).main)
      {
        var failed := RenameMainToBackup(faults(attempt));
        if failed.None? { return None, true; }
        if failed == Some(ENOENT) { return None, false; }
        if (failed != Some(EPERM) && failed != Some(EACCES)) || attempt == 4 { return failed, false; }
      }
      assert false;
    }

    /** The second retry loop: move the new file to the free name. */
    method MoveIn(value: V, faults: nat -> Fault) returns (error: Option<Errno>)
      requires disk.temp == Some(value) && disk.main.None?
      modifies this
      ensures error == Retried(faults, 0)
      ensures disk == if error.None? then Disk(Some(value), old(disk).backup, None) else old(disk)
      ensures Extends(history, old(history))
      ensures HistorySafe(history, |old(history)|, old(disk).backup, value)
    {
      for attempt := 0 to 5
        invariant attempt <= 4 // the fifth attempt always returns
        invariant Retried(faults, attempt) == Retried(faults, 0) && disk == old(disk)
        invariant Extends(history, old(history))
        invariant HistorySafe(history, |old(history)|, old(disk).backup, value)
      {
        error := RenameTempToMain(faults(attempt));
        if error.None? { return None; }
        if (error != Some(EPERM) && error != Some(EACCES)) || attempt == 4 { return error; }
      }
      assert false;
    }

    /** Writes the temporary file, which a crash may cut short, then replaces the file by it. */
    method AtomicPrivateWrite(value: V, cutShort: V, faults: WriteFaults) returns (error: Option<Errno>)
      requires disk.backup.None?
      modifies this
      ensures error == WriteError(faults)
      ensures disk == AfterWrite(old(disk), value, cutShort, faults)
      ensures OldOrNew(disk, old(disk).main, value)
      ensures |history| > |old(history)| && history[|old(history)|] == old(disk).(temp := Some(cutShort))
      ensures faults.write.None? ==>
                |history| > |old(history)| + 1 && history[|old(history)| + 1] == old(disk).(temp := Some(value))
      ensures error.Some? && faults.removeTemp.None? ==> history[|history| - 1] == disk
      ensures Extends(history, old(history))
      ensures HistorySafe(history, |old(history)|, old(disk).main, value)
    {
      disk := disk.(temp := Some(cutShort));
      Record();
      if faults.write.Some? { return faults.write; }
      disk := disk.(temp := Some(value));
      Record();
      error := RenamePrivateFile(value, faults.replace);
      if error.Some? {
        if faults.removeTemp.Some? { return faults.removeTemp; }
        disk := disk.(temp := None);
        Record();
      }
    }

    /** The write as the lock runs it: recovery first, whatever an earlier crash left behind. */
    method LockedWrite(value: V, cutShort: V, recovery: RecoveryFaults, faults: WriteFaults)
      returns (error: Option<Errno>)
      modifies this
      ensures error.None? <==> RecoveryError(old(disk).main.Some?, recovery).None? && WriteError(faults).None?
      ensures error.None? ==> disk == Disk(Some(value), None, None)
      ensures OldOrNew(disk, AfterRecovery(old(disk)), value)
      ensures Extends(history, old(history))
      ensures HistorySafe(history, |old(history)|, AfterRecovery(old(disk)), value)
    {
      error := RecoverPrivateBackup(recovery);
      if error.Some? { return error; }
      error := AtomicPrivateWrite(value, cutShort, faults);
    }
  }

  function StateBefore<V>(start: Disk<V>, states: seq<Disk<V>>, i: nat): Disk<V>
    requires i <= |states|
  {
    if i == 0 then start else states[i - 1]
  }

  /**
   * Attempts in a row, each cut off somewhere or completed: `states[i]` is where attempt `i`
   * stopped, an attempt that was allowed by the contract of `LockedWrite`.
   */
  ghost predicate Attempts<V>(start: Disk<V>, values: seq<V>, states: seq<Disk<V>>) {
    && |states| == |values|
    && forall i :: 0 <= i < |values| ==> OldOrNew(states[i], AfterRecovery(StateBefore(start, states, i)), values[i])
  }

  /** However many writes crash one after another, recovery finds the first contents or one value written. */
  lemma {:induction false} ManyCrashes<V>(start: Disk<V>, values: seq<V>, states: seq<Disk<V>>, n: nat)
    requires Attempts(start, values, states) && 0 < n <= |values|
    ensures || AfterRecovery(states[n - 1]) == AfterRecovery(start)
            || exists i :: 0 <= i < n && AfterRecovery(states[n - 1]) == Some(values[i])
    decreases n
  {
    var before := StateBefore(start, states, n - 1);
    assert OldOrNew(states[n - 1], AfterRecovery(before), values[n - 1]);
    if n == 1 {
    } else {
      ManyCrashes(start, values, states, n - 1);
      if AfterRecovery(before) != AfterRecovery(start) {
        var i :| 0 <= i < n - 1 && AfterRecovery(before) == Some(values[i]);
        assert 0 <= i < n;
      }
    }
  }
}
