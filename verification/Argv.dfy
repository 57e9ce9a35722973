/** argvout_final and argvout_free as the sequences of system calls they are. */
module Argv {
  import opened ArgvSpec
  import opened ArgvLaws
  import opened ArgvOutcomes

  datatype Phase = Running | Destruct(status: int)

  /** What S_argvout_free does to the names when the handle goes away. */
  function Freed(ed: Edit, faults: Faults, w: World, open: bool, phase: Phase, closed: bool, child: bool): World {
    if !open then w
    else if phase == Destruct(0) then Final(ed, faults, w, closed, child, false).1
    else if child then w
    else RemoveTemp(ed, faults, w)
  }

  /** A handle that was never closed abandons the edit, unless the program is ending well: the original
      stays what it is, and the work file is unlinked. A forked child leaves everything alone. */
  lemma FreedAbandons(ed: Edit, faults: Faults, w: World, open: bool, phase: Phase, closed: bool, child: bool,
                      was: Inode, work: Inode)
    requires Begins(ed, w, was, work) && phase != Destruct(0)
    ensures var end := Freed(ed, faults, w, open, phase, closed, child);
      && Untouched(ed, end.home, was) && AlwaysKept(ed, end.trace, was, work)
      && (if open && !child then LastUnlinks(end) else end == w)
  {
    RemoveTempKeeps(ed, faults, w, was, work, true);
  }

  /** One that is still open when the program ends well commits it. */
  lemma FreedCommits(ed: Edit, w: World, was: Inode, work: Inode)
    requires Begins(ed, w, was, work) && Reaches(ed)
    ensures Committed(ed, Freed(ed, _ => Fine, w, true, Destruct(0), true, false).home, was, work, true)
  {
    CommitOutcome(ed, _ => Fine, w, false, was, work);
    hide Final;
  }

  /** The kernel's side: two directories, and whatever goes wrong with call number n. */
  class Kernel {
    var home: Dir
    var away: Dir
    const faults: Faults
    var calls: nat
    ghost var trace: seq<Event>

    ghost predicate Valid()
      reads this
    {
      calls == |trace|
    }

    ghost function Snapshot(): World
      reads this
    {
      World(home, away, trace)
    }

    method Syscall(ed: Edit, call: Call) returns (answer: Answer)
      requires Valid() && ((call.LinkBackup? || call.RenameBackup?) ==> ed.backup.Some?)
      modifies this
      ensures Valid() && (answer, Snapshot()) == Sys(ed, faults, old(Snapshot()), call)
    {
      var fault := faults(calls);
      var astray := !call.StatDot? && ed.Astray(call.plain);
      var effect := Effect(ed, if astray then away else home, call);
      answer := if fault.Unsupported? then NotSupported else Bad;
      if fault.Fine? && effect.Some? {
        answer := Good;
        if astray {
          away := effect.value;
        } else {
          home := effect.value;
        }
      }
      calls := calls + 1;
      trace := trace + [Event(call, home, away)];
    }

    /** S_dir_unchanged; false stands for its croak. */
    method DirUnchangedCheck(ed: Edit) returns (ok: bool)
      requires Valid()
      modifies this
      ensures Valid() && (ok, Snapshot()) == DirUnchanged(ed, faults, old(Snapshot()))
    {
      hide Sys;
      if ed.absolute {
        return true;
      }
      var answer := Syscall(ed, StatDot);
      ok := !(answer.Good? && ed.cwdChanged);
    }

    method Try(ed: Edit, atCall: Call, plainCall: Call) returns (r: Option<bool>)
      requires Valid()
      requires forall c <- [atCall, plainCall] :: (c.LinkBackup? || c.RenameBackup?) ==> ed.backup.Some?
      modifies this
      ensures Valid() && (r, Snapshot()) == Attempt(ed, faults, old(Snapshot()), atCall, plainCall)
    {
      hide Sys;
      hide DirUnchanged;
      assert atCall in [atCall, plainCall] && plainCall in [atCall, plainCall];
      if ed.atFunctions {
        var answer := Syscall(ed, atCall);
        if !answer.NotSupported? {
          return Some(answer.Good?);
        }
        var same := DirUnchangedCheck(ed);
        if !same {
          return None;
        }
      }
      var answer := Syscall(ed, plainCall);
      r := Some(answer.Good?);
    }

    method UnlinkWork(ed: Edit)
      requires Valid()
      modifies this
      ensures Valid() && Snapshot() == RemoveTemp(ed, faults, old(Snapshot()))
    {
      hide Sys;
      var answer := NotSupported;
      if ed.atFunctions {
        answer := Syscall(ed, UnlinkTemp(false));
      }
      if answer.NotSupported? {
        answer := Syscall(ed, UnlinkTemp(true));
      }
    }

    /** From the label abort_inplace. */
    method AbortInplace(ed: Edit) returns (r: Outcome)
      requires Valid()
      modifies this
      ensures Valid() && (r, Snapshot()) == Abort(ed, faults, old(Snapshot()))
    {
      hide Sys;
      var answer := Syscall(ed, UnlinkTemp(true));
      r := Returned(false);
    }

    method MakeBackup(ed: Edit) returns (saved: Option<bool>)
      requires Valid() && ed.backup.Some?
      modifies this
      ensures Valid() && (saved, Snapshot()) == BackUp(ed, faults, old(Snapshot()))
    {
      hide Attempt;
      saved := Try(ed, LinkBackup(false), LinkBackup(true));
      if saved == Some(false) {
        saved := Try(ed, RenameBackup(false), RenameBackup(true));
      }
    }

    method BackupFailed(ed: Edit, explicit: bool) returns (r: Outcome)
      requires Valid()
      modifies this
      ensures Valid() && (r, Snapshot()) == NoBackup(ed, faults, old(Snapshot()), explicit)
    {
      hide Sys;
      hide DirUnchanged;
      hide Abort;
      if explicit {
        r := AbortInplace(ed);
        return;
      }
      if ed.atFunctions {
        var answer := Syscall(ed, UnlinkTemp(false));
        if answer.NotSupported? {
          var same := DirUnchangedCheck(ed);
          if !same {
            return Croaked(DirectoryChanged);
          }
          answer := Syscall(ed, UnlinkTemp(true));
        }
      } else {
        var answer := Syscall(ed, UnlinkTemp(true));
      }
      r := Croaked(CannotBackUp);
    }

    method ReplaceOriginal(ed: Edit, explicit: bool) returns (r: Outcome)
      requires Valid()
      modifies this
      ensures Valid() && (r, Snapshot()) == Replace(ed, faults, old(Snapshot()), explicit)
    {
      hide Attempt;
      hide Abort;
      hide RemoveTemp;
      var renamed := Try(ed, RenameTemp(false), RenameTemp(true));
      if renamed.None? {
        return Croaked(DirectoryChanged);
      }
      if renamed.value {
        return Returned(true);
      }
      if explicit {
        r := AbortInplace(ed);
      } else {
        UnlinkWork(ed);
        r := Croaked(CannotRename);
      }
    }

    /** S_argvout_final: `closed` is what io_close returned. */
    method ArgvoutFinal(ed: Edit, closed: bool, child: bool, explicit: bool) returns (r: Outcome)
      requires Valid()
      modifies this
      ensures Valid() && (r, Snapshot()) == Final(ed, faults, old(Snapshot()), closed, child, explicit)
    {
      hide DirUnchanged;
      hide BackUp;
      hide Replace;
      hide NoBackup;
      hide RemoveTemp;
      if child {
        return Returned(closed);
      }
      if !closed {
        UnlinkWork(ed);
        return if explicit then Returned(false) else Croaked(CannotClose);
      }
      if !ed.atFunctions {
        var same := DirUnchangedCheck(ed);
        if !same {
          return Croaked(DirectoryChanged);
        }
      }
      if ed.backup.Some? {
        var saved := MakeBackup(ed);
        if saved.None? {
          return Croaked(DirectoryChanged);
        }
        if !saved.value {
          r := BackupFailed(ed, explicit);
          return;
        }
      }
      r := ReplaceOriginal(ed, explicit);
    }

    /** S_argvout_free */
    method ArgvoutFree(ed: Edit, open: bool, phase: Phase, closed: bool, child: bool)
      requires Valid()
      modifies this
      ensures Valid() && Snapshot() == Freed(ed, faults, old(Snapshot()), open, phase, closed, child)
    {
      hide Final;
      hide RemoveTemp;
      if open {
        if phase == Destruct(0) {
          var r := ArgvoutFinal(ed, closed, child, false);
        } else if !child {
          UnlinkWork(ed);
        }
      }
    }
  }
}
