/** What a commit never loses, whatever fails, and the one corner in which it does. */
module ArgvLaws {
  import opened ArgvSpec

  /** `bytes` is reachable under `name`. */
  predicate Has(d: Dir, name: string, bytes: Inode) {
    name in d && d[name] == bytes
  }

  /** The original bytes are there, as the original or as the backup that was asked for; with no backup
      asked for, the finished work file may have taken their place. */
  predicate Kept(ed: Edit, home: Dir, was: Inode, work: Inode) {
    if ed.backup.Some? then Has(home, ed.orig, was) || Has(home, ed.backup.value, was)
    else Has(home, ed.orig, was) || Has(home, ed.orig, work)
  }

  /** ... after every system call so far. */
  ghost predicate AlwaysKept(ed: Edit, trace: seq<Event>, was: Inode, work: Inode) {
    forall i :: 0 <= i < |trace| ==> Kept(ed, trace[i].home, was, work)
  }

  /** The commit begins with both files in place. */
  ghost predicate Begins(ed: Edit, w: World, was: Inode, work: Inode) {
    && ed.Valid() && w.trace == [] && was != work
    && Has(w.home, ed.orig, was) && Has(w.home, ed.temp, work)
  }

  /** A backup is asked for and is not there yet, the current directory has changed, and it holds a file
      of the same relative name as the original. */
  predicate Exposed(ed: Edit, w: World, was: Inode) {
    && ed.atFunctions && ed.Astray(true) && ed.orig in w.away
    && ed.backup.Some? && !Has(w.home, ed.backup.value, was)
  }

  // ---------------------------------------------------------------------------------------------
  // Step by step
  // ---------------------------------------------------------------------------------------------

  /** Nothing has happened to the names yet. `safe` says that the edit is not exposed. */
  ghost predicate Before(ed: Edit, w: World, was: Inode, work: Inode, safe: bool) {
    && ed.Valid() && was != work
    && Has(w.home, ed.orig, was) && Has(w.home, ed.temp, work)
    && (safe ==> AlwaysKept(ed, w.trace, was, work) && !Exposed(ed, w, was))
  }

  /** The original bytes are where they were, or under the backup name if the original name is gone. */
  predicate Untouched(ed: Edit, home: Dir, was: Inode) {
    || Has(home, ed.orig, was)
    || (ed.backup.Some? && ed.orig !in home && Has(home, ed.backup.value, was))
  }

  /** The backup is safe, if there is to be one and the calls reach the files at all. */
  ghost predicate Saved(ed: Edit, w: World, was: Inode, work: Inode, safe: bool) {
    && ed.Valid() && was != work && Has(w.home, ed.temp, work) && Untouched(ed, w.home, was)
    && (safe ==>
          && AlwaysKept(ed, w.trace, was, work) && Kept(ed, w.home, was, work)
          && (ed.backup.Some? ==> Has(w.home, ed.backup.value, was) || (!ed.atFunctions && ed.Astray(true))))
  }

  /** The work file is in place, and no other name of it is left. */
  predicate Committed(ed: Edit, home: Dir, was: Inode, work: Inode, safe: bool) {
    && Has(home, ed.orig, work) && ed.temp !in home
    && (safe && ed.backup.Some? ==> Has(home, ed.backup.value, was))
  }

  ghost predicate NothingLost(ed: Edit, w: World, was: Inode, work: Inode, safe: bool) {
    ed.Valid() && (safe ==> AlwaysKept(ed, w.trace, was, work) && Kept(ed, w.home, was, work))
  }

  /** How each call leaves the directories. */
  lemma SysEffect(ed: Edit, faults: Faults, w: World, call: Call)
    requires (call.LinkBackup? || call.RenameBackup?) ==> ed.backup.Some?
    ensures var (answer, w') := Sys(ed, faults, w, call);
      && (!answer.Good? ==> w'.home == w.home && w'.away == w.away)
      && w'.trace == w.trace + [Event(call, w'.home, w'.away)]
      && (!call.StatDot? && ed.Astray(call.plain) ==> w'.home == w.home)
  {
  }

  lemma BackupCall(ed: Edit, faults: Faults, w: World, call: Call, was: Inode, work: Inode, safe: bool)
    requires Before(ed, w, was, work, safe) && ed.backup.Some? && (call.LinkBackup? || call.RenameBackup?)
    requires call.plain || ed.atFunctions
    ensures var (answer, w') := Sys(ed, faults, w, call);
      && (answer.Good? ==> Saved(ed, w', was, work, safe))
      && (!answer.Good? ==> Before(ed, w', was, work, safe))
  {
  }

  lemma StatCall(ed: Edit, faults: Faults, w: World, was: Inode, work: Inode, safe: bool)
    ensures Before(ed, w, was, work, safe) ==> Before(ed, Sys(ed, faults, w, StatDot).1, was, work, safe)
    ensures Saved(ed, w, was, work, safe) ==> Saved(ed, Sys(ed, faults, w, StatDot).1, was, work, safe)
    ensures NothingLost(ed, w, was, work, safe) ==> NothingLost(ed, Sys(ed, faults, w, StatDot).1, was, work, safe)
  {
  }

  lemma ReplaceCall(ed: Edit, faults: Faults, w: World, plain: bool, was: Inode, work: Inode, safe: bool)
    requires Saved(ed, w, was, work, safe) && (plain || ed.atFunctions)
    ensures var (answer, w') := Sys(ed, faults, w, RenameTemp(plain));
      && NothingLost(ed, w', was, work, safe)
      && (!answer.Good? ==> Saved(ed, w', was, work, safe))
      && (answer.Good? && ed.Astray(plain) ==> Saved(ed, w', was, work, safe))
      && (answer.Good? && !ed.Astray(plain) ==> Committed(ed, w'.home, was, work, safe))
      && w'.trace != [] && w'.trace[|w'.trace| - 1].call == RenameTemp(plain)
  {
  }

  lemma UnlinkCall(ed: Edit, faults: Faults, w: World, plain: bool, was: Inode, work: Inode, safe: bool)
    requires NothingLost(ed, w, was, work, safe)
    ensures var w' := Sys(ed, faults, w, UnlinkTemp(plain)).1;
      && NothingLost(ed, w', was, work, safe)
      && (Has(w.home, ed.orig, was) ==> Has(w'.home, ed.orig, was))
      && (ed.orig !in w.home ==> ed.orig !in w'.home)
      && w'.trace != [] && w'.trace[|w'.trace| - 1].call.UnlinkTemp?
  {
  }

  // ---------------------------------------------------------------------------------------------
  // The whole commit
  // ---------------------------------------------------------------------------------------------

  lemma DirUnchangedKeeps(ed: Edit, faults: Faults, w: World, was: Inode, work: Inode, safe: bool)
    ensures var w' := DirUnchanged(ed, faults, w).1;
      && (Before(ed, w, was, work, safe) ==> Before(ed, w', was, work, safe))
      && (Saved(ed, w, was, work, safe) ==> Saved(ed, w', was, work, safe))
      && (NothingLost(ed, w, was, work, safe) ==> NothingLost(ed, w', was, work, safe))
      && w'.home == w.home && w'.away == w.away
  {
    StatCall(ed, faults, w, was, work, safe);
    SysEffect(ed, faults, w, StatDot);
  }

  lemma BackupAttempt(ed: Edit, faults: Faults, w: World, link: bool, was: Inode, work: Inode, safe: bool)
    requires Before(ed, w, was, work, safe) && ed.backup.Some?
    ensures var (r, w') := if link then Attempt(ed, faults, w, LinkBackup(false), LinkBackup(true))
                           else Attempt(ed, faults, w, RenameBackup(false), RenameBackup(true));
      && (r == Some(true) ==> Saved(ed, w', was, work, safe))
      && (r != Some(true) ==> Before(ed, w', was, work, safe))
  {
    hide Sys;
    hide Before;
    hide Saved;
    var atCall, plainCall := if link then LinkBackup(false) else RenameBackup(false),
                             if link then LinkBackup(true) else RenameBackup(true);
    if ed.atFunctions {
      BackupCall(ed, faults, w, atCall, was, work, safe);
      var (answer, w1) := Sys(ed, faults, w, atCall);
      if answer.NotSupported? {
        DirUnchangedKeeps(ed, faults, w1, was, work, safe);
        BackupCall(ed, faults, DirUnchanged(ed, faults, w1).1, plainCall, was, work, safe);
      }
    } else {
      BackupCall(ed, faults, w, plainCall, was, work, safe);
    }
  }

  lemma BackUpKeeps(ed: Edit, faults: Faults, w: World, was: Inode, work: Inode, safe: bool)
    requires Before(ed, w, was, work, safe) && ed.backup.Some?
    ensures var (r, w') := BackUp(ed, faults, w);
      && (r == Some(true) ==> Saved(ed, w', was, work, safe))
      && (r != Some(true) ==> Before(ed, w', was, work, safe))
  {
    hide Before;
    hide Saved;
    hide Attempt;
    BackupAttempt(ed, faults, w, true, was, work, safe);
    var (linked, w1) := Attempt(ed, faults, w, LinkBackup(false), LinkBackup(true));
    if linked == Some(false) {
      BackupAttempt(ed, faults, w1, false, was, work, safe);
    }
  }

  lemma SavedIsUntouched(ed: Edit, w: World, was: Inode, work: Inode, safe: bool)
    requires Saved(ed, w, was, work, safe) || Before(ed, w, was, work, safe)
    ensures NothingLost(ed, w, was, work, safe) && Untouched(ed, w.home, was)
  {
  }

  lemma UnlinkKeeps(ed: Edit, faults: Faults, w: World, plain: bool, was: Inode, work: Inode, safe: bool)
    requires NothingLost(ed, w, was, work, safe) && Untouched(ed, w.home, was)
    ensures var w' := Sys(ed, faults, w, UnlinkTemp(plain)).1;
      NothingLost(ed, w', was, work, safe) && Untouched(ed, w'.home, was) && LastUnlinks(w')
  {
    UnlinkCall(ed, faults, w, plain, was, work, safe);
  }

  ghost predicate LastUnlinks(w: World) {
    w.trace != [] && w.trace[|w.trace| - 1].call.UnlinkTemp?
  }

  lemma RemoveTempKeeps(ed: Edit, faults: Faults, w: World, was: Inode, work: Inode, safe: bool)
    requires NothingLost(ed, w, was, work, safe) && Untouched(ed, w.home, was)
    ensures var w' := RemoveTemp(ed, faults, w);
      NothingLost(ed, w', was, work, safe) && Untouched(ed, w'.home, was) && LastUnlinks(w')
  {
    hide Sys;
    hide NothingLost;
    UnlinkKeeps(ed, faults, w, true, was, work, safe);
    if ed.atFunctions {
      UnlinkKeeps(ed, faults, w, false, was, work, safe);
      UnlinkKeeps(ed, faults, Sys(ed, faults, w, UnlinkTemp(false)).1, true, was, work, safe);
    }
  }

  /** What every exit guarantees: nothing was ever lost if the edit is safe; on success the last call
      renamed the work file, which is now the original, unless that call went astray and left the original
      alone; on failure the original is untouched and, unless the directory changed, an attempt to unlink
      the work file was the last thing done. */
  ghost predicate Exit(ed: Edit, r: (Outcome, World), was: Inode, work: Inode, safe: bool) {
    && NothingLost(ed, r.1, was, work, safe)
    && (r.0 == Returned(true) ==> Succeeded(ed, r.1, was, work, safe))
    && (r.0 != Returned(true) ==> Untouched(ed, r.1.home, was))
    && (r.0 != Returned(true) && r.0 != Croaked(DirectoryChanged) ==> LastUnlinks(r.1))
  }

  /** Through the directory handle the commit is complete wherever the current directory is; through the
      plain name it is unless that has changed. */
  ghost predicate Succeeded(ed: Edit, w: World, was: Inode, work: Inode, safe: bool) {
    && w.trace != [] && w.trace[|w.trace| - 1].call.RenameTemp?
    && if ed.Astray(w.trace[|w.trace| - 1].call.plain) then Untouched(ed, w.home, was)
       else Committed(ed, w.home, was, work, safe)
  }

  lemma NoBackupExit(ed: Edit, faults: Faults, w: World, explicit: bool, was: Inode, work: Inode, safe: bool)
    requires Before(ed, w, was, work, safe)
    ensures Exit(ed, NoBackup(ed, faults, w, explicit), was, work, safe)
  {
    hide Sys;
    hide Before;
    hide NothingLost;
    SavedIsUntouched(ed, w, was, work, safe);
    UnlinkKeeps(ed, faults, w, true, was, work, safe);
    if ed.atFunctions {
      UnlinkKeeps(ed, faults, w, false, was, work, safe);
      var w1 := Sys(ed, faults, w, UnlinkTemp(false)).1;
      DirUnchangedKeeps(ed, faults, w1, was, work, safe);
      UnlinkKeeps(ed, faults, DirUnchanged(ed, faults, w1).1, true, was, work, safe);
    }
  }

  lemma ReplaceExit(ed: Edit, faults: Faults, w: World, explicit: bool, was: Inode, work: Inode, safe: bool)
    requires Saved(ed, w, was, work, safe)
    ensures Exit(ed, Replace(ed, faults, w, explicit), was, work, safe)
  {
    hide Sys;
    hide Saved;
    var (renamed, w1) := Attempt(ed, faults, w, RenameTemp(false), RenameTemp(true));
    if ed.atFunctions {
      ReplaceCall(ed, faults, w, false, was, work, safe);
      var (answer, w2) := Sys(ed, faults, w, RenameTemp(false));
      if answer.NotSupported? {
        DirUnchangedKeeps(ed, faults, w2, was, work, safe);
        ReplaceCall(ed, faults, DirUnchanged(ed, faults, w2).1, true, was, work, safe);
      }
    } else {
      ReplaceCall(ed, faults, w, true, was, work, safe);
    }
    assert NothingLost(ed, w1, was, work, safe) by {
      SavedFacts(ed, w, was, work, safe);
    }
    ReplaceSucceeds(ed, faults, w, was, work, safe);
    if renamed != Some(true) {
      SavedIsUntouched(ed, w1, was, work, safe);
      hide NothingLost;
      UnlinkKeeps(ed, faults, w1, true, was, work, safe);
      RemoveTempKeeps(ed, faults, w1, was, work, safe);
    }
  }

  lemma ReplaceSucceeds(ed: Edit, faults: Faults, w: World, was: Inode, work: Inode, safe: bool)
    requires Saved(ed, w, was, work, safe)
    ensures var (r, w') := Attempt(ed, faults, w, RenameTemp(false), RenameTemp(true));
      r == Some(true) ==> Succeeded(ed, w', was, work, safe)
  {
    hide Sys;
    hide Saved;
    hide Committed;
    hide Untouched;
    ReplaceCall(ed, faults, w, !ed.atFunctions, was, work, safe);
    var (answer, w1) := Sys(ed, faults, w, RenameTemp(!ed.atFunctions));
    if ed.atFunctions && answer.NotSupported? {
      DirUnchangedKeeps(ed, faults, w1, was, work, safe);
      var w2 := DirUnchanged(ed, faults, w1).1;
      ReplaceCall(ed, faults, w2, true, was, work, safe);
      AstrayIsUntouched(ed, Sys(ed, faults, w2, RenameTemp(true)).1, was, work, safe);
    }
    AstrayIsUntouched(ed, w1, was, work, safe);
  }

  lemma AstrayIsUntouched(ed: Edit, w: World, was: Inode, work: Inode, safe: bool)
    ensures Saved(ed, w, was, work, safe) ==> Untouched(ed, w.home, was)
  {
    if Saved(ed, w, was, work, safe) {
      SavedIsUntouched(ed, w, was, work, safe);
    }
  }

  lemma SavedFacts(ed: Edit, w: World, was: Inode, work: Inode, safe: bool)
    requires Saved(ed, w, was, work, safe)
    ensures ed.Valid()
  {
  }

  /** Whatever fails, and however the commit is left. Only that nothing is lost depends on the edit not
      being exposed. */
  lemma CommitExits(ed: Edit, faults: Faults, w: World, closed: bool, explicit: bool, was: Inode, work: Inode)
    requires Begins(ed, w, was, work)
    ensures Exit(ed, Final(ed, faults, w, closed, false, explicit), was, work, !Exposed(ed, w, was))
  {
    var safe := !Exposed(ed, w, was);
    hide Sys;
    hide Attempt;
    assert Before(ed, w, was, work, safe);
    hide Before;
    hide Saved;
    hide NothingLost;
    SavedIsUntouched(ed, w, was, work, safe);
    if !closed {
      RemoveTempKeeps(ed, faults, w, was, work, safe);
    } else {
      DirUnchangedKeeps(ed, faults, w, was, work, safe);
      var w1 := if ed.atFunctions then w else DirUnchanged(ed, faults, w).1;
      SavedIsUntouched(ed, w1, was, work, safe);
      if ed.backup.None? {
        NothingToSave(ed, w1, was, work, safe);
        ReplaceExit(ed, faults, w1, explicit, was, work, safe);
      } else {
        BackUpKeeps(ed, faults, w1, was, work, safe);
        var (saved, w2) := BackUp(ed, faults, w1);
        SavedIsUntouched(ed, w2, was, work, safe);
        if saved == Some(true) {
          ReplaceExit(ed, faults, w2, explicit, was, work, safe);
        } else if saved == Some(false) {
          NoBackupExit(ed, faults, w2, explicit, was, work, safe);
        }
      }
    }
  }

  lemma NothingToSave(ed: Edit, w: World, was: Inode, work: Inode, safe: bool)
    requires Before(ed, w, was, work, safe) && ed.backup.None?
    ensures Saved(ed, w, was, work, safe)
  {
  }

  // ---------------------------------------------------------------------------------------------
  // The exact condition
  // ---------------------------------------------------------------------------------------------

  /** Calls relative to the directory handle are not supported when the backup is due, and the check of
      the current directory fails, so that the backup is made over there. */
  function MisleadingFaults(taken: bool): Faults {
    n => if n == 0 || (taken && n == 3) then Unsupported
         else if n == 1 || (taken && n == 4) then Fails
         else Fine
  }

  /** ... and then the work file replaces the original, of which no backup exists. */
  lemma ExposedLoses(ed: Edit, w: World, explicit: bool, was: Inode, work: Inode)
    requires Begins(ed, w, was, work) && Exposed(ed, w, was)
    ensures var r := Final(ed, MisleadingFaults(ed.backup.value in w.away), w, true, false, explicit);
      r.0 == Returned(true) && !Kept(ed, r.1.home, was, work)
  {
    hide AlwaysKept;
    var faults := MisleadingFaults(ed.backup.value in w.away);
    var w1 := Sys(ed, faults, w, LinkBackup(false)).1;
    var w2 := Sys(ed, faults, w1, StatDot).1;
    var w3 := Sys(ed, faults, w2, LinkBackup(true)).1;
    assert DirUnchanged(ed, faults, w1) == (true, w2);
    assert w3.home == w.home;
    if ed.backup.value in w.away {
      assert Attempt(ed, faults, w, LinkBackup(false), LinkBackup(true)) == (Some(false), w3);
      var w4 := Sys(ed, faults, w3, RenameBackup(false)).1;
      var w5 := Sys(ed, faults, w4, StatDot).1;
      var w6 := Sys(ed, faults, w5, RenameBackup(true)).1;
      assert DirUnchanged(ed, faults, w4) == (true, w5);
      assert Attempt(ed, faults, w3, RenameBackup(false), RenameBackup(true)) == (Some(true), w6);
    } else {
      assert Attempt(ed, faults, w, LinkBackup(false), LinkBackup(true)) == (Some(true), w3);
    }
  }

  /** The original bytes survive every pattern of failures, at every point between calls, if and only if
      the edit is not exposed. */
  lemma KeptExactlyUnlessExposed(ed: Edit, w: World, was: Inode, work: Inode)
    requires Begins(ed, w, was, work)
    ensures (forall faults, closed, child, explicit ::
               var end := Final(ed, faults, w, closed, child, explicit).1;
               AlwaysKept(ed, end.trace, was, work) && Kept(ed, end.home, was, work))
            <==> !Exposed(ed, w, was)
  {
    hide Final;
    if Exposed(ed, w, was) {
      ExposedLoses(ed, w, true, was, work);
    } else {
      forall faults: Faults, closed: bool, child: bool, explicit: bool
        ensures var end := Final(ed, faults, w, closed, child, explicit).1;
          AlwaysKept(ed, end.trace, was, work) && Kept(ed, end.home, was, work)
      {
        if child {
          ChildDoesNothing(ed, faults, w, closed, explicit);
        } else {
          CommitExits(ed, faults, w, closed, explicit, was, work);
        }
      }
    }
  }

  /** A forked child makes no call at all. */
  lemma ChildDoesNothing(ed: Edit, faults: Faults, w: World, closed: bool, explicit: bool)
    ensures Final(ed, faults, w, closed, true, explicit) == (Returned(closed), w)
  {
  }

  /** The last resort unlinks the work file by its plain name: when nothing goes wrong with that call the
      work file is left behind exactly if the current directory is another one. */
  lemma AbortLeavesTemp(ed: Edit, faults: Faults, w: World)
    requires ed.temp in w.home && faults(|w.trace|) == Fine
    ensures ed.temp in Abort(ed, faults, w).1.home <==> ed.Astray(true)
  {
  }
}
