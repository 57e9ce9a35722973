/** How a commit ends: which failures it survives, what it reports of the others, and what is left. */
module ArgvOutcomes {
  import opened ArgvSpec
  import opened ArgvLaws

  /** The calls of the commit reach the files: through the handle, by an absolute name, or because the
      current directory is still the same. */
  predicate Reaches(ed: Edit) {
    ed.atFunctions || ed.absolute || !ed.cwdChanged
  }

  /** No call is answered by "not supported". */
  ghost predicate Supported(faults: Faults) {
    forall n :: faults(n) != Unsupported
  }

  /** A fault-free call that has its effect in the home directory, or fails and has none. */
  lemma CallAtHome(ed: Edit, faults: Faults, w: World, call: Call)
    requires !call.StatDot? && !ed.Astray(call.plain)
    requires (call.LinkBackup? || call.RenameBackup?) ==> ed.backup.Some?
    ensures var (answer, w') := Sys(ed, faults, w, call);
      var effect := Effect(ed, w.home, call);
      && |w'.trace| == |w.trace| + 1 && w'.away == w.away
      && (answer.Good? <==> faults(|w.trace|) == Fine && effect.Some?)
      && (answer.NotSupported? <==> faults(|w.trace|) == Unsupported)
      && w'.home == if answer.Good? then effect.value else w.home
  {
  }

  lemma Checked(ed: Edit, faults: Faults, w: World)
    ensures var (same, w') := DirUnchanged(ed, faults, w);
      && w'.home == w.home && w'.away == w.away
      && |w'.trace| == |w.trace| + (if ed.absolute then 0 else 1)
      && (same <==> ed.absolute || !ed.cwdChanged || faults(|w.trace|) != Fine)
  {
  }

  /** A step whose call is supported is that one call. */
  lemma OneCall(ed: Edit, faults: Faults, w: World, atCall: Call, plainCall: Call)
    requires Reaches(ed) && faults(|w.trace|) != Unsupported
    requires !atCall.StatDot? && !plainCall.StatDot? && !atCall.plain && plainCall.plain
    requires forall c <- [atCall, plainCall] :: (c.LinkBackup? || c.RenameBackup?) ==> ed.backup.Some?
    requires Effect(ed, w.home, atCall) == Effect(ed, w.home, plainCall)
    ensures var (r, w') := Attempt(ed, faults, w, atCall, plainCall);
      var effect := Effect(ed, w.home, atCall);
      && |w'.trace| == |w.trace| + 1 && w'.away == w.away && r.Some?
      && (r.value <==> faults(|w.trace|) == Fine && effect.Some?)
      && w'.home == if r.value then effect.value else w.home
  {
    hide Sys;
    hide Effect;
    assert atCall in [atCall, plainCall] && plainCall in [atCall, plainCall];
    if ed.atFunctions {
      CallAtHome(ed, faults, w, atCall);
    } else {
      CallAtHome(ed, faults, w, plainCall);
    }
  }

  /** A step whose call through the handle is not supported is made by the plain name instead, unless the
      current directory is seen to be another one. */
  lemma FallsBack(ed: Edit, faults: Faults, w: World, atCall: Call, plainCall: Call)
    requires ed.atFunctions && faults(|w.trace|) == Unsupported
    requires !atCall.StatDot? && !plainCall.StatDot? && !atCall.plain && plainCall.plain
    requires forall c <- [atCall, plainCall] :: (c.LinkBackup? || c.RenameBackup?) ==> ed.backup.Some?
    requires Effect(ed, w.home, atCall) == Effect(ed, w.home, plainCall)
    ensures var (r, w') := Attempt(ed, faults, w, atCall, plainCall);
      var k := |w.trace| + 1 + if ed.absolute then 0 else 1;
      && (r.None? <==> !ed.absolute && ed.cwdChanged && faults(|w.trace| + 1) == Fine)
      && (r.None? ==> w'.home == w.home && w'.away == w.away)
      && (!ed.Astray(true) ==>
            var effect := Effect(ed, w.home, atCall);
            && (r == Some(true) <==> faults(k) == Fine && effect.Some?)
            && w'.home == if r == Some(true) then effect.value else w.home)
  {
    hide Effect;
    assert atCall in [atCall, plainCall] && plainCall in [atCall, plainCall];
    CallAtHome(ed, faults, w, atCall);
    var w1 := Sys(ed, faults, w, atCall).1;
    Checked(ed, faults, w1);
    var w2 := DirUnchanged(ed, faults, w1).1;
    if !ed.Astray(true) {
      CallAtHome(ed, faults, w2, plainCall);
    }
    hide Sys;
    hide DirUnchanged;
  }

  // ---------------------------------------------------------------------------------------------
  // The outcome, exactly
  // ---------------------------------------------------------------------------------------------

  /** The number of the first call after the check of the current directory, if that is made first. */
  function FirstCall(ed: Edit): nat {
    if ed.atFunctions || ed.absolute then 0 else 1
  }

  /** The backup can be made by a link: the call works, and the name is free. */
  predicate Links(ed: Edit, faults: Faults, w: World)
    requires ed.backup.Some?
  {
    faults(FirstCall(ed)) == Fine && ed.backup.value !in w.home
  }

  /** There is to be no backup, or it is made by a link or else by a rename. */
  predicate BacksUp(ed: Edit, faults: Faults, w: World) {
    ed.backup.None? || Links(ed, faults, w) || faults(FirstCall(ed) + 1) == Fine
  }

  /** The number of the call that renames the work file. */
  function RenameCall(ed: Edit, faults: Faults, w: World): nat {
    FirstCall(ed) + if ed.backup.None? then 0 else if Links(ed, faults, w) then 1 else 2
  }

  lemma BackUpExactly(ed: Edit, faults: Faults, w: World, was: Inode, work: Inode, w0: World)
    requires ed.Valid() && Has(w.home, ed.orig, was) && Has(w.home, ed.temp, work) && was != work
    requires w.home == w0.home && |w.trace| == FirstCall(ed) && ed.backup.Some? && Reaches(ed) && Supported(faults)
    ensures var (saved, w') := BackUp(ed, faults, w);
      && saved == Some(BacksUp(ed, faults, w0)) && Has(w'.home, ed.temp, work)
      && (saved == Some(true) ==>
            && |w'.trace| == RenameCall(ed, faults, w0) && Has(w'.home, ed.backup.value, was)
            && Untouched(ed, w'.home, was))
      && (saved == Some(false) ==> w'.home == w0.home && |w'.trace| == FirstCall(ed) + 2)
  {
    OneCall(ed, faults, w, LinkBackup(false), LinkBackup(true));
    var (linked, w1) := Attempt(ed, faults, w, LinkBackup(false), LinkBackup(true));
    if linked == Some(false) {
      OneCall(ed, faults, w1, RenameBackup(false), RenameBackup(true));
    }
    hide Attempt;
  }

  /** What a failure is reported as. */
  function Report(explicit: bool, why: Croak): Outcome {
    if explicit then Returned(false) else Croaked(why)
  }

  /** The work file is there after a failure exactly if the last unlink fails, or is one by the plain name
      that an explicit close resorts to and the current directory is another one. */
  predicate Leftover(ed: Edit, faults: Faults, k: nat, explicit: bool) {
    faults(k) != Fine || (explicit && ed.Astray(true))
  }

  lemma UnlinkExactly(ed: Edit, faults: Faults, w: World)
    requires Reaches(ed) && Supported(faults) && ed.temp in w.home
    ensures RemoveTemp(ed, faults, w).home == if faults(|w.trace|) == Fine then w.home - {ed.temp} else w.home
    ensures Abort(ed, faults, w).0 == Returned(false)
    ensures Abort(ed, faults, w).1.home ==
      if faults(|w.trace|) == Fine && !ed.Astray(true) then w.home - {ed.temp} else w.home
  {
  }

  lemma NoBackupExactly(ed: Edit, faults: Faults, w: World, explicit: bool)
    requires Reaches(ed) && Supported(faults) && ed.temp in w.home
    ensures var r := NoBackup(ed, faults, w, explicit);
      && r.0 == Report(explicit, CannotBackUp)
      && r.1.home == if Leftover(ed, faults, |w.trace|, explicit) then w.home else w.home - {ed.temp}
  {
  }

  lemma ReplaceExactly(ed: Edit, faults: Faults, w: World, explicit: bool, was: Inode, work: Inode)
    requires ed.Valid() && Reaches(ed) && Supported(faults) && Has(w.home, ed.temp, work) && was != work
    requires Untouched(ed, w.home, was) && (ed.backup.Some? ==> Has(w.home, ed.backup.value, was))
    ensures var r, k := Replace(ed, faults, w, explicit), |w.trace|;
      if faults(k) == Fine then r.0 == Returned(true) && Committed(ed, r.1.home, was, work, true)
      else
        && r.0 == Report(explicit, CannotRename) && Untouched(ed, r.1.home, was)
        && (ed.temp in r.1.home <==> Leftover(ed, faults, k + 1, explicit))
        && (ed.backup.Some? ==> Has(r.1.home, ed.backup.value, was))
  {
    OneCall(ed, faults, w, RenameTemp(false), RenameTemp(true));
    var (renamed, w1) := Attempt(ed, faults, w, RenameTemp(false), RenameTemp(true));
    if renamed == Some(false) {
      UnlinkExactly(ed, faults, w1);
    }
    hide Attempt;
    hide Sys;
    hide RemoveTemp;
    hide Abort;
  }

  /** A commit whose calls reach the files and are supported, with any of them failing: it succeeds if and
      only if a backup that is asked for can be made, by the link or after it by the rename, and the work
      file can be renamed. Then the work file is the original, and the backup is there. Otherwise the
      report names the step that failed, the original bytes are where they were or under the backup's name,
      and the work file is gone unless it cannot be unlinked. */
  lemma CommitOutcome(ed: Edit, faults: Faults, w: World, explicit: bool, was: Inode, work: Inode)
    requires Begins(ed, w, was, work) && Reaches(ed) && Supported(faults)
    ensures var r, k := Final(ed, faults, w, true, false, explicit), RenameCall(ed, faults, w);
      if !BacksUp(ed, faults, w) then
        && r.0 == Report(explicit, CannotBackUp) && Has(r.1.home, ed.orig, was)
        && (ed.temp in r.1.home <==> Leftover(ed, faults, FirstCall(ed) + 2, explicit))
      else if faults(k) == Fine then
        r.0 == Returned(true) && Committed(ed, r.1.home, was, work, true)
      else
        && r.0 == Report(explicit, CannotRename) && Untouched(ed, r.1.home, was)
        && (ed.temp in r.1.home <==> Leftover(ed, faults, k + 1, explicit))
        && (ed.backup.Some? ==> Has(r.1.home, ed.backup.value, was))
  {
    Checked(ed, faults, w);
    var w1 := if ed.atFunctions then w else DirUnchanged(ed, faults, w).1;
    assert w1.home == w.home && |w1.trace| == FirstCall(ed);
    if ed.backup.None? {
      ReplaceExactly(ed, faults, w1, explicit, was, work);
    } else {
      BackUpExactly(ed, faults, w1, was, work, w);
      var (saved, w2) := BackUp(ed, faults, w1);
      if saved == Some(true) {
        ReplaceExactly(ed, faults, w2, explicit, was, work);
      } else {
        NoBackupExactly(ed, faults, w2, explicit);
      }
    }
    hide Replace;
    hide NoBackup;
    hide BackUp;
    hide DirUnchanged;
  }

  /** Where nothing fails the edit is committed, with the backup if one is asked for. */
  lemma NothingFails(ed: Edit, w: World, explicit: bool, was: Inode, work: Inode)
    requires Begins(ed, w, was, work) && Reaches(ed)
    ensures var r := Final(ed, _ => Fine, w, true, false, explicit);
      && r.0 == Returned(true)
      && Has(r.1.home, ed.orig, work) && ed.temp !in r.1.home
      && (ed.backup.Some? ==> Has(r.1.home, ed.backup.value, was))
  {
    CommitOutcome(ed, _ => Fine, w, explicit, was, work);
    hide Final;
  }

  /** A failed close commits nothing. */
  lemma CloseFails(ed: Edit, faults: Faults, w: World, explicit: bool, was: Inode, work: Inode)
    requires Begins(ed, w, was, work) && Reaches(ed) && Supported(faults)
    ensures var r := Final(ed, faults, w, false, false, explicit);
      && r.0 == Report(explicit, CannotClose)
      && r.1.home == if faults(0) == Fine then w.home - {ed.temp} else w.home
  {
    UnlinkExactly(ed, faults, w);
  }

  /** With no handle and another current directory, and that being seen, nothing is touched anywhere. */
  lemma SeenElsewhere(ed: Edit, faults: Faults, w: World, explicit: bool)
    requires !Reaches(ed) && w.trace == [] && faults(0) == Fine
    ensures var r := Final(ed, faults, w, true, false, explicit);
      r.0 == Croaked(DirectoryChanged) && r.1.home == w.home && r.1.away == w.away
  {
  }
}
