/**
  Committing an in-place edit (doio.c): the work file takes the place of the original by link and
  rename calls, any of which may fail. `Home` is the directory the edit began in, `Away` the current
  one, should it have changed since.
 */
module ArgvSpec {

  type Inode = nat
  type Dir = map<string, Inode>

  datatype Option<+T> = None | Some(value: T)

  /** What an in-place edit remembers: its names, and where they are. */
  datatype Edit = Edit(orig: string, temp: string, backup: Option<string>, absolute: bool,
                       cwdChanged: bool, atFunctions: bool)
  {
    predicate Valid() {
      orig != temp && (backup.Some? ==> backup.value != orig && backup.value != temp)
    }

    /** Whether a call that takes a plain name, not relative to the directory handle, goes astray. */
    predicate Astray(plain: bool) {
      plain && !absolute && cwdChanged
    }
  }

  /** What the operating system answers, besides what the directory's contents make it answer: nothing
      in the way, some error, or "this call is not supported". */
  datatype Fault = Fine | Fails | Unsupported

  type Faults = nat -> Fault

  /** The system calls of the commit, relative to the directory handle or plain. */
  datatype Call =
    | LinkBackup(plain: bool)  // orig gets the backup name, too
    | RenameBackup(plain: bool)  // orig becomes the backup
    | RenameTemp(plain: bool)  // the work file becomes orig
    | UnlinkTemp(plain: bool)
    | StatDot

  datatype Event = Event(call: Call, home: Dir, away: Dir)

  /** Both directories, and every call so far with what it left. */
  datatype World = World(home: Dir, away: Dir, trace: seq<Event>)

  datatype Answer = Good | Bad | NotSupported

  // ---------------------------------------------------------------------------------------------
  // System calls
  // ---------------------------------------------------------------------------------------------

  function Linked(d: Dir, a: string, b: string): Option<Dir> {
    if a in d && b !in d then Some(d[b := d[a]]) else None
  }

  /** rename(2) leaves two names of one file alone. */
  function Renamed(d: Dir, a: string, b: string): Option<Dir> {
    if a !in d then None
    else if b in d && d[b] == d[a] then Some(d)
    else Some(d[b := d[a]] - {a})
  }

  function Unlinked(d: Dir, name: string): Option<Dir> {
    if name in d then Some(d - {name}) else None
  }

  function Effect(ed: Edit, d: Dir, call: Call): Option<Dir>
    requires (call.LinkBackup? || call.RenameBackup?) ==> ed.backup.Some?
  {
    match call
    case LinkBackup(_) => Linked(d, ed.orig, ed.backup.value)
    case RenameBackup(_) => Renamed(d, ed.orig, ed.backup.value)
    case RenameTemp(_) => Renamed(d, ed.temp, ed.orig)
    case UnlinkTemp(_) => Unlinked(d, ed.temp)
    case StatDot => Some(d)
  }

  function Sys(ed: Edit, faults: Faults, w: World, call: Call): (r: (Answer, World))
    requires (call.LinkBackup? || call.RenameBackup?) ==> ed.backup.Some?
  {
    var fault := faults(|w.trace|);
    var astray := !call.StatDot? && ed.Astray(call.plain);
    var effect := Effect(ed, if astray then w.away else w.home, call);
    var done := fault.Fine? && effect.Some?;
    var home := if done && !astray then effect.value else w.home;
    var away := if done && astray then effect.value else w.away;
    (if done then Good else if fault.Unsupported? then NotSupported else Bad,
     World(home, away, w.trace + [Event(call, home, away)]))
  }

  // ---------------------------------------------------------------------------------------------
  // The commit
  // ---------------------------------------------------------------------------------------------

  datatype Croak = DirectoryChanged | CannotBackUp | CannotRename | CannotClose

  datatype Outcome = Returned(ok: bool) | Croaked(why: Croak)

  /** S_dir_unchanged: true, unless the current directory is known to be another one. */
  function DirUnchanged(ed: Edit, faults: Faults, w: World): (bool, World) {
    if ed.absolute then (true, w)
    else
      var (answer, w') := Sys(ed, faults, w, StatDot);
      (!(answer.Good? && ed.cwdChanged), w')
  }

  /** One step: relative to the directory handle if there is one, and plainly if there is none or if
      that is not supported. None means that the changed directory made it croak. */
  function Attempt(ed: Edit, faults: Faults, w: World, atCall: Call, plainCall: Call): (Option<bool>, World)
    requires forall c <- [atCall, plainCall] :: (c.LinkBackup? || c.RenameBackup?) ==> ed.backup.Some?
  {
    assert atCall in [atCall, plainCall] && plainCall in [atCall, plainCall];
    if !ed.atFunctions then
      var (answer, w1) := Sys(ed, faults, w, plainCall);
      (Some(answer.Good?), w1)
    else
      var (answer, w1) := Sys(ed, faults, w, atCall);
      if !answer.NotSupported? then (Some(answer.Good?), w1)
      else
        var (same, w2) := DirUnchanged(ed, faults, w1);
        if !same then (None, w2)
        else
          var (answer', w3) := Sys(ed, faults, w2, plainCall);
          (Some(answer'.Good?), w3)
  }

  /** The backup, by a link or else by a rename. */
  function BackUp(ed: Edit, faults: Faults, w: World): (Option<bool>, World)
    requires ed.backup.Some?
  {
    var (linked, w1) := Attempt(ed, faults, w, LinkBackup(false), LinkBackup(true));
    if linked != Some(false) then (linked, w1)
    else Attempt(ed, faults, w1, RenameBackup(false), RenameBackup(true))
  }

  /** abort_inplace: the work file is unlinked by its plain name. */
  function Abort(ed: Edit, faults: Faults, w: World): (Outcome, World) {
    (Returned(false), Sys(ed, faults, w, UnlinkTemp(true)).1)
  }

  /** Unlinks the work file: by its plain name if there is no handle or that is not supported. */
  function RemoveTemp(ed: Edit, faults: Faults, w: World): World {
    if !ed.atFunctions then Sys(ed, faults, w, UnlinkTemp(true)).1
    else
      var (answer, w1) := Sys(ed, faults, w, UnlinkTemp(false));
      if answer.NotSupported? then Sys(ed, faults, w1, UnlinkTemp(true)).1 else w1
  }

  /** What becomes of a failed backup. */
  function NoBackup(ed: Edit, faults: Faults, w: World, explicit: bool): (Outcome, World) {
    if explicit then Abort(ed, faults, w)
    else if !ed.atFunctions then (Croaked(CannotBackUp), Sys(ed, faults, w, UnlinkTemp(true)).1)
    else
      var (answer, w1) := Sys(ed, faults, w, UnlinkTemp(false));
      if !answer.NotSupported? then (Croaked(CannotBackUp), w1)
      else
        var (same, w2) := DirUnchanged(ed, faults, w1);
        if !same then (Croaked(DirectoryChanged), w2)
        else (Croaked(CannotBackUp), Sys(ed, faults, w2, UnlinkTemp(true)).1)
  }

  /** The work file becomes the original. */
  function Replace(ed: Edit, faults: Faults, w: World, explicit: bool): (Outcome, World) {
    var (renamed, w1) := Attempt(ed, faults, w, RenameTemp(false), RenameTemp(true));
    if renamed.None? then (Croaked(DirectoryChanged), w1)
    else if renamed.value then (Returned(true), w1)
    else if explicit then Abort(ed, faults, w1)
    else (Croaked(CannotRename), RemoveTemp(ed, faults, w1))
  }

  /** S_argvout_final, after the handle was closed with result `closed`. */
  function Final(ed: Edit, faults: Faults, w: World, closed: bool, child: bool, explicit: bool): (Outcome, World) {
    if child then (Returned(closed), w)
    else if !closed then
      (if explicit then Returned(false) else Croaked(CannotClose), RemoveTemp(ed, faults, w))
    else
      var (same, w1) := if ed.atFunctions then (true, w) else DirUnchanged(ed, faults, w);
      if !same then (Croaked(DirectoryChanged), w1)
      else if ed.backup.None? then Replace(ed, faults, w1, explicit)
      else
        var (saved, w2) := BackUp(ed, faults, w1);
        if saved.None? then (Croaked(DirectoryChanged), w2)
        else if saved.value then Replace(ed, faults, w2, explicit)
        else NoBackup(ed, faults, w2, explicit)
  }
}
