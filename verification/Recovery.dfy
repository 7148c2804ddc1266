/**
 * Offline recovery (src/filter_recovery.cpp) and USB pairing (src/recovery_usb.cpp) as
 * transactions on a machine where any call may fail.
 */
module Recovery {
  import opened Basics
  import opened Wire
  import opened Profile
  import opened RecoveryUsb

  const FILTER_KEY: string :=
    "Microsoft\\Windows\\CurrentVersion\\Authentication\\Credential Provider Filters\\{51583B4D-1D80-4692-B4EF-1C385FBCF22D}"
  const WINDOWS_KEY: string := "Microsoft\\Windows NT\\CurrentVersion"
  const CLASSES_KEY: string := "Classes\\CLSID"

  /** The two hives a recovery loads: a temporary copy to inspect, then the installation's own. */
  datatype Mount = Inspection | Target

  datatype Event =
    | Loaded(mount: Mount)
    | Opened(mount: Mount)
    | Closed(mount: Mount)
    | UnloadTried(mount: Mount, ok: bool)
    | Read(path: string, content: Bytes)      // a credential file, as the drive held it
    | Permitted(mount: Mount, credential: Option<Bytes>)
    | BackedUp
    | Deleted

  // ----- The discipline a run must follow, as an automaton over its events

  datatype Monitor =
    | Broken
    | Watching(mounted: set<Mount>, tried: set<Mount>, handle: Option<Mount>, copyPermitted: bool, backedUp: bool,
               targetPermitted: bool, deleted: bool)

  const IDLE := Watching({}, {}, None, false, false, false, false)

  /**
   * A hive is loaded at most once, alone, and tried to be unloaded at most once, never with
   * an open handle; the backup needs permission on the copy, loading the installation's own
   * hive needs the backup, and the deletion needs permission on that hive, all in this order.
   */
  function Watch(m: Monitor, e: Event): Monitor {
    if m.Broken? then Broken else
    match e
    case Loaded(x) =>
      if m.mounted != {} || x in m.tried || m.handle.Some? || (x.Target? && !m.backedUp) then Broken
      else m.(mounted := {x})
    case Opened(x) => if x !in m.mounted || x in m.tried || m.handle.Some? then Broken else m.(handle := Some(x))
    case Closed(x) => if m.handle != Some(x) then Broken else m.(handle := None)
    case UnloadTried(x, ok) =>
      if x !in m.mounted || x in m.tried || m.handle.Some? then Broken
      else m.(tried := m.tried + {x}, mounted := if ok then m.mounted - {x} else m.mounted)
    case Read(_, _) => m
    case Permitted(x, _) =>
      if m.handle != Some(x) || (x.Target? && !m.backedUp) then Broken
      else if x.Inspection? then m.(copyPermitted := true) else m.(targetPermitted := true)
    case BackedUp => if !m.copyPermitted || m.mounted != {} then Broken else m.(backedUp := true)
    case Deleted => if m.handle != Some(Target) || !m.targetPermitted || m.deleted then Broken else m.(deleted := true)
  }

  function Replay(log: seq<Event>): Monitor {
    if log == [] then IDLE else Watch(Replay(log[..|log| - 1]), log[|log| - 1])
  }

  lemma ReplayAppend(log: seq<Event>, e: Event)
    ensures Replay(log + [e]) == Watch(Replay(log), e)
  {
    assert (log + [e])[..|log|] == log;
  }

  ghost predicate Ordered(m: Monitor) {
    m.Watching? ==>
        (m.deleted ==> m.targetPermitted) && (m.targetPermitted ==> m.backedUp) && (m.backedUp ==> m.copyPermitted)
  }

  lemma {:induction false} ReplayOrdered(log: seq<Event>)
    ensures Ordered(Replay(log))
  {
    if log == [] {
    } else {
      ReplayOrdered(log[..|log| - 1]);
    }
  }

  // What an accepted history looks like, position by position.

  lemma {:induction false} CopyPermittedAt(log: seq<Event>) returns (p: nat)
    requires Replay(log).Watching? && Replay(log).copyPermitted
    ensures p < |log| && log[p].Permitted? && log[p].mount.Inspection?
  {
    var shorter := log[..|log| - 1];
    if Replay(shorter).copyPermitted { p := CopyPermittedAt(shorter); } else { p := |log| - 1; }
  }

  lemma {:induction false} BackedUpAt(log: seq<Event>) returns (p: nat, q: nat)
    requires Replay(log).Watching? && Replay(log).backedUp
    ensures p < q < |log| && log[p].Permitted? && log[p].mount.Inspection? && log[q].BackedUp?
  {
    var shorter := log[..|log| - 1];
    if Replay(shorter).backedUp { p, q := BackedUpAt(shorter); }
    else {
      p := CopyPermittedAt(shorter);
      q := |log| - 1;
    }
  }

  lemma {:induction false} TargetPermittedAt(log: seq<Event>) returns (p: nat, q: nat, r: nat)
    requires Replay(log).Watching? && Replay(log).targetPermitted
    ensures p < q < r < |log| && log[p].Permitted? && log[p].mount.Inspection? && log[q].BackedUp?
    ensures log[r].Permitted? && log[r].mount.Target?
  {
    var shorter := log[..|log| - 1];
    if Replay(shorter).targetPermitted { p, q, r := TargetPermittedAt(shorter); }
    else {
      p, q := BackedUpAt(shorter);
      r := |log| - 1;
    }
  }

  /** The installation's own hive is loaded only after the copy was permitted and the backup completed. */
  lemma {:induction false} LoadedAfterBackup(log: seq<Event>, i: nat) returns (p: nat, q: nat)
    requires Replay(log).Watching? && i < |log| && log[i] == Loaded(Target)
    ensures p < q < i && log[p].Permitted? && log[p].mount.Inspection? && log[q].BackedUp?
  {
    if i < |log| - 1 {
      p, q := LoadedAfterBackup(log[..|log| - 1], i);
    } else {
      p, q := BackedUpAt(log[..i]);
    }
  }

  /** Before a deletion: permission on the copy, then the backup, then permission on the installation's own hive. */
  lemma {:induction false} DeletionHistory(log: seq<Event>) returns (p: nat, q: nat, r: nat, d: nat)
    requires Replay(log).Watching? && Replay(log).deleted
    ensures p < q < r < d < |log| && log[p].Permitted? && log[p].mount.Inspection? && log[q].BackedUp?
    ensures log[r].Permitted? && log[r].mount.Target? && log[d].Deleted?
  {
    var shorter := log[..|log| - 1];
    if Replay(shorter).deleted { p, q, r, d := DeletionHistory(shorter); }
    else {
      p, q, r := TargetPermittedAt(shorter);
      d := |log| - 1;
    }
  }

  function Loads(log: seq<Event>, x: Mount): nat {
    if log == [] then 0 else Loads(log[..|log| - 1], x) + if log[|log| - 1] == Loaded(x) then 1 else 0
  }

  function Unloads(log: seq<Event>, x: Mount): nat {
    if log == [] then 0 else
    var e := log[|log| - 1];
    Unloads(log[..|log| - 1], x) + if e.UnloadTried? && e.mount == x then 1 else 0
  }

  lemma {:induction false} LoadsCount(log: seq<Event>, x: Mount)
    requires Replay(log).Watching?
    ensures Loads(log, x) == if x in Replay(log).mounted || x in Replay(log).tried then 1 else 0
  {
    if log == [] {
    } else {
      LoadsCount(log[..|log| - 1], x);
    }
  }

  lemma {:induction false} UnloadsCount(log: seq<Event>, x: Mount)
    requires Replay(log).Watching?
    ensures Unloads(log, x) == if x in Replay(log).tried then 1 else 0
  {
    if log == [] {
    } else {
      UnloadsCount(log[..|log| - 1], x);
    }
  }

  /** Every hive that a finished run loaded got exactly one unload attempt. */
  lemma LoadedIsUnloadedOnce(log: seq<Event>, x: Mount)
    requires Settled(Replay(log))
    ensures Unloads(log, x) == Loads(log, x) <= 1
  {
    LoadsCount(log, x);
    UnloadsCount(log, x);
  }

  /** A handle opened at `i` is still the open one, or was closed at `c`. */
  lemma {:induction false} OpenOrClosed(log: seq<Event>, i: nat) returns (c: int)
    requires Replay(log).Watching? && i < |log| && log[i].Opened?
    ensures if c < 0 then Replay(log).handle == Some(log[i].mount) else i < c < |log| && log[c] == Closed(log[i].mount)
  {
    c := -1;
    if i < |log| - 1 {
      c := OpenOrClosed(log[..|log| - 1], i);
      if c < 0 && log[|log| - 1].Closed? { c := |log| - 1; }
    }
  }

  /** Before every unload attempt, each handle opened earlier on any hive has been closed again. */
  lemma {:induction false} ClosedBeforeUnload(log: seq<Event>, i: nat, u: nat) returns (c: int)
    requires Replay(log).Watching? && i < u < |log| && log[i].Opened? && log[u].UnloadTried?
    ensures i < c < u && log[c] == Closed(log[i].mount)
  {
    if u < |log| - 1 {
      c := ClosedBeforeUnload(log[..|log| - 1], i, u);
    } else {
      c := OpenOrClosed(log[..u], i);
    }
  }

  /** The mount is loaded, no handle is open on it, and its unload was not tried yet. */
  ghost predicate CanOpen(m: Monitor, mount: Mount) {
    m.Watching? && mount in m.mounted && mount !in m.tried && m.handle.None? && (mount.Target? ==> m.backedUp)
  }

  /** The monitor after `mount` was opened and, if `ok`, permission was given on it. */
  ghost function Opening(m: Monitor, mount: Mount, ok: bool): Monitor
    requires m.Watching?
  {
    m.(handle := Some(mount), copyPermitted := m.copyPermitted || (ok && mount.Inspection?),
       targetPermitted := m.targetPermitted || (ok && mount.Target?))
  }

  /** A key with subkeys cannot be deleted by the non-recursive call. */
  predicate HasChildren(h: Hive, key: string) {
    exists path :: path in h && key + "\\" <= path
  }

  datatype Removal = Failed | Absent | Removed

  /** What `readKey` would read from the named file. */
  function Content(files: map<string, Bytes>, keyFile: Option<string>): Option<Bytes> {
    if keyFile.Some? && keyFile.value in files && |files[keyFile.value]| == KEY_SIZE
    then Some(files[keyFile.value]) else None
  }

  predicate WindowsStructure(h: Hive) {
    WINDOWS_KEY in h && CLASSES_KEY in h
  }

  /** When a recovery (or, inspecting, a check) goes through on a machine where nothing fails. */
  predicate Recoverable(sha: Sha, h: Hive, keyFile: Option<string>, credential: Option<Bytes>, inspecting: bool) {
    && WindowsStructure(h) && Permits(sha, h, keyFile, credential, inspecting)
    && (inspecting || FILTER_KEY !in h || !HasChildren(h, FILTER_KEY))
  }

  class Machine {
    /** Whether calls may fail and the drive may be exchanged under the program. */
    const faulty: bool
    /** The SOFTWARE hive of the installation, the files on removable drives, the last completed backup. */
    var disk: Hive
    var files: map<string, Bytes>
    var backup: Option<Hive>
    /** The contents behind the loaded mount, and the events of the current run. */
    var memory: Hive
    var log: seq<Event>

    constructor (hive: Hive, usb: map<string, Bytes>, unreliable: bool)
      ensures disk == hive && files == usb && backup.None? && log == [] && faulty == unreliable
    {
      faulty := unreliable;
      disk, files, backup, memory, log := hive, usb, None, hive, [];
    }

    method Emit(e: Event)
      modifies this`log
      ensures log == old(log) + [e] && Replay(log) == Watch(old(Replay(log)), e)
    {
      ReplayAppend(log, e);
      log := log + [e];
    }

    /** A call that may fail. */
    method Works() returns (ok: bool)
      ensures !faulty ==> ok
    {
      ok := *;
      ok := ok || !faulty;
    }

    /** Somebody may exchange the removable drive. */
    method SwapDrive()
      modifies this`files
      ensures !faulty ==> files == old(files)
    {
      if faulty { files := *; }
    }

    /** `readKey`: a missing, short or unreadable file gives nothing; a read of the drive is on record. */
    method ReadKey(path: string) returns (credential: Option<Bytes>)
      modifies this`log
      ensures credential.Some? ==>
                credential == Content(files, Some(path)) && log == old(log) + [Read(path, credential.value)]
      ensures credential.Some? ==> path in files && credential.value == files[path] && |credential.value| == 56
      ensures credential.None? ==> log == old(log)
      ensures Replay(log) == old(Replay(log))
      ensures !faulty ==> credential == Content(files, Some(path))
    {
      var readable := Works();
      credential := if readable then Content(files, Some(path)) else None;
      if credential.Some? { Emit(Read(path, credential.value)); }
    }

    /** `authorizeRecovery` on the opened mount; any of its registry reads may fail. */
    method Authorize(sha: Sha, mount: Mount, keyFile: Option<string>, inspecting: bool) returns (ok: bool)
      modifies this`log, this`files
      ensures old(log) <= log
      ensures ok ==> exists credential :: Shown(sha, log, |old(log)|, |log| - 1, mount, memory, keyFile, inspecting) &&
                                          log[|log| - 1] == Permitted(mount, credential) &&
                                          Replay(log) == Watch(old(Replay(log)), Permitted(mount, credential))
      ensures !ok ==> Replay(log) == old(Replay(log))
      ensures !faulty ==>
                files == old(files) && ok == Permits(sha, memory, keyFile, Content(files, keyFile), inspecting)
    {
      SwapDrive();
      var readable := Works();
      if !readable { return false; }
      var credential: Option<Bytes> := None;
      if IsPaired(memory) {
        if keyFile.None? || keyFile.value == "" { return false; }
        credential := ReadKey(keyFile.value);
        if credential.None? || !Matches(sha, memory, credential.value) { return false; }
      } else if keyFile.Some? || inspecting {
        return false;
      }
      Emit(Permitted(mount, credential));
      ok := true;
    }

    /** `removeRegistration` on the loaded hive: one exact key, then a flush. A failed flush may or may not persist. */
    method RemoveRegistration() returns (r: Removal)
      modifies this`disk, this`memory, this`log
      ensures r.Removed? ==> FILTER_KEY in old(memory) && disk == memory == old(memory) - {FILTER_KEY}
      ensures r.Absent? ==> FILTER_KEY !in old(memory)
      ensures (memory == old(memory) && log == old(log) && disk == old(disk)) ||
              (FILTER_KEY in old(memory) && memory == old(memory) - {FILTER_KEY} && log == old(log) + [Deleted] &&
               Replay(log) == Watch(old(Replay(log)), Deleted) && (disk == old(disk) || disk == memory))
      ensures HasChildren(old(memory), FILTER_KEY) ==> memory == old(memory) && disk == old(disk) && !r.Removed?
      ensures !faulty ==> (r.Failed? <==> FILTER_KEY in old(memory) && HasChildren(old(memory), FILTER_KEY))
    {
      var answers := Works();
      if !answers { return Failed; }
      if FILTER_KEY !in memory { return Absent; }
      if HasChildren(memory, FILTER_KEY) { return Failed; }
      memory := memory - {FILTER_KEY};
      Emit(Deleted);
      var flushed := Works();
      var persists := *;
      if flushed || persists { disk := memory; }
      r := if flushed then Removed else Failed;
    }

    /** What both `try` blocks start with: open the loaded hive, check its structure, authorize. */
    method OpenAndAuthorize(sha: Sha, mount: Mount, keyFile: Option<string>, inspecting: bool)
      returns (isOpen: bool, ok: bool)
      requires CanOpen(Replay(log), mount)
      modifies this`log, this`files
      ensures old(log) <= log
      ensures Replay(log) == if isOpen then Opening(old(Replay(log)), mount, ok) else old(Replay(log))
      ensures ok ==>
                isOpen && WindowsStructure(memory) &&
                    Presented(sha, log, |old(log)|, mount, memory, keyFile, inspecting)
      ensures !faulty ==> files == old(files) && isOpen &&
                          ok == (WindowsStructure(memory) &&
                              Permits(sha, memory, keyFile, Content(files, keyFile), inspecting))
    {
      isOpen := Works();
      if !isOpen { return false, false; }
      Emit(Opened(mount));
      var readable := Works();
      ok := readable && WindowsStructure(memory);
      if ok {
        ghost var before := log;
        ok := Authorize(sha, mount, keyFile, inspecting);
        if ok { PresentedStays(sha, log, log, |before|, |old(log)|, mount, memory, keyFile, inspecting); }
      }
    }

    /** The body of the `try` block on the inspection copy; its key handle is closed on every path out. */
    method TryInspect(sha: Sha, keyFile: Option<string>, inspecting: bool) returns (ok: bool)
      requires CanOpen(Replay(log), Inspection)
      modifies this`log, this`files
      ensures old(log) <= log
      ensures Replay(log) == if ok then old(Replay(log)).(copyPermitted := true) else old(Replay(log))
      ensures ok ==>
                WindowsStructure(memory) && Presented(sha, log, |old(log)|, Inspection, memory, keyFile, inspecting)
      ensures !faulty ==> files == old(files) &&
                          ok == (WindowsStructure(memory) &&
                              Permits(sha, memory, keyFile, Content(files, keyFile), inspecting))
    {
      var isOpen;
      isOpen, ok := OpenAndAuthorize(sha, Inspection, keyFile, inspecting);
      if !isOpen { return; }
      ghost var before := log;
      Emit(Closed(Inspection));
      if ok { PresentedStays(sha, before, log, |old(log)|, |old(log)|, Inspection, memory, keyFile, inspecting); }
    }

    /** `inspectCopy`. The installation's hive is not touched. */
    method InspectCopy(sha: Sha, keyFile: Option<string>, inspecting: bool) returns (ok: bool)
      requires log == []
      modifies this`log, this`files, this`memory
      ensures Settled(Replay(log)) && !Replay(log).backedUp && !Replay(log).deleted && Target !in Replay(log).tried
      ensures ok ==> Replay(log).mounted == {} && Replay(log).copyPermitted
      ensures ok ==> WindowsStructure(disk) && Presented(sha, log, 0, Inspection, disk, keyFile, inspecting)
      ensures !faulty ==> files == old(files) &&
                          ok == (WindowsStructure(disk) &&
                              Permits(sha, disk, keyFile, Content(files, keyFile), inspecting))
    {
      var copied := Works();
      var loads := Works();
      if !copied || !loads { return false; }
      memory := disk;
      Emit(Loaded(Inspection));
      ok := InspectLoaded(sha, keyFile, inspecting);
      if ok { PresentedStays(sha, log, log, 1, 0, Inspection, memory, keyFile, inspecting); }
    }

    /** The copy is loaded: inspect it, and try to unload it whatever came of that. */
    method InspectLoaded(sha: Sha, keyFile: Option<string>, inspecting: bool) returns (ok: bool)
      requires Replay(log) == Watching({Inspection}, {}, None, false, false, false, false)
      modifies this`log, this`files
      ensures old(log) <= log
      ensures Replay(log).Watching? && Replay(log).tried == {Inspection} && Replay(log).handle.None?
      ensures Replay(log).mounted <= {Inspection} && !Replay(log).backedUp && !Replay(log).deleted
      ensures ok ==> Replay(log).mounted == {} && Replay(log).copyPermitted
      ensures ok ==>
                WindowsStructure(memory) && Presented(sha, log, |old(log)|, Inspection, memory, keyFile, inspecting)
      ensures !faulty ==> files == old(files) &&
                          ok == (WindowsStructure(memory) &&
                              Permits(sha, memory, keyFile, Content(files, keyFile), inspecting))
    {
      ok := TryInspect(sha, keyFile, inspecting);
      ghost var before := log;
      var unloads := Works();
      Emit(UnloadTried(Inspection, unloads));
      if ok {
        PresentedStays(sha, before, log, |old(log)|, |old(log)|, Inspection, memory, keyFile, inspecting);
      }
      ok := ok && unloads;
    }

    /** The body of the `try` block on the installation's own hive. */
    method TryRemove(sha: Sha, keyFile: Option<string>) returns (ok: bool)
      requires CanOpen(Replay(log), Target) && !Replay(log).deleted && memory == disk
      modifies this`log, this`files, this`memory, this`disk
      ensures old(log) <= log
      ensures Replay(log).Watching? && Replay(log).handle.None?
      ensures Replay(log).mounted == old(Replay(log).mounted) && Replay(log).tried == old(Replay(log)).tried
      ensures disk == old(disk) || (Replay(log).deleted && FILTER_KEY in old(disk) && disk == old(disk) - {FILTER_KEY})
      ensures ok ==> disk == old(disk) - {FILTER_KEY}
      ensures Replay(log).deleted ==>
                WindowsStructure(old(disk)) && Presented(sha, log, |old(log)|, Target, old(disk), keyFile, false)
      ensures HasChildren(old(disk), FILTER_KEY) ==> disk == old(disk)
      ensures !faulty ==> ok == Recoverable(sha, old(disk), keyFile, Content(old(files), keyFile), false)
    {
      var isOpen;
      isOpen, ok := OpenAndAuthorize(sha, Target, keyFile, false);
      if !isOpen { return; }
      if !ok {
        Emit(Closed(Target));
        return;
      }
      ghost var permitted := log;
      ok := RemoveAndClose();
      PresentedStays(sha, permitted, log, |old(log)|, |old(log)|, Target, old(disk), keyFile, false);
    }

    method RemoveAndClose() returns (ok: bool)
      requires Replay(log).Watching? && Replay(log).handle == Some(Target) && Replay(log).targetPermitted &&
                 !Replay(log).deleted
      requires memory == disk
      modifies this`log, this`memory, this`disk
      ensures old(log) <= log
      ensures Replay(log).Watching? && Replay(log) == old(Replay(log)).(handle := None, deleted := Replay(log).deleted)
      ensures disk == old(disk) || (Replay(log).deleted && FILTER_KEY in old(disk) && disk == old(disk) - {FILTER_KEY})
      ensures ok ==> disk == old(disk) - {FILTER_KEY}
      ensures HasChildren(old(disk), FILTER_KEY) ==> disk == old(disk)
      ensures !faulty ==> ok == (FILTER_KEY !in old(disk) || !HasChildren(old(disk), FILTER_KEY))
    {
      var removal := RemoveRegistration();
      Emit(Closed(Target));
      ok := !removal.Failed?;
    }

    /**
     * `recover`. Whatever fails, the hive changes at most by losing the one filter key, and
     * only along the discipline of the automaton; a normal return means that it is gone.
     */
    method Recover(sha: Sha, keyFile: Option<string>, inspecting: bool) returns (ok: bool)
      requires log == []
      modifies this
      ensures Settled(Replay(log))
      ensures disk == old(disk) ||
              (Replay(log).deleted && disk == old(disk) - {FILTER_KEY} && backup == Some(old(disk)))
      ensures ok && !inspecting ==> disk == old(disk) - {FILTER_KEY} && Replay(log).mounted == {}
      ensures inspecting ==> disk == old(disk) && !Replay(log).deleted && backup == old(backup)
      ensures ok || Replay(log).backedUp ==>
                WindowsStructure(old(disk)) && Presented(sha, log, 0, Inspection, old(disk), keyFile, inspecting)
      ensures Replay(log).deleted ==>
                WindowsStructure(old(disk)) && Presented(sha, log, 0, Target, old(disk), keyFile, false)
      ensures Replay(log).deleted && IsPaired(old(disk)) ==>
                CredentialShown(sha, log, Inspection, old(disk), keyFile) &&
                    CredentialShown(sha, log, Target, old(disk), keyFile)
      ensures (exists path :: path in old(disk) && FILTER_KEY + "\\" <= path) ==> disk == old(disk)
      ensures ok || Replay(log).deleted ==>
                && "Microsoft\\Windows NT\\CurrentVersion" in old(disk) && "Classes\\CLSID" in old(disk)
                && (PAIRING_PATH !in old(disk) ==> keyFile.None? && !inspecting)
                && (PAIRING_PATH in old(disk) ==> keyFile.Some? && keyFile.value != "")
      ensures !faulty ==> ok == Recoverable(sha, old(disk), keyFile, Content(old(files), keyFile), inspecting)
      ensures !faulty ==>
                ok == (&& "Microsoft\\Windows NT\\CurrentVersion" in old(disk) && "Classes\\CLSID" in old(disk)
                       && (if PAIRING_PATH in old(disk)
                           then Presentable(sha, old(disk), old(files), keyFile)
                           else keyFile.None? && !inspecting)
                       && (inspecting || FILTER_KEY !in old(disk) ||
                           forall path | path in old(disk) :: !(FILTER_KEY + "\\" <= path)))
    {
      var prepared := Works();
      if !prepared { return false; }
      ok := InspectCopy(sha, keyFile, inspecting);
      if !ok || inspecting { return; }
      ghost var inspected := log;
      ok := BackUpAndRemove(sha, keyFile);
      PresentedStays(sha, inspected, log, 0, 0, Inspection, old(disk), keyFile, inspecting);
      if Replay(log).deleted {
        PresentedStays(sha, log, log, |inspected|, 0, Target, old(disk), keyFile, false);
        if IsPaired(old(disk)) {
          PairedNeedsCredential(sha, log, Inspection, old(disk), keyFile, inspecting);
          PairedNeedsCredential(sha, log, Target, old(disk), keyFile, false);
        }
      }
    }

    /** The part of `recover` that follows a successful check of the copy. */
    method BackUpAndRemove(sha: Sha, keyFile: Option<string>) returns (ok: bool)
      requires Settled(Replay(log)) && Replay(log).mounted == {} && Target !in Replay(log).tried
      requires Replay(log).copyPermitted && !Replay(log).backedUp && !Replay(log).deleted
      modifies this
      ensures old(log) <= log && Settled(Replay(log))
      ensures disk == old(disk) ||
              (Replay(log).deleted && disk == old(disk) - {FILTER_KEY} && backup == Some(old(disk)))
      ensures ok ==> disk == old(disk) - {FILTER_KEY} && Replay(log).mounted == {}
      ensures Replay(log).deleted ==>
                WindowsStructure(old(disk)) && Presented(sha, log, |old(log)|, Target, old(disk), keyFile, false)
      ensures HasChildren(old(disk), FILTER_KEY) ==> disk == old(disk)
      ensures !faulty ==> ok == Recoverable(sha, old(disk), keyFile, Content(old(files), keyFile), false)
    {
      var copied := Works();
      if !copied { return false; }
      backup := Some(disk);
      Emit(BackedUp);
      ghost var start := |log|;
      ok := LoadAndRemove(sha, keyFile);
      if Replay(log).deleted { PresentedStays(sha, log, log, start, |old(log)|, Target, old(disk), keyFile, false); }
    }

    /** Load the installation's hive, work on it, and try to unload it whatever happened. */
    method LoadAndRemove(sha: Sha, keyFile: Option<string>) returns (ok: bool)
      requires Settled(Replay(log)) && Replay(log).mounted == {} && Target !in Replay(log).tried
      requires Replay(log).backedUp && !Replay(log).deleted
      modifies this`log, this`files, this`memory, this`disk
      ensures old(log) <= log && Settled(Replay(log))
      ensures disk == old(disk) || (Replay(log).deleted && disk == old(disk) - {FILTER_KEY})
      ensures ok ==> disk == old(disk) - {FILTER_KEY} && Replay(log).mounted == {}
      ensures Replay(log).deleted ==>
                WindowsStructure(old(disk)) && Presented(sha, log, |old(log)|, Target, old(disk), keyFile, false)
      ensures HasChildren(old(disk), FILTER_KEY) ==> disk == old(disk)
      ensures !faulty ==> ok == Recoverable(sha, old(disk), keyFile, Content(old(files), keyFile), false)
    {
      var loads := Works();
      if !loads { return false; }
      memory := disk;
      Emit(Loaded(Target));
      ghost var start := |log|;
      ok := TryRemove(sha, keyFile);
      ghost var done := log;
      var unloads := Works();
      Emit(UnloadTried(Target, unloads));
      if Replay(done).deleted { PresentedStays(sha, done, log, start, |old(log)|, Target, old(disk), keyFile, false); }
      ok := ok && unloads;
    }

    /** A second recovery after a completed one changes nothing, whatever becomes of it. */
    method RecoverTwice(sha: Sha, keyFile: Option<string>, keyFile': Option<string>) returns (ok: bool)
      requires log == []
      modifies this
      ensures ok ==> disk == old(disk) - {FILTER_KEY}
    {
      ok := Recover(sha, keyFile, false);
      log := [];
      if ok {
        var _ := Recover(sha, keyFile', false);
      }
    }

    /** Another process may pair a drive while this one is at work. */
    method RacePairing() returns (raced: Option<Values>)
      modifies this`disk
      ensures raced.Some? ==> !IsPaired(old(disk)) && disk == old(disk)[PAIRING_PATH := raced.value]
      ensures raced.None? ==> disk == old(disk)
      ensures !faulty ==> raced.None?
    {
      raced := *;
      if !faulty || IsPaired(disk) { raced := None; }
      if raced.Some? { disk := disk[PAIRING_PATH := raced.value]; }
    }

    /** Create a new file and write the credential; on a bad drive any bytes may end up in it, whatever is reported. */
    method WriteCredential(target: string, material: Bytes) returns (ok: bool)
      modifies this`files
      ensures files == old(files) || (target !in old(files) && target in files && files - {target} == old(files))
      ensures ok ==> target !in old(files) && target in files
      ensures !faulty ==> ok == (target !in old(files)) && (ok ==> files[target] == material)
    {
      var creates := Works();
      if !creates || target in files { return false; }
      ok := Works();
      var stored: Bytes := *;
      files := files[target := if faulty then stored else material];
    }

    /** Create the pairing key, which must be new, and save the record; then authorize with the file on the drive. */
    method SavePairing(sha: Sha, target: string, digest: Bytes32) returns (ok: bool)
      requires target != ""
      modifies this`disk, this`log
      ensures IsPaired(old(disk)) ==> !ok && disk == old(disk)
      ensures disk == old(disk) || disk == old(disk)[PAIRING_PATH := map[]] ||
              disk == old(disk)[PAIRING_PATH := map[PAIRING_VALUE := Record(digest)]]
      ensures ok ==> disk == old(disk)[PAIRING_PATH := map[PAIRING_VALUE := Record(digest)]]
      ensures ok ==> Authorizes(sha, disk, Some(target), Content(files, Some(target)))
      ensures !faulty ==> ok == (!IsPaired(old(disk)) && ReadsBack(sha, files, target, digest))
    {
      var creates := Works();
      if !creates || IsPaired(disk) { return false; }
      disk := disk[PAIRING_PATH := map[]];
      var saves := Works();
      if !saves { return false; }
      disk := disk[PAIRING_PATH := map[PAIRING_VALUE := Record(digest)]];
      assert disk == old(disk)[PAIRING_PATH := map[PAIRING_VALUE := Record(digest)]];
      RecordExpects(old(disk), digest);
      var flushes := Works();
      if !flushes { return false; }
      var credential := ReadKey(target);
      ok := credential.Some? && Matches(sha, disk, credential.value);
    }

    /**
     * `pairUsb`. An existing pairing and existing files are never altered, not even when
     * another process pairs concurrently; a pairing is recorded only after the new file was read
     * back with the right digest, and success means that this file authorizes.
     */
    method PairUsb(sha: Sha, directory: string, random: Bytes) returns (ok: bool, ghost raced: Option<Values>)
      requires |random| == KEY_SIZE - 8
      modifies this`disk, this`files, this`log
      ensures forall f | f in old(files) :: f in files && files[f] == old(files[f])
      ensures IsPaired(old(disk)) ==> !ok && raced.None? && disk == old(disk) && files == old(files)
      ensures raced.Some? ==> !ok && disk == old(disk)[PAIRING_PATH := raced.value]
      ensures raced.None? ==>
                || disk == old(disk)
                || (ReadsBack(sha, files, directory + "\\recovery.key", sha(USB_MAGIC + random)) &&
                    (disk == old(disk)[PAIRING_PATH := map[]] ||
                     disk == old(disk)[PAIRING_PATH := map[PAIRING_VALUE := Record(sha(USB_MAGIC + random))]]))
      ensures ok ==> var target := directory + "\\recovery.key";
                     && target !in old(files) && Authorizes(sha, disk, Some(target), Content(files, Some(target)))
                     && disk == old(disk)[PAIRING_PATH := map[PAIRING_VALUE := Record(sha(USB_MAGIC + random))]]
      ensures !faulty ==> ok == (!IsPaired(old(disk)) && directory + "\\recovery.key" !in old(files))
    {
      raced := None;
      var prepared := Works();
      var target := directory + "\\recovery.key";
      if !prepared || IsPaired(disk) { return false, None; }
      var material := USB_MAGIC + random;
      var hashes := Works();
      if !hashes { return false, None; }
      ok := WriteCredential(target, material);
      if !ok { return; }
      var readBack := ReadKey(target);
      if readBack.None? || !(USB_MAGIC <= readBack.value) { return false, None; }
      var same := Equal(sha(readBack.value), sha(material));
      if !same { return false, None; }
      raced := RacePairing();
      ok := SavePairing(sha, target, sha(material));
    }
  }

  /** The named file is on the drive and holds the credential that the hive records. */
  predicate Presentable(sha: Sha, h: Hive, files: map<string, Bytes>, keyFile: Option<string>) {
    keyFile.Some? && keyFile.value != "" && keyFile.value in files && Matches(sha, h, files[keyFile.value])
  }

  /** The file holds a well-formed credential with this digest. */
  predicate ReadsBack(sha: Sha, files: map<string, Bytes>, target: string, digest: Bytes32) {
    var credential := Content(files, Some(target));
    credential.Some? && KeyDigest(sha, credential.value) == Ok(digest)
  }

  /** Over: no handle is open, and every hive still mounted is one whose unload was tried and failed. */
  ghost predicate Settled(m: Monitor) {
    m.Watching? && m.handle.None? && m.mounted <= m.tried
  }

  /**
   * Permission on `mount` was given directly after the named file was read, and what was read is a
   * credential of 56 bytes whose digest is the one `h` records.
   */
  ghost predicate CredentialShown(sha: Sha, log: seq<Event>, mount: Mount, h: Hive, keyFile: Option<string>) {
    keyFile.Some? &&
    exists i :: 0 < i < |log| && log[i].Permitted? && log[i].mount == mount &&
                log[i - 1].Read? && log[i - 1].path == keyFile.value &&
                |log[i - 1].content| == KEY_SIZE && USB_MAGIC <= log[i - 1].content &&
                Expected(h) == Ok(sha(log[i - 1].content))
  }

  /** Permission on a paired hive needs its credential. */
  lemma PairedNeedsCredential(sha: Sha, log: seq<Event>, mount: Mount, h: Hive, keyFile: Option<string>,
                              inspecting: bool)
    requires Presented(sha, log, 0, mount, h, keyFile, inspecting) && IsPaired(h)
    ensures CredentialShown(sha, log, mount, h, keyFile)
  {
    var i :| Shown(sha, log, 0, i, mount, h, keyFile, inspecting);
    assert log[i].credential.Some? && Matches(sha, h, log[i].credential.value);
    assert log[i - 1] == Read(keyFile.value, log[i].credential.value);
  }

  /** At position `i`, permission was given on `mount` for the hive `h`, on what was just read from the named file. */
  ghost predicate Shown(sha: Sha, log: seq<Event>, from: nat, i: int, mount: Mount, h: Hive,
                        keyFile: Option<string>, inspecting: bool) {
    && from <= i < |log| && log[i].Permitted? && log[i].mount == mount
    && Permits(sha, h, keyFile, log[i].credential, inspecting)
    && (log[i].credential.Some? ==>
          from < i && keyFile.Some? && log[i - 1] == Read(keyFile.value, log[i].credential.value))
  }

  /** From position `from` on, permission was given on `mount` for the hive `h`. */
  ghost predicate Presented(sha: Sha, log: seq<Event>, from: nat, mount: Mount, h: Hive,
                            keyFile: Option<string>, inspecting: bool) {
    exists i :: Shown(sha, log, from, i, mount, h, keyFile, inspecting)
  }

  lemma PresentedStays(sha: Sha, log: seq<Event>, log': seq<Event>, from: nat, from': nat, mount: Mount, h: Hive,
                       keyFile: Option<string>, inspecting: bool)
    requires log <= log' && from' <= from && Presented(sha, log, from, mount, h, keyFile, inspecting)
    ensures Presented(sha, log', from', mount, h, keyFile, inspecting)
  {
    var i :| Shown(sha, log, from, i, mount, h, keyFile, inspecting);
    assert log'[i] == log[i] && (0 < i ==> log'[i - 1] == log[i - 1]);
    assert Shown(sha, log', from', i, mount, h, keyFile, inspecting);
  }
}
