/** Runs of name-table operations, rolls and mounts: at every point of every run, replaying the current
    metadata log rebuilds the table as last persisted, and a file once deleted does not come back. */
module FileRuns {
  import opened Coding
  import opened FileCodec
  import opened FileTable
  import opened FileOps

  datatype Op =
    | CreateFile(name: Name, sparse: bool, mtime: U64, howDelete: Persist, how: Persist)
    | DeleteName(name: Name, how: Persist)
    | RenameName(src: Name, dst: Name, howDelete: Persist, mtime: U64, how: Persist)
    | LinkName(name: Name, link: Name, mtime: U64, how: Persist)
    | WriteFile(h: Handle, extents: seq<Extent>, size: U64, lifetime: U32, extentStart: U64)
    | SyncFile(h: Handle, mtime: U64, how: Persist)
    | MigrateFile(h: Handle, extents: seq<Extent>, how: Persist)
    | RollLog(order: seq<Name>)
    | RefuseRoll
    | Remount

  // RefuseRoll is what becomes of the log when a roll finds room for the superblock of a fresh zone and not for
  // the snapshot; the operation that has asked for it has failed. AquaFs says when, MetaRoll what follows.

  /** What the operations ask of their callers: ids do not run out, writers and migration hold objects that
      exist, and a roll walks the table. Any record may be appended, rolled or refused, at any time. */
  ghost predicate Called(s: State, op: Op) {
    && Sane(s)
    && match op
       case CreateFile(_, _, _, _, _) => s.nextId < W64
       case WriteFile(h, _, _, _, _) => h < |s.objs| && !s.objs[h].deleted
       case SyncFile(h, _, _) => h < |s.objs|
       case MigrateFile(h, _, _) => h < |s.objs| && !s.objs[h].deleted
       case RollLog(order) => Walks(order, MemTable(s))
       case Remount => Replay(s.log).Recovered?
       case _ => true
  }

  /** The operation meets none of the three cases that spoil the log: the log rolls for the record of a
      create, which the snapshot then lacks; the replace record of a file with persisted extents is refused;
      and a roll switches zones and then cannot write its snapshot. */
  ghost predicate Safe(s: State, op: Op)
    requires Called(s, op)
  {
    match op
    case CreateFile(name, sparse, mtime, howDelete, how) =>
      how.Rolled? ==> Create(s, name, sparse, howDelete, mtime, how).1 != OK
    case MigrateFile(h, extents, how) => Refused(s, h, extents, how) ==> s.saved[h].extents == []
    case RefuseRoll => false
    case _ => true
  }

  ghost predicate Refused(s: State, h: Handle, extents: seq<Extent>, how: Persist)
    requires h < |s.objs| && |s.saved| == |s.objs|
  {
    ReplaceExtents(s, h, extents, how).1 != OK
  }

  ghost predicate Fine(s: State, op: Op) {
    Called(s, op) && Safe(s, op)
  }

  /** A crash, and the replay of the mount behind it: all that is left is the log, and what it says counts as
      synced. What recovery of open extents then adds is a write, and the mount ends with a roll. */
  function Remounted(s: State): State
    requires Replay(s.log).Recovered?
  {
    var t := Replay(s.log).table;
    State(t.files, seq(|t.metas|, h requires 0 <= h < |t.metas| => FileState(t.metas[h], |t.metas[h].extents|, !Live(t, h))),
          t.nextId, s.log, t.metas)
  }

  ghost function Step(s: State, op: Op): State
    requires Called(s, op)
  {
    match op
    case CreateFile(name, sparse, mtime, howDelete, how) => Create(s, name, sparse, howDelete, mtime, how).0
    case DeleteName(name, how) => Delete(s, name, how).0
    case RenameName(src, dst, howDelete, mtime, how) => Rename(s, src, dst, howDelete, mtime, how).0
    case LinkName(name, link, mtime, how) => Link(s, name, link, mtime, how).0
    case WriteFile(h, extents, size, lifetime, extentStart) => Write(s, h, extents, size, lifetime, extentStart)
    case SyncFile(h, mtime, how) => SyncMeta(s, h, false, mtime, how).0
    case MigrateFile(h, extents, how) => ReplaceExtents(s, h, extents, how).0
    case RollLog(order) => Roll(s, order)
    case RefuseRoll => s.(log := [])
    case Remount => Remounted(s)
  }

  // ---------------------------------------------------------------------------------------------
  // Every step keeps the invariant
  // ---------------------------------------------------------------------------------------------

  lemma DeleteStep(s: State, name: Name, how: Persist)
    requires Inv(s)
    ensures Sane(s) && Inv(Delete(s, name, how).0)
    ensures Delete(s, name, how).1 == OK ==> Delete(s, name, how).0.files == s.files - {name}
  {
    InvSane(s);
    DeleteUnknown(s, name, how);
    hide *;
    if name in s.files {
      NamedLive(s, name);
      if Persists(Deleting(s, name), how) {
        DeleteOp(s, name, how);
      } else {
        DeleteRollback(s, name, how);
      }
    }
  }

  lemma DeleteUnknown(s: State, name: Name, how: Persist)
    requires Sane(s)
    ensures name !in s.files ==> Delete(s, name, how) == (s, AuxFs)
  {
  }

  lemma CreateNewStep(s: State, name: Name, sparse: bool, mtime: U64, how: Persist)
    requires Inv(s) && name !in s.files && s.nextId < W64
    ensures Inv(CreateNew(s, name, sparse, mtime, how).0) <==> (how.Rolled? ==> CreateNew(s, name, sparse, mtime, how).1 != OK)
  {
    CreateNewFails(s, name, sparse, mtime, how);
    hide *;
    if CreateNew(s, name, sparse, mtime, how).1 == OK {
      CreateRecoveredIff(s, name, sparse, mtime, how);
    } else {
      NextIdKeeps(s);
    }
  }

  lemma CreateNewFails(s: State, name: Name, sparse: bool, mtime: U64, how: Persist)
    requires s.nextId < W64
    ensures CreateNew(s, name, sparse, mtime, how).1 == OK ==> how.Rolled? || how.Appended?
    ensures CreateNew(s, name, sparse, mtime, how).1 != OK ==> CreateNew(s, name, sparse, mtime, how).0 == s.(nextId := s.nextId + 1)
    ensures !(how.Rolled? && how.Appended?)
  {
    hide Roll, Walks;
  }

  lemma CreateStep(s: State, name: Name, sparse: bool, mtime: U64, howDelete: Persist, how: Persist)
    requires Inv(s) && s.nextId < W64
    ensures Sane(s)
    ensures Inv(Create(s, name, sparse, howDelete, mtime, how).0)
            <==> (how.Rolled? ==> Create(s, name, sparse, howDelete, mtime, how).1 != OK)
  {
    InvSane(s);
    DeleteKeepsNextId(s, name, howDelete);
    CreateCases(s, name, sparse, mtime, howDelete, how);
    hide *;
    if name in s.files {
      DeleteStep(s, name, howDelete);
      var (s0, st) := Delete(s, name, howDelete);
      if st == OK {
        CreateNewStep(s0, name, sparse, mtime, how);
      }
    } else {
      CreateNewStep(s, name, sparse, mtime, how);
    }
  }

  lemma CreateCases(s: State, name: Name, sparse: bool, mtime: U64, howDelete: Persist, how: Persist)
    requires Sane(s) && s.nextId < W64 && Delete(s, name, howDelete).0.nextId == s.nextId
    ensures name !in s.files ==> Create(s, name, sparse, howDelete, mtime, how) == CreateNew(s, name, sparse, mtime, how)
    ensures name in s.files ==>
              var (s0, st) := Delete(s, name, howDelete);
              Create(s, name, sparse, howDelete, mtime, how) == if st != OK then (s0, st) else CreateNew(s0, name, sparse, mtime, how)
  {
    hide Delete, CreateNew;
  }

  lemma DeleteKeepsNextId(s: State, name: Name, how: Persist)
    requires Sane(s)
    ensures Delete(s, name, how).0.nextId == s.nextId
  {
    hide RemoveFirst, Walks, Sane;
  }

  lemma RenameToStep(s: State, src: Name, dst: Name, mtime: U64, how: Persist)
    requires Inv(s) && src in s.files && dst !in s.files
    ensures s.files[src] < |s.objs| && |s.saved| == |s.objs|
    ensures s.objs[s.files[src]].synced <= |s.objs[s.files[src]].meta.extents|
    ensures Inv(RenameTo(s, s.files[src], src, dst, mtime, how).0)
  {
    InvSane(s);
    SaneParts(s);
    NamedLive(s, src);
    hide *;
    if Persists(Stamped(Renaming(s, s.files[src], src, dst), s.files[src], false, mtime), how) {
      RenameToOp(s, src, dst, mtime, how);
    } else {
      RenameToRollback(s, src, dst, mtime, how);
    }
  }

  lemma RenameUnknown(s: State, src: Name, dst: Name, howDelete: Persist, mtime: U64, how: Persist)
    requires Sane(s)
    ensures src !in s.files ==> Rename(s, src, dst, howDelete, mtime, how) == (s, AuxFs)
    ensures src in s.files && dst in s.files && Delete(s, dst, howDelete).1 != OK ==>
              Rename(s, src, dst, howDelete, mtime, how) == Delete(s, dst, howDelete)
  {
    hide Delete, RenameTo;
  }

  lemma RenameStep(s: State, src: Name, dst: Name, howDelete: Persist, mtime: U64, how: Persist)
    requires Inv(s)
    ensures Sane(s) && Inv(Rename(s, src, dst, howDelete, mtime, how).0)
  {
    InvSane(s);
    hide *;
    if src != dst {
      RenameOtherStep(s, src, dst, howDelete, mtime, how);
    } else {
      RenameUnknown(s, src, src, howDelete, mtime, how);
      DeleteStep(s, src, howDelete);
      if src in s.files && Delete(s, src, howDelete).1 == OK { SelfStep(s, src, howDelete, mtime, how); }
    }
  }

  lemma RenameOtherStep(s: State, src: Name, dst: Name, howDelete: Persist, mtime: U64, how: Persist)
    requires Inv(s) && src != dst
    ensures Sane(s) && Inv(Rename(s, src, dst, howDelete, mtime, how).0)
  {
    InvSane(s);
    hide *;
    RenameUnknown(s, src, dst, howDelete, mtime, how);
    if src in s.files {
      RenameCases(s, src, dst, howDelete, mtime, how);
      if dst in s.files {
        DeleteStep(s, dst, howDelete);
        var (s0, st) := Delete(s, dst, howDelete);
        if st == OK {
          InvSane(s0);
          RenameToStep(s0, src, dst, mtime, how);
        }
      } else {
        RenameToStep(s, src, dst, mtime, how);
      }
    }
  }

  lemma SelfStep(s: State, src: Name, howDelete: Persist, mtime: U64, how: Persist)
    requires Inv(s) && src in s.files && Sane(s) && Delete(s, src, howDelete).1 == OK
    ensures Rename(s, src, src, howDelete, mtime, how) == (Delete(s, src, howDelete).0, IOError)
  {
    NamedLive(s, src);
    if !Persists(Deleting(s, src), howDelete) { DeleteRollback(s, src, howDelete); }
    DeletedLinks(s, src, howDelete);
    hide Inv, Delete, Persists;
  }

  lemma LinkStep(s: State, name: Name, link: Name, mtime: U64, how: Persist)
    requires Inv(s)
    ensures Sane(s) && Inv(Link(s, name, link, mtime, how).0)
  {
    InvSane(s);
    LinkUnknown(s, name, link, mtime, how);
    hide *;
    if link !in s.files && name in s.files {
      NamedLive(s, name);
      if Persists(Stamped(Linking(s, s.files[name], link), s.files[name], false, mtime), how) {
        LinkOp(s, name, link, mtime, how);
      } else {
        LinkRollback(s, name, link, mtime, how);
      }
    }
  }

  lemma LinkUnknown(s: State, name: Name, link: Name, mtime: U64, how: Persist)
    requires Sane(s)
    ensures link in s.files || name !in s.files ==> Link(s, name, link, mtime, how).0 == s
  {
  }

  /** A replace record that is refused leaves the list of the file unsynced, and what was persisted of it
      behind. */
  lemma MigrateStep(s: State, h: Handle, extents: seq<Extent>, how: Persist)
    requires Inv(s) && h < |s.objs| && |s.saved| == |s.objs| && !s.objs[h].deleted
    ensures Inv(ReplaceExtents(s, h, extents, how).0) <==> (Refused(s, h, extents, how) ==> s.saved[h].extents == [])
  {
    ReplaceOp(s, h, extents, how);
    if Refused(s, h, extents, how) {
      RefusedState(s, h, extents, how);
      assert Tracks(s.saved[h], s.objs[h]);
      var s1 := ReplaceExtents(s, h, extents, how).0;
      hide ReplaceExtents, Linked, Recoverable, DeletedMarked;
      if s.saved[h].extents == [] {
        RefusedMemory(s, h, extents, s1);
        MemoryKeeps(s, s1, h);
      } else if Inv(s1) {
        NoneSynced(s1, h);
      }
    }
  }

  lemma NoneSynced(s: State, h: Handle)
    requires Inv(s) && h < |s.objs| == |s.saved| && !s.objs[h].deleted && s.objs[h].synced == 0
    ensures s.saved[h].extents == []
  {
    assert Tracks(s.saved[h], s.objs[h]);
  }

  lemma RefusedState(s: State, h: Handle, extents: seq<Extent>, how: Persist)
    requires h < |s.objs| && |s.saved| == |s.objs| && !s.objs[h].deleted && Refused(s, h, extents, how)
    ensures ReplaceExtents(s, h, extents, how).0
            == s.(objs := s.objs[h := s.objs[h].(meta := s.objs[h].meta.(extents := extents), synced := 0)])
  {
    var s1 := s.(objs := s.objs[h := s.objs[h].(meta := s.objs[h].meta.(extents := extents), synced := 0)]);
    assert s1.objs[h := s1.objs[h]] == s1.objs;
    hide Persists, PersistRecord;
  }

  lemma RefusedMemory(s: State, h: Handle, extents: seq<Extent>, s1: State)
    requires Inv(s) && h < |s.objs| && |s.saved| == |s.objs| && !s.objs[h].deleted && s.saved[h].extents == []
    requires s1 == s.(objs := s.objs[h := s.objs[h].(meta := s.objs[h].meta.(extents := extents), synced := 0)])
    ensures MemoryOnly(s, s1, h)
  {
    hide Linked, Recoverable, DeletedMarked;
    assert Tracks(s.saved[h], s.objs[h]);
    LinksDistinct(s, h);
  }

  lemma RollStep(s: State, order: seq<Name>)
    requires Inv(s) && Walks(order, MemTable(s))
    ensures HandlesValid(MemTable(s)) && |s.saved| == |s.objs| && Inv(Roll(s, order))
  {
    hide Linked, Recoverable, DeletedMarked, Tracking, Roll;
    LinkedHandles(MemTable(s));
    RollInv(s, order);
  }

  /** The names after a mount are those before the crash, with the files as last persisted, and all of it is
      in order again. */
  lemma RemountStep(s: State)
    requires Inv(s)
    ensures Replay(s.log).Recovered? && Inv(Remounted(s))
    ensures SameTable(MemTable(Remounted(s)), SavedTable(s)) && Remounted(s).files.Keys == s.files.Keys
  {
    InvSane(s);
    RecoverableParts(s);
    var t, r := Replay(s.log).table, Remounted(s);
    hide Inv, Linked, Replay, Tracks, Live;
    assert Metas(r.objs) == t.metas;
    assert MemTable(r) == t == SavedTable(r);
    NextIdFound(EMPTY, s.log, false);
    LinkedHandles(t);
    RemountedMarked(t, r);
    forall h | 0 <= h < |r.objs| ensures Tracks(r.saved[h], r.objs[h]) {
      LoadedTracks(t.metas[h], r.objs[h].deleted);
    }
    SameSelf(t);
    InvIntro(r);
  }

  lemma SameSelf(t: Table)
    requires HandlesValid(t)
    ensures SameTable(t, t)
  {
  }

  lemma LoadedTracks(f: FileMeta, deleted: bool)
    ensures Tracks(f, FileState(f, |f.extents|, deleted))
  {
  }

  lemma LiveLinks(t: Table, h: Handle)
    requires Linked(t) && Live(t, h)
    ensures h < |t.metas| && t.metas[h].links != [] && forall n :: n in t.metas[h].links ==> n in t.files && t.files[n] == h
  {
    var n :| n in t.files && t.files[n] == h;
    assert n in File(t, n).links;
  }

  lemma RemountedMarked(t: Table, r: State)
    requires Linked(t) && MemTable(r) == t && |r.objs| == |t.metas|
    requires forall h :: 0 <= h < |t.metas| ==> r.objs[h].deleted == !Live(t, h) && r.objs[h].meta == t.metas[h]
    ensures HandlesValid(MemTable(r)) && DeletedMarked(r)
  {
    hide Linked;
    LinkedHandles(t);
    assert r.files == t.files;
    forall n | n in r.files ensures !r.objs[r.files[n]].deleted {
      assert Live(t, t.files[n]);
    }
    hide Live;
    forall h | 0 <= h < |r.objs| && !r.objs[h].deleted
      ensures r.objs[h].meta.links != [] && forall n :: n in r.objs[h].meta.links ==> n in r.files && r.files[n] == h
    {
      LiveLinks(t, h);
    }
  }

  /** Every operation keeps the invariant except in exactly the three cases that Safe shuts out. */
  lemma StepKeepsIff(s: State, op: Op)
    requires Inv(s) && Called(s, op)
    ensures Inv(Step(s, op)) <==> Safe(s, op)
  {
    InvSane(s);
    SaneParts(s);
    hide Inv, Create, Delete, Rename, Link, SyncMeta, ReplaceExtents, Write, Sane, Refused, Roll, Remounted;
    match op
    case CreateFile(name, sparse, mtime, howDelete, how) => CreateStep(s, name, sparse, mtime, howDelete, how);
    case DeleteName(name, how) => DeleteStep(s, name, how);
    case RenameName(src, dst, howDelete, mtime, how) => RenameStep(s, src, dst, howDelete, mtime, how);
    case LinkName(name, link, mtime, how) => LinkStep(s, name, link, mtime, how);
    case WriteFile(h, extents, size, lifetime, extentStart) => WriteKeeps(s, h, extents, size, lifetime, extentStart);
    case SyncFile(h, mtime, how) => SyncOp(s, h, mtime, how);
    case MigrateFile(h, extents, how) => MigrateStep(s, h, extents, how);
    case RollLog(order) => RollStep(s, order);
    case RefuseRoll => assert !Recoverable(s.(log := []));
    case Remount => RemountStep(s);
  }

  // ---------------------------------------------------------------------------------------------
  // Ids after a mount
  // ---------------------------------------------------------------------------------------------

  function NextIdIn(files: seq<FileMeta>): nat {
    if files == [] then 1 else AtLeast(files[0].id + 1, NextIdIn(files[1..]))
  }

  function NextIdBy(r: Record): nat {
    match r
    case Snapshot(files) => NextIdIn(files)
    case Update(f) => f.id + 1
    case Replace(f) => f.id + 1
    case _ => 1
  }

  /** The least id above all that the log mentions. */
  function NextIdOf(log: seq<Record>): nat {
    if log == [] then 1 else AtLeast(NextIdBy(log[0]), NextIdOf(log[1..]))
  }

  lemma {:induction false} NextIdSnapshot(t: Table, files: seq<FileMeta>)
    requires t.nextId >= 1
    ensures ReplaySnapshot(t, files).nextId == AtLeast(t.nextId, NextIdIn(files))
    decreases |files|
  {
    if files != [] {
      var t1 := Table(InsertNames(t.files, files[0].links, |t.metas|), t.metas + [files[0]], AtLeast(t.nextId, files[0].id + 1));
      NextIdSnapshot(t1, files[1..]);
    }
  }

  lemma NextIdRecord(t: Table, r: Record)
    requires t.nextId >= 1 && ReplayRecord(t, r).Ok?
    ensures ReplayRecord(t, r).value.nextId == AtLeast(t.nextId, NextIdBy(r))
  {
    if r.Snapshot? { NextIdSnapshot(Table(map[], [], t.nextId), r.files); }
    hide ReplaySnapshot, InsertNames, EraseNames, FindById, NextIdIn;
  }

  lemma {:induction false} NextIdFound(t: Table, log: seq<Record>, seen: bool)
    requires t.nextId >= 1 && ReplayFrom(t, log, seen).Recovered? && forall i :: 0 <= i < |log| ==> !log[i].End?
    ensures ReplayFrom(t, log, seen).table.nextId == AtLeast(t.nextId, NextIdOf(log)) >= 1
    decreases |log|
  {
    hide ReplayRecord, NextIdBy;
    if log != [] {
      NextIdRecord(t, log[0]);
      NextIdFound(ReplayRecord(t, log[0]).value, log[1..], seen || log[0].Snapshot?);
    }
  }

  /** A mount goes on with the least id above all that the current log mentions: an id it no longer mentions
      is given again. */
  lemma RemountedNextId(s: State)
    requires Inv(s)
    ensures Replay(s.log).Recovered? && Remounted(s).nextId == NextIdOf(s.log) <= s.nextId
  {
    RemountStep(s);
    InvSane(s);
    NextIdFound(EMPTY, s.log, false);
    hide Inv, Linked, Replay, NextIdOf;
  }

  /** With no file left, a roll and a mount start over from the first id, whatever was given before. */
  lemma IdsStartOver(s: State)
    requires Inv(s) && s.files == map[]
    ensures Called(s, RollLog([])) && Safe(s, RollLog([]))
    ensures Called(Roll(s, []), Remount) && Step(Step(s, RollLog([])), Remount).nextId == 1
  {
    var r := Roll(s, []);
    InvSane(s);
    RollStep(s, []);
    InvSane(r);
    RemountedNextId(r);
    assert r.log == [Snapshot([])];
    assert NextIdOf(r.log) == 1 by { assert r.log[1..] == []; }
    hide Inv, Linked, Replay;
  }

  // ---------------------------------------------------------------------------------------------
  // Ids that are gone
  // ---------------------------------------------------------------------------------------------

  /** The id has been given, and no file has it now. */
  predicate Gone(s: State, id: nat) {
    id < s.nextId && forall h :: 0 <= h < |s.objs| && !s.objs[h].deleted ==> s.objs[h].meta.id != id
  }

  /** What a step does to the objects there were: they keep their id and, once deleted, stay deleted. A
      new object takes the next id. */
  predicate Later(s: State, r: State) {
    && |s.objs| <= |r.objs| <= |s.objs| + 1 && s.nextId <= r.nextId
    && (forall h :: 0 <= h < |s.objs| ==> r.objs[h].meta.id == s.objs[h].meta.id)
    && (forall h :: 0 <= h < |s.objs| && s.objs[h].deleted ==> r.objs[h].deleted)
    && (|r.objs| == |s.objs| + 1 ==> r.objs[|s.objs|].meta.id == s.nextId && s.nextId < r.nextId)
  }

  lemma RollLater(s: State, order: seq<Name>)
    requires HandlesValid(MemTable(s)) && Walks(order, MemTable(s)) && |s.saved| == |s.objs|
    ensures Later(s, Roll(s, order)) && |Roll(s, order).objs| == |s.objs|
  {
    RolledFiles(s, order);
  }

  lemma SyncLater(s: State, h: Handle, replace: bool, mtime: U64, how: Persist)
    requires h < |s.objs| && |s.saved| == |s.objs| && s.objs[h].synced <= |s.objs[h].meta.extents|
    ensures Later(s, SyncMeta(s, h, replace, mtime, how).0) && |SyncMeta(s, h, replace, mtime, how).0.objs| == |s.objs|
  {
    if !s.objs[h].deleted {
      var o := if replace then s.objs[h] else s.objs[h].(meta := s.objs[h].meta.(mtime := mtime));
      var s1 := s.(objs := s.objs[h := o]);
      if Persists(s1, how) && how.Rolled? {
        RollLater(s1, how.order);
      }
      hide Roll, Walks, HandlesValid;
    }
  }

  lemma DeleteLater(s: State, name: Name, how: Persist)
    requires Sane(s)
    ensures Later(s, Delete(s, name, how).0) && |Delete(s, name, how).0.objs| == |s.objs|
  {
    if name in s.files && name in s.objs[s.files[name]].meta.links {
      DeleteCases(s, name, how);
      if Persists(Deleting(s, name), how) && how.Rolled? {
        RollLater(Deleting(s, name), how.order);
      }
    }
    hide Roll, Walks, HandlesValid, RemoveFirst;
  }

  lemma RenameToLater(s: State, h: Handle, src: Name, dst: Name, mtime: U64, how: Persist)
    requires h < |s.objs| && |s.saved| == |s.objs| && s.objs[h].synced <= |s.objs[h].meta.extents|
    ensures Later(s, RenameTo(s, h, src, dst, mtime, how).0) && |RenameTo(s, h, src, dst, mtime, how).0.objs| == |s.objs|
  {
    SyncLater(Renaming(s, h, src, dst), h, false, mtime, how);
    hide SyncMeta, RemoveFirst, InsertNames;
  }

  lemma CreateNewLater(s: State, name: Name, sparse: bool, mtime: U64, how: Persist)
    requires s.nextId < W64
    ensures Later(s, CreateNew(s, name, sparse, mtime, how).0)
  {
    var s1 := s.(nextId := s.nextId + 1);
    if Persists(s1, how) && how.Rolled? {
      RollLater(s1, how.order);
    }
    hide Roll, Walks, HandlesValid, InsertNames;
  }

  lemma LinkLater(s: State, name: Name, link: Name, mtime: U64, how: Persist)
    requires Sane(s)
    ensures Later(s, Link(s, name, link, mtime, how).0)
  {
    SaneParts(s);
    if link !in s.files && name in s.files {
      SyncLater(Linking(s, s.files[name], link), s.files[name], false, mtime, how);
    }
    hide SyncMeta, RemoveFirst, HandlesValid;
  }

  lemma LaterTrans(a: State, b: State, c: State)
    requires Later(a, b) && Later(b, c) && |b.objs| == |a.objs| && (a.nextId == b.nextId || |c.objs| == |b.objs|)
    ensures Later(a, c)
  {
  }

  lemma StepLater(s: State, op: Op)
    requires Inv(s) && Called(s, op) && !op.Remount?
    ensures Later(s, Step(s, op))
  {
    InvSane(s);
    SaneParts(s);
    hide Inv, Create, Delete, Rename, Link, SyncMeta, Write, Sane;
    match op
    case CreateFile(name, sparse, mtime, howDelete, how) =>
      DeleteKeepsNextId(s, name, howDelete);
      CreateCases(s, name, sparse, mtime, howDelete, how);
      DeleteLater(s, name, howDelete);
      var (s0, st) := Delete(s, name, howDelete);
      CreateNewLater(s0, name, sparse, mtime, how);
      CreateNewLater(s, name, sparse, mtime, how);
      if name in s.files && st == OK { LaterTrans(s, s0, CreateNew(s0, name, sparse, mtime, how).0); }
    case DeleteName(name, how) => DeleteLater(s, name, how);
    case RenameName(src, dst, howDelete, mtime, how) => RenameLater(s, src, dst, howDelete, mtime, how);
    case LinkName(name, link, mtime, how) => LinkLater(s, name, link, mtime, how);
    case WriteFile(h, extents, size, lifetime, extentStart) => WriteLater(s, h, extents, size, lifetime, extentStart);
    case SyncFile(h, mtime, how) => SyncLater(s, h, false, mtime, how);
    case MigrateFile(h, extents, how) => ReplaceLater(s, h, extents, how);
    case RollLog(order) => RollLater(s, order);
    case RefuseRoll =>
  }

  lemma WriteLater(s: State, h: Handle, extents: seq<Extent>, size: U64, lifetime: U32, extentStart: U64)
    requires h < |s.objs|
    ensures Later(s, Write(s, h, extents, size, lifetime, extentStart))
  {
  }

  lemma ReplaceLater(s: State, h: Handle, extents: seq<Extent>, how: Persist)
    requires h < |s.objs| && |s.saved| == |s.objs|
    ensures Later(s, ReplaceExtents(s, h, extents, how).0)
  {
    var o := s.objs[h].(meta := s.objs[h].meta.(extents := extents), synced := 0);
    SyncLater(s.(objs := s.objs[h := o]), h, true, 0, how);
    hide SyncMeta;
  }

  lemma RenameLater(s: State, src: Name, dst: Name, howDelete: Persist, mtime: U64, how: Persist)
    requires Inv(s) && Sane(s)
    ensures Later(s, Rename(s, src, dst, howDelete, mtime, how).0)
  {
    SaneParts(s);
    hide *;
    RenameUnknown(s, src, dst, howDelete, mtime, how);
    LaterRefl(s);
    if src == dst && src in s.files {
      DeleteLater(s, src, howDelete);
      if Delete(s, src, howDelete).1 == OK { SelfStep(s, src, howDelete, mtime, how); }
    } else if src in s.files {
      NamedLive(s, src);
      RenameCases(s, src, dst, howDelete, mtime, how);
      if dst in s.files {
        DeleteLater(s, dst, howDelete);
        DeleteStep(s, dst, howDelete);
        DeleteKeepsNextId(s, dst, howDelete);
        var (s0, st) := Delete(s, dst, howDelete);
        if st == OK {
          InvSane(s0);
          SaneParts(s0);
          RenameToLater(s0, s.files[src], src, dst, mtime, how);
          LaterTrans(s, s0, RenameTo(s0, s.files[src], src, dst, mtime, how).0);
        }
      } else {
        RenameToLater(s, s.files[src], src, dst, mtime, how);
      }
    }
  }

  lemma LaterRefl(s: State)
    ensures Later(s, s)
  {
  }

  lemma LaterGone(s: State, r: State, id: nat)
    requires Gone(s, id) && Later(s, r)
    ensures Gone(r, id)
  {
  }

  // ---------------------------------------------------------------------------------------------
  // Runs
  // ---------------------------------------------------------------------------------------------

  ghost predicate AllFine(s: State, ops: seq<Op>)
    decreases |ops|
  {
    ops == [] || (Fine(s, ops[0]) && AllFine(Step(s, ops[0]), ops[1..]))
  }

  ghost function Run(s: State, ops: seq<Op>): State
    requires AllFine(s, ops)
    decreases |ops|
  {
    if ops == [] then s else Run(Step(s, ops[0]), ops[1..])
  }

  /** At the end of every run, and so at every point of it: the two indices of the name table agree, and a
      crash is recovered to the table as last persisted, with the same sharing of files by names. */
  lemma {:induction false} RunRecoverable(s: State, ops: seq<Op>)
    requires Inv(s) && AllFine(s, ops)
    ensures Inv(Run(s, ops))
    decreases |ops|
  {
    hide Inv, Called, Safe, Step;
    if ops != [] {
      StepKeepsIff(s, ops[0]);
      RunRecoverable(Step(s, ops[0]), ops[1..]);
    }
  }

  /** A persisted delete makes the id of the file one that is gone if and only if it takes the last name. */
  lemma DeletedGone(s: State, name: Name, how: Persist)
    requires Inv(s) && name in s.files && Persists(Deleting(s, name), how)
    ensures s.files[name] < |s.objs| && Sane(s)
    ensures var o := s.objs[s.files[name]];
            Gone(Delete(s, name, how).0, o.meta.id) <==> o.meta.links == [name]
  {
    InvSane(s);
    NamedLive(s, name);
    var h, r := s.files[name], Delete(s, name, how).0;
    var id := s.objs[h].meta.id;
    LastName(s, name);
    DeletedObjects(s, name, how);
    forall k | 0 <= k < |s.objs| && k != h && !s.objs[k].deleted ensures s.objs[k].meta.id != id {
      LiveIds(s, h, k);
    }
    LiveIds(s, h, h);
    hide Inv, Delete, Deleting, Persists;
  }

  /** Without a name, the object has no name left: the name was the last one. */
  lemma LastName(s: State, name: Name)
    requires Inv(s) && name in s.files && s.files[name] < |s.objs| && !s.objs[s.files[name]].deleted
    ensures var links := s.objs[s.files[name]].meta.links; RemoveFirst(links, name) == [] <==> links == [name]
  {
    NamedLive(s, name);
  }

  /** The objects after a delete: one may be marked deleted. */
  predicate Taken(s: State, r: State, h: Handle, last: bool) {
    && h < |s.objs| == |r.objs| && r.nextId == s.nextId
    && (forall k :: 0 <= k < |s.objs| ==> r.objs[k].meta.id == s.objs[k].meta.id)
    && (forall k :: 0 <= k < |s.objs| && k != h ==> r.objs[k].deleted == s.objs[k].deleted)
    && r.objs[h].deleted == (s.objs[h].deleted || last)
  }

  lemma DeletedObjects(s: State, name: Name, how: Persist)
    requires Inv(s) && name in s.files && Persists(Deleting(s, name), how) && Sane(s) && s.files[name] < |s.objs|
    ensures Taken(s, Delete(s, name, how).0, s.files[name], RemoveFirst(s.objs[s.files[name]].meta.links, name) == [])
  {
    hide *;
    NamedLive(s, name);
    SaneParts(s);
    DeleteCases(s, name, how);
    PersistsCases(Deleting(s, name), how);
    if how.Rolled? {
      DeletedRolled(s, name, how.order);
    } else {
      DeletedPlain(s, name);
    }
  }

  lemma DeletedRolled(s: State, name: Name, order: seq<Name>)
    requires name in s.files && s.files[name] < |s.objs|
    requires var s1 := Deleting(s, name);
      HandlesValid(MemTable(s1)) && Walks(order, MemTable(s1)) && |s1.saved| == |s1.objs|
    ensures Taken(s, MarkDeleted(Roll(Deleting(s, name), order), s.files[name]), s.files[name],
                  RemoveFirst(s.objs[s.files[name]].meta.links, name) == [])
  {
    hide Roll, Walks, RemoveFirst, HandlesValid, MarkDeleted, Taken;
    RolledFiles(Deleting(s, name), order);
    MarkedObjects(s, name, Roll(Deleting(s, name), order), s.files[name]);
  }

  lemma DeletedPlain(s: State, name: Name)
    requires name in s.files && s.files[name] < |s.objs| == |s.saved|
    ensures |MarkDeleted(Deleting(s, name), s.files[name]).objs| == |s.saved|
    ensures Taken(s, DeletedSaved(MarkDeleted(Deleting(s, name), s.files[name]), s.files[name], name), s.files[name],
                  RemoveFirst(s.objs[s.files[name]].meta.links, name) == [])
  {
    hide RemoveFirst, Taken;
    var h := s.files[name];
    MarkedObjects(s, name, Deleting(s, name), h);
    SavedAside(s, MarkDeleted(Deleting(s, name), h), h, name);
  }

  lemma SavedAside(s: State, r: State, h: Handle, name: Name)
    requires h < |r.objs| == |r.saved| && h < |s.objs|
    ensures forall last :: Taken(s, r, h, last) ==> Taken(s, DeletedSaved(r, h, name), h, last)
  {
  }

  lemma MarkedObjects(s: State, name: Name, s1: State, h: Handle)
    requires name in s.files && s.files[name] == h < |s.objs| == |s1.objs| && s1.nextId == s.nextId
    requires forall k :: 0 <= k < |s.objs| ==>
      s1.objs[k].meta == Deleting(s, name).objs[k].meta && s1.objs[k].deleted == s.objs[k].deleted
    ensures Taken(s, MarkDeleted(s1, h), h, RemoveFirst(s.objs[h].meta.links, name) == [])
  {
    hide RemoveFirst;
  }

  /** Ids of live objects are below the next one, and no two are the same. */
  lemma LiveIds(s: State, h: Handle, k: Handle)
    requires Inv(s) && h < |s.objs| && k < |s.objs| && !s.objs[h].deleted && !s.objs[k].deleted
    ensures s.objs[h].meta.id < s.nextId
    ensures h != k ==> s.objs[h].meta.id != s.objs[k].meta.id
  {
    var t := MemTable(s);
    var n, m := s.objs[h].meta.links[0], s.objs[k].meta.links[0];
    assert n in s.objs[h].meta.links && m in s.objs[k].meta.links;
    assert n in t.files && m in t.files && t.files[n] == h && t.files[m] == k;
    assert File(t, n).id == s.objs[h].meta.id && File(t, m).id == s.objs[k].meta.id;
  }

  /** An id that is gone stays gone for the rest of the run, up to a mount. */
  lemma {:induction false} RunKeepsGone(s: State, ops: seq<Op>, id: nat)
    requires Inv(s) && AllFine(s, ops) && Remount !in ops && Gone(s, id)
    ensures Inv(Run(s, ops)) && Gone(Run(s, ops), id)
    decreases |ops|
  {
    hide Inv, Called, Safe, Step, Gone;
    if ops != [] {
      StepKeepsIff(s, ops[0]);
      StepLater(s, ops[0]);
      LaterGone(s, Step(s, ops[0]), id);
      RunKeepsGone(Step(s, ops[0]), ops[1..], id);
    }
  }

  /** So no crash at any later point brings the id back, until the file system is mounted again. The run may
      begin anywhere, behind a mount too. */
  lemma DeletedNeverRecovered(s: State, ops: seq<Op>, id: nat)
    requires Inv(s) && AllFine(s, ops) && Remount !in ops && Gone(s, id)
    ensures var r := Replay(Run(s, ops).log);
            && r.Recovered? && HandlesValid(r.table)
            && forall n :: n in r.table.files ==> File(r.table, n).id != id
  {
    RunKeepsGone(s, ops, id);
    var r := Run(s, ops);
    InvSane(r);
    RecoverableParts(r);
    var t := Replay(r.log).table;
    hide Replay, Linked, Run, AllFine;
    forall n | n in t.files ensures File(t, n).id != id {
      assert n in r.files && File(t, n) == File(SavedTable(r), n);
      var k := r.files[n];
      assert !r.objs[k].deleted;
      assert Tracks(r.saved[k], r.objs[k]);
    }
  }
}
