/** The operations of AquaZFS/fs/fs_aquafs.cc that change the name table and persist the change:
    create, delete, rename, link, metadata sync and extent replacement, over all runs. The state keeps
    the in-memory files, the records of the current metadata zone, and what was last persisted of every
    file object. */
module FileOps {
  import opened Coding
  import opened FileCodec
  import opened FileTable

  /** A ZoneFile object: its metadata, `nr_synced_extents_` and `is_deleted_`. */
  datatype FileState = FileState(meta: FileMeta, synced: nat, deleted: bool)

  datatype State = State(
    files: map<Name, Handle>,
    objs: seq<FileState>,
    nextId: nat,
    log: seq<Record>,
    saved: seq<FileMeta>)

  /** How persisting a record ended: appended to the current zone; the zone was full and the log rolled,
      writing a snapshot in the order `order` instead; or an error. */
  datatype Persist = Appended | Rolled(order: seq<Name>) | Failed

  datatype Status = OK | IOError | InvalidArgument | AuxFs

  function Metas(objs: seq<FileState>): (ms: seq<FileMeta>)
    ensures |ms| == |objs|
    ensures forall h :: 0 <= h < |objs| ==> ms[h] == objs[h].meta
  {
    seq(|objs|, h requires 0 <= h < |objs| => objs[h].meta)
  }

  /** The table in memory, and the table as last persisted. */
  function MemTable(s: State): Table { Table(s.files, Metas(s.objs), s.nextId) }

  function SavedTable(s: State): Table { Table(s.files, s.saved, s.nextId) }

  /** Handles lead to objects, and sync counts stay within the extent lists. */
  ghost predicate Sane(s: State) {
    && |s.saved| == |s.objs|
    && HandlesValid(MemTable(s))
    && forall h :: 0 <= h < |s.objs| ==> s.objs[h].synced <= |s.objs[h].meta.extents|
  }

  // ---------------------------------------------------------------------------------------------
  // Persisting
  // ---------------------------------------------------------------------------------------------

  predicate HasName(s: State, h: Handle) { exists n :: n in s.files && s.files[n] == h }

  /** RollMetaZoneLocked as far as the table goes: the snapshot is the whole log and every named file is
      marked synced. */
  function Roll(s: State, order: seq<Name>): State
    requires HandlesValid(MemTable(s)) && Walks(order, MemTable(s)) && |s.saved| == |s.objs|
  {
    s.(log := [Snapshot(SnapshotFiles(MemTable(s), order))],
       objs := seq(|s.objs|, h requires 0 <= h < |s.objs| =>
                 if HasName(s, h) then s.objs[h].(synced := |s.objs[h].meta.extents|) else s.objs[h]),
       saved := seq(|s.saved|, h requires 0 <= h < |s.saved| =>
                  if HasName(s, h) then s.objs[h].meta else s.saved[h]))
  }

  ghost predicate Persists(s: State, how: Persist) {
    how.Appended? || (how.Rolled? && HandlesValid(MemTable(s)) && Walks(how.order, MemTable(s)) && |s.saved| == |s.objs|)
  }

  lemma PersistsCases(s: State, how: Persist)
    requires Persists(s, how)
    ensures how.Appended? || (how.Rolled? && HandlesValid(MemTable(s)) && Walks(how.order, MemTable(s)) && |s.saved| == |s.objs|)
  {
  }

  /** PersistRecord. After a roll the record itself is not written: the snapshot contains the change. */
  ghost function PersistRecord(s: State, r: Record, how: Persist): State
    requires Persists(s, how)
  {
    if how.Appended? then s.(log := s.log + [r]) else Roll(s, how.order)
  }

  /** EncodeUpdateTo: the metadata with the extents not yet synced. */
  function UpdateOf(o: FileState): FileMeta
    requires o.synced <= |o.meta.extents|
  {
    o.meta.(extents := o.meta.extents[o.synced..])
  }

  /** SyncFileMetadataNoLock. */
  ghost function SyncMeta(s: State, h: Handle, replace: bool, mtime: U64, how: Persist): (State, Status)
    requires h < |s.objs| && |s.saved| == |s.objs| && s.objs[h].synced <= |s.objs[h].meta.extents|
  {
    if s.objs[h].deleted then (s, OK)
    else
      var o := if replace then s.objs[h] else s.objs[h].(meta := s.objs[h].meta.(mtime := mtime));
      var s1 := s.(objs := s.objs[h := o]);
      if !Persists(s1, how) then (s1, IOError)
      else
        var u := UpdateOf(o);
        var s2 := PersistRecord(s1, if replace then Replace(u) else Update(u), how);
        (s2.(objs := s2.objs[h := o.(synced := |o.meta.extents|)], saved := s2.saved[h := o.meta]), OK)
  }

  // ---------------------------------------------------------------------------------------------
  // The operations
  // ---------------------------------------------------------------------------------------------

  function WithLinks(o: FileState, links: seq<Name>): FileState {
    o.(meta := o.meta.(links := links))
  }

  /** DeleteFileNoLock. */
  ghost function Delete(s: State, name: Name, how: Persist): (State, Status)
    requires Sane(s)
  {
    if name !in s.files then (s, AuxFs)
    else
      var h := s.files[name];
      var o := s.objs[h];
      var s1 := s.(files := s.files - {name});
      if name !in o.meta.links then (s1, IOError)
      else
        var links := RemoveFirst(o.meta.links, name);
        var s2 := s1.(objs := s.objs[h := WithLinks(o, links)]);
        if !Persists(s2, how) then
          (s2.(files := s2.files[name := h], objs := s.objs[h := WithLinks(o, links + [name])]), IOError)
        else
          var s3 := PersistRecord(s2, Deletion(o.meta.id, name), how);
          var s4 := if how.Appended? then s3.(saved := s3.saved[h := s3.saved[h].(links := RemoveFirst(s3.saved[h].links, name))]) else s3;
          (if links == [] then s4.(objs := s4.objs[h := s4.objs[h].(deleted := true)]) else s4, OK)
  }

  /** RenameFileNoLock, for a source that the file system knows. */
  ghost function Rename(s: State, src: Name, dst: Name, howDelete: Persist, mtime: U64, how: Persist): (State, Status)
    requires Sane(s)
  {
    if src !in s.files then (s, AuxFs)
    else
      var h := s.files[src];
      var (s0, st) := if dst in s.files then Delete(s, dst, howDelete) else (s, OK);
      if st != OK then (s0, st)
      else RenameTo(s0, h, src, dst, mtime, how)
  }

  /** The second half of RenameFileNoLock: RenameLink, move the map entry, persist, or roll it all back. */
  ghost function RenameTo(s: State, h: Handle, src: Name, dst: Name, mtime: U64, how: Persist): (State, Status)
    requires h < |s.objs| && |s.saved| == |s.objs| && s.objs[h].synced <= |s.objs[h].meta.extents|
  {
    var links := s.objs[h].meta.links;
    if src !in links then (s, IOError)
    else
      var links1 := RemoveFirst(links, src) + [dst];
      var s1 := s.(files := InsertNames(s.files - {src}, [dst], h), objs := s.objs[h := WithLinks(s.objs[h], links1)]);
      var (s2, st) := SyncMeta(s1, h, false, mtime, how);
      if st == OK then (s2, OK)
      else
        (s2.(files := InsertNames(s2.files - {dst}, [src], h),
             objs := s2.objs[h := WithLinks(s2.objs[h], RemoveFirst(links1, dst) + [src])]), st)
  }

  /** LinkFile, for a source that the file system knows. */
  ghost function Link(s: State, name: Name, link: Name, mtime: U64, how: Persist): (State, Status)
    requires Sane(s)
  {
    if link in s.files then (s, InvalidArgument)
    else if name !in s.files then (s, AuxFs)
    else
      var h := s.files[name];
      var links := s.objs[h].meta.links + [link];
      var s1 := s.(files := s.files[link := h], objs := s.objs[h := WithLinks(s.objs[h], links)]);
      var (s2, st) := SyncMeta(s1, h, false, mtime, how);
      if st == OK then (s2, OK)
      else (s2.(files := s2.files - {link}, objs := s2.objs[h := WithLinks(s2.objs[h], RemoveFirst(links, link))]), st)
  }

  /** OpenWritableFile without reopen: an existing file is deleted first; the new object gets its name in
      the table only after its record has been persisted. Ids are 64-bit. */
  ghost function Create(s: State, name: Name, sparse: bool, howDelete: Persist, mtime: U64, how: Persist): (State, Status)
    requires Sane(s) && s.nextId < W64
  {
    var (s0, st) := if name in s.files then Delete(s, name, howDelete) else (s, OK);
    if st != OK then (s0, st) else CreateNew(s0, name, sparse, mtime, how)
  }

  function NewObject(id: U64, name: Name, sparse: bool, mtime: U64): FileState {
    FileState(NewFile(id).(links := [name], sparse := sparse, mtime := mtime), 0, false)
  }

  ghost function CreateNew(s: State, name: Name, sparse: bool, mtime: U64, how: Persist): (State, Status)
    requires s.nextId < W64
  {
    var o := NewObject(s.nextId, name, sparse, mtime);
    var s1 := s.(nextId := s.nextId + 1);
    if !Persists(s1, how) then (s1, IOError)
    else
      var s2 := PersistRecord(s1, Update(UpdateOf(o)), how);
      (s2.(files := InsertNames(s2.files, [name], |s2.objs|), objs := s2.objs + [o], saved := s2.saved + [o.meta]), OK)
  }

  /** What writing does to a file object in memory, before any sync: extents are appended, size, hint and
      active extent start change. */
  function Write(s: State, h: Handle, extents: seq<Extent>, size: U64, lifetime: U32, extentStart: U64): State
    requires h < |s.objs|
  {
    var m := s.objs[h].meta;
    s.(objs := s.objs[h := s.objs[h].(meta := m.(extents := m.extents + extents, size := size, lifetime := lifetime,
                                               extentStart := extentStart))])
  }

  /** SyncFileExtents: the extent list is swapped, everything counts as unsynced, and a replace record is
      persisted. */
  ghost function ReplaceExtents(s: State, h: Handle, extents: seq<Extent>, how: Persist): (State, Status)
    requires h < |s.objs| && |s.saved| == |s.objs|
  {
    var o := s.objs[h].(meta := s.objs[h].meta.(extents := extents), synced := 0);
    SyncMeta(s.(objs := s.objs[h := o]), h, true, 0, how)
  }

  // ---------------------------------------------------------------------------------------------
  // The invariant
  // ---------------------------------------------------------------------------------------------

  ghost predicate SameNames(a: seq<Name>, b: seq<Name>) {
    forall n :: n in a <==> n in b
  }

  /** What is persisted of an object follows its memory: same file, same names up to order, and of its
      extents exactly those counted as synced. */
  ghost predicate Tracks(f: FileMeta, o: FileState) {
    && f.id == o.meta.id && SameNames(f.links, o.meta.links)
    && o.synced <= |o.meta.extents| && f.extents == o.meta.extents[..o.synced]
  }

  /** An object is marked deleted exactly when no name leads to it. */
  ghost predicate DeletedMarked(s: State)
    requires HandlesValid(MemTable(s))
  {
    && (forall n :: n in s.files ==> !s.objs[s.files[n]].deleted)
    && (forall h :: 0 <= h < |s.objs| && !s.objs[h].deleted ==>
          s.objs[h].meta.links != [] && forall n :: n in s.objs[h].meta.links ==> n in s.files && s.files[n] == h)
  }

  ghost predicate Tracking(s: State) {
    |s.saved| == |s.objs| && forall h :: 0 <= h < |s.objs| && !s.objs[h].deleted ==> Tracks(s.saved[h], s.objs[h])
  }

  /** A crash now is recovered to the saved table. */
  ghost predicate Recoverable(s: State) {
    && (forall i :: 0 <= i < |s.log| ==> !s.log[i].End?)
    && Replay(s.log).Recovered?
    && Linked(Replay(s.log).table)
    && SameTable(Replay(s.log).table, SavedTable(s))
  }

  ghost predicate Inv(s: State) {
    && Sane(s) && s.nextId >= 1
    && Linked(MemTable(s)) && Linked(SavedTable(s))
    && DeletedMarked(s) && Tracking(s)
    && Recoverable(s)
  }

  lemma InvSane(s: State)
    requires Inv(s)
    ensures Sane(s) && DeletedMarked(s) && Tracking(s) && Linked(MemTable(s)) && Linked(SavedTable(s)) && Recoverable(s)
  {
  }

  lemma InvIntro(s: State)
    requires Sane(s) && s.nextId >= 1 && DeletedMarked(s) && Tracking(s)
    requires Linked(MemTable(s)) && Linked(SavedTable(s)) && Recoverable(s)
    ensures Inv(s)
  {
  }

  /** A freshly formatted file system. */
  const FORMATTED: State := State(map[], [], 1, [Snapshot([])], [])

  lemma FormattedInv()
    ensures Inv(FORMATTED)
  {
    var log := FORMATTED.log;
    assert log[1..] == [];
    assert ReplayRecord(EMPTY, log[0]) == Ok(EMPTY);
    assert ReplayFrom(EMPTY, log, false) == ReplayFrom(EMPTY, [], true);
    assert Metas([]) == [];
  }

  // ---------------------------------------------------------------------------------------------
  // Persisting keeps the invariant
  // ---------------------------------------------------------------------------------------------

  /** Only the file under each name matters. */
  lemma LinkedByFiles(t: Table, s: Table)
    requires Linked(s) && HandlesValid(t) && t.files == s.files && t.nextId == s.nextId
    requires forall n :: n in s.files ==> File(t, n) == File(s, n)
    ensures Linked(t)
  {
  }

  lemma SameTableTrans(r: Table, t: Table, s: Table)
    requires SameTable(r, t) && HandlesValid(s) && s.files.Keys == t.files.Keys && t.nextId <= s.nextId
    requires forall n :: n in s.files ==> n in t.files && File(s, n) == File(t, n)
    ensures SameTable(r, s)
  {
    forall n | n in s.files ensures n in r.files && File(r, n) == File(s, n) {
      assert File(r, n) == File(t, n);
    }
  }

  lemma ReplaySnapshotLog(files: seq<FileMeta>)
    ensures ReplayRecord(EMPTY, Snapshot(files)).Ok?
    ensures Replay([Snapshot(files)]) == Recovered(ReplayRecord(EMPTY, Snapshot(files)).value)
  {
    var log := [Snapshot(files)];
    assert log[1..] == [];
    assert ReplayFrom(ReplayRecord(EMPTY, log[0]).value, [], true) == Recovered(ReplayRecord(EMPTY, log[0]).value);
  }

  /** A roll makes the memory the persisted state, whatever was persisted before. */
  lemma RollInv(s: State, order: seq<Name>)
    requires |s.saved| == |s.objs| && Linked(MemTable(s)) && DeletedMarked(s) && Walks(order, MemTable(s))
    requires s.nextId >= 1
    requires forall h :: 0 <= h < |s.objs| ==> s.objs[h].synced <= |s.objs[h].meta.extents|
    ensures Inv(Roll(s, order))
  {
    var r := Roll(s, order);
    var files := SnapshotFiles(MemTable(s), order);
    SnapshotMirrors(EMPTY, MemTable(s), order);
    ReplaySnapshotLog(files);
    RolledFiles(s, order);
    LinkedByFiles(MemTable(r), MemTable(s));
    LinkedByFiles(SavedTable(r), MemTable(s));
    SameTableTrans(Replay(r.log).table, MemTable(s), SavedTable(r));
    RolledTracking(s, order);
  }

  lemma RolledFiles(s: State, order: seq<Name>)
    requires |s.saved| == |s.objs| && HandlesValid(MemTable(s)) && Walks(order, MemTable(s))
    ensures var r := Roll(s, order);
            && HandlesValid(MemTable(r)) && HandlesValid(SavedTable(r)) && r.files == s.files && r.nextId == s.nextId
            && |r.objs| == |r.saved| == |s.objs|
            && (forall h :: 0 <= h < |s.objs| ==> r.objs[h].meta == s.objs[h].meta && r.objs[h].deleted == s.objs[h].deleted)
            && (forall n :: n in s.files ==> File(MemTable(r), n) == File(MemTable(s), n))
            && (forall n :: n in s.files ==> File(SavedTable(r), n) == File(MemTable(s), n))
  {
    var r := Roll(s, order);
    forall n | n in s.files ensures File(SavedTable(r), n) == File(MemTable(s), n) {
      assert HasName(s, s.files[n]);
    }
  }

  lemma RolledTracking(s: State, order: seq<Name>)
    requires |s.saved| == |s.objs| && HandlesValid(MemTable(s)) && DeletedMarked(s) && Walks(order, MemTable(s))
    requires forall h :: 0 <= h < |s.objs| ==> s.objs[h].synced <= |s.objs[h].meta.extents|
    ensures var r := Roll(s, order);
            && HandlesValid(MemTable(r)) && Tracking(r) && DeletedMarked(r)
            && forall h :: 0 <= h < |r.objs| ==> r.objs[h].synced <= |r.objs[h].meta.extents|
  {
    var r := Roll(s, order);
    forall h | 0 <= h < |s.objs| && !r.objs[h].deleted ensures Tracks(r.saved[h], r.objs[h]) {
      var n := s.objs[h].meta.links[0];
      assert n in s.objs[h].meta.links;
      assert HasName(s, h);
      var m := s.objs[h].meta;
      assert m.extents[..|m.extents|] == m.extents;
    }
  }

  /** Appending a record whose replay mirrors the step from one saved table to the next. */
  lemma AppendRecoverable(s: State, r: Record, s': State)
    requires Recoverable(s) && !r.End? && s'.log == s.log + [r]
    requires ReplayRecord(Replay(s.log).table, r).Ok?
    requires Linked(ReplayRecord(Replay(s.log).table, r).value)
    requires SameTable(ReplayRecord(Replay(s.log).table, r).value, SavedTable(s'))
    ensures Recoverable(s')
  {
    ReplayFromAppend(EMPTY, s.log, r, false);
  }

  // ---------------------------------------------------------------------------------------------
  // Metadata syncs
  // ---------------------------------------------------------------------------------------------

  /** Object `h` has changed in memory, with its names, and nothing of it is persisted yet. A replace
      record carries all extents, an update record those not yet synced. */
  ghost predicate Pending(s: State, s1: State, h: Handle, replace: bool) {
    && h < |s.objs| && |s1.objs| == |s.objs| && |s.saved| == |s.objs| && HandlesValid(MemTable(s))
    && !s.objs[h].deleted && !s1.objs[h].deleted
    && s1.saved == s.saved && s1.log == s.log && s1.nextId == s.nextId
    && s1.objs == s.objs[h := s1.objs[h]]
    && s1.files == Retarget(MemTable(s), h, s1.objs[h].meta).files
    && s1.objs[h].meta.id == s.objs[h].meta.id
    && s1.objs[h].meta.links != [] && Available(MemTable(s), h, s1.objs[h].meta.links)
    && s1.objs[h].synced <= |s1.objs[h].meta.extents|
    && s.objs[h].synced <= |s.objs[h].meta.extents|
    && (if replace then s1.objs[h].synced == 0
        else s1.objs[h].synced == s.objs[h].synced &&
             s1.objs[h].meta.extents[..s.objs[h].synced] == s.objs[h].meta.extents[..s.objs[h].synced])
  }

  lemma PendingMem(s: State, s1: State, h: Handle, replace: bool)
    requires Inv(s) && Pending(s, s1, h, replace)
    ensures MemTable(s1) == Retarget(MemTable(s), h, s1.objs[h].meta)
    ensures Linked(MemTable(s1))
  {
    var m := s1.objs[h].meta;
    assert Metas(s1.objs) == Metas(s.objs)[h := m];
    var n := s.objs[h].meta.links[0];
    assert n in s.objs[h].meta.links;
    assert s.files[n] == h && File(MemTable(s), n).id == m.id;
    hide Retarget, Pending;
    RetargetLinked(MemTable(s), h, m);
  }

  /** The deleted mark stays right when a live object changes its names. */
  lemma RetargetMarked(s: State, s1: State, h: Handle)
    requires HandlesValid(MemTable(s)) && DeletedMarked(s)
    requires h < |s.objs| == |s1.objs| && s1.objs == s.objs[h := s1.objs[h]] && !s1.objs[h].deleted
    requires s1.objs[h].meta.links != [] && Available(MemTable(s), h, s1.objs[h].meta.links)
    requires s1.files == Retarget(MemTable(s), h, s1.objs[h].meta).files
    ensures HandlesValid(MemTable(s1)) && DeletedMarked(s1)
  {
    var m := s1.objs[h].meta;
    RetargetAt(MemTable(s), h, m);
    assert HandlesValid(MemTable(s1));
    hide Retarget, HandlesValid;
    forall k | 0 <= k < |s1.objs| && !s1.objs[k].deleted
      ensures s1.objs[k].meta.links != [] && forall n :: n in s1.objs[k].meta.links ==> n in s1.files && s1.files[n] == k
    {
      if k != h {
        forall n | n in s1.objs[k].meta.links ensures n in s1.files && s1.files[n] == k {
          assert n in s.files && s.files[n] == k;
        }
      }
    }
  }

  /** What a commit of the pending change leaves in memory. */
  function Committed(s1: State, h: Handle): State
    requires h < |s1.objs| == |s1.saved|
  {
    var o := s1.objs[h];
    s1.(objs := s1.objs[h := o.(synced := |o.meta.extents|)], saved := s1.saved[h := o.meta])
  }

  /** The pending change appended to the log as a record. */
  lemma CommitAppended(s: State, s1: State, h: Handle, replace: bool)
    requires Inv(s) && Pending(s, s1, h, replace)
    ensures var u := UpdateOf(s1.objs[h]);
            Inv(Committed(s1, h).(log := s1.log + [if replace then Replace(u) else Update(u)]))
  {
    var u := UpdateOf(s1.objs[h]);
    var r := Committed(s1, h).(log := s1.log + [if replace then Replace(u) else Update(u)]);
    PendingMem(s, s1, h, replace);
    RetargetMarked(s, s1, h);
    CommittedTables(s1, h, r);
    CommitRecoverable(s, s1, h, replace);
    CommittedTracking(s, s1, h);
    hide Linked, Recoverable, DeletedMarked, Tracks, Retarget;
  }

  lemma CommitRecoverable(s: State, s1: State, h: Handle, replace: bool)
    requires Inv(s) && Pending(s, s1, h, replace)
    ensures var u := UpdateOf(s1.objs[h]);
            var r := Committed(s1, h).(log := s1.log + [if replace then Replace(u) else Update(u)]);
            Linked(SavedTable(r)) && Recoverable(r)
  {
    var u := UpdateOf(s1.objs[h]);
    var rec := if replace then Replace(u) else Update(u);
    var r := Committed(s1, h).(log := s1.log + [rec]);
    CommitSaved(s, s1, h, replace);
    var n := s.objs[h].meta.links[0];
    assert n in s.objs[h].meta.links && n in s.files && s.files[n] == h;
    assert Tracks(s.saved[h], s.objs[h]);
    assert SavedTable(r) == SavedTable(Committed(s1, h));
    hide Linked, Retarget, DeletedMarked, Tracks, Merge;
    CommitMirrors(s, s1, h, n, u, replace);
    AppendRecoverable(s, rec, r);
  }

  lemma CommitMirrors(s: State, s1: State, h: Handle, n: Name, u: FileMeta, replace: bool)
    requires Linked(SavedTable(s)) && Recoverable(s) && n in s.files && s.files[n] == h
    requires u.id == File(SavedTable(s), n).id && Available(SavedTable(s), h, u.links)
    requires h < |s1.objs| == |s1.saved|
    requires SavedTable(Committed(s1, h)) == Retarget(SavedTable(s), h, Merge(File(SavedTable(s), n), u, replace))
    ensures var rec := if replace then Replace(u) else Update(u);
            && ReplayRecord(Replay(s.log).table, rec).Ok?
            && Linked(ReplayRecord(Replay(s.log).table, rec).value)
            && SameTable(ReplayRecord(Replay(s.log).table, rec).value, SavedTable(Committed(s1, h)))
            && Linked(SavedTable(Committed(s1, h)))
  {
    UpdateMirrors(Replay(s.log).table, SavedTable(s), n, u, replace);
  }

  /** The committed state differs from the pending one in the sync count and the saved metadata only. */
  lemma CommittedTables(s1: State, h: Handle, r: State)
    requires h < |s1.objs| == |s1.saved| && HandlesValid(MemTable(s1)) && DeletedMarked(s1)
    requires r == Committed(s1, h).(log := r.log)
    ensures MemTable(r) == MemTable(s1)
    ensures HandlesValid(MemTable(r)) && DeletedMarked(r)
  {
    assert Metas(r.objs) == Metas(s1.objs);
  }

  lemma CommitSaved(s: State, s1: State, h: Handle, replace: bool)
    requires Inv(s) && Pending(s, s1, h, replace)
    ensures SavedTable(Committed(s1, h)) == Retarget(SavedTable(s), h, s1.objs[h].meta)
    ensures Merge(s.saved[h], UpdateOf(s1.objs[h]), replace) == s1.objs[h].meta
    ensures Available(SavedTable(s), h, s1.objs[h].meta.links)
  {
    var o := s1.objs[h];
    assert Tracks(s.saved[h], s.objs[h]);
    assert o.meta.extents[..o.synced] + o.meta.extents[o.synced..] == o.meta.extents;
    if replace {
      assert [] + o.meta.extents[0..] == o.meta.extents;
    }
  }

  lemma CommittedTracking(s: State, s1: State, h: Handle)
    requires Tracking(s) && h < |s.objs| && |s1.objs| == |s.objs| && s1.saved == s.saved
    requires s1.objs == s.objs[h := s1.objs[h]]
    ensures Tracking(Committed(s1, h))
  {
    var o := s1.objs[h];
    assert o.meta.extents[..|o.meta.extents|] == o.meta.extents;
    var r := Committed(s1, h);
    forall k | 0 <= k < |r.objs| && !r.objs[k].deleted ensures Tracks(r.saved[k], r.objs[k]) {
      if k != h {
        assert Tracks(s.saved[k], s.objs[k]);
      }
    }
  }

  /** The pending change with the modification time that SyncFileMetadataNoLock gives it. */
  function Stamped(s1: State, h: Handle, replace: bool, mtime: U64): State
    requires h < |s1.objs|
  {
    if replace then s1 else s1.(objs := s1.objs[h := s1.objs[h].(meta := s1.objs[h].meta.(mtime := mtime))])
  }

  lemma StampedPending(s: State, s1: State, h: Handle, replace: bool, mtime: U64)
    requires Pending(s, s1, h, replace)
    ensures Pending(s, Stamped(s1, h, replace, mtime), h, replace)
  {
    var s2 := Stamped(s1, h, replace, mtime);
    assert Retarget(MemTable(s), h, s2.objs[h].meta).files == Retarget(MemTable(s), h, s1.objs[h].meta).files;
    assert s2.objs == s.objs[h := s2.objs[h]];
  }

  /** After a roll the syncing bookkeeping of the caller changes nothing. */
  lemma RolledCommit(s1: State, h: Handle, order: seq<Name>)
    requires h < |s1.objs| == |s1.saved| && HandlesValid(MemTable(s1)) && Walks(order, MemTable(s1)) && HasName(s1, h)
    ensures var r := Roll(s1, order);
            r.(objs := r.objs[h := s1.objs[h].(synced := |s1.objs[h].meta.extents|)], saved := r.saved[h := s1.objs[h].meta]) == r
  {
    var r := Roll(s1, order);
    assert r.objs[h] == s1.objs[h].(synced := |s1.objs[h].meta.extents|);
  }

  /** SyncFileMetadataNoLock, case by case. */
  lemma SyncMetaCases(s1: State, h: Handle, replace: bool, mtime: U64, how: Persist)
    requires h < |s1.objs| == |s1.saved| && s1.objs[h].synced <= |s1.objs[h].meta.extents|
    requires !s1.objs[h].deleted && HasName(s1, h)
    ensures var s2 := Stamped(s1, h, replace, mtime);
            var u := UpdateOf(s2.objs[h]);
            SyncMeta(s1, h, replace, mtime, how) ==
            if !Persists(s2, how) then (s2, IOError)
            else if how.Appended? then (Committed(s2, h).(log := s2.log + [if replace then Replace(u) else Update(u)]), OK)
            else (Roll(s2, how.order), OK)
  {
    var s2 := Stamped(s1, h, replace, mtime);
    assert s2.objs == s1.objs[h := s2.objs[h]];
    assert HasName(s2, h);
    if Persists(s2, how) && how.Rolled? {
      RolledCommit(s2, h, how.order);
    }
    hide Roll, Walks, HandlesValid;
  }

  lemma PendingNamed(s: State, s1: State, h: Handle, replace: bool)
    requires Inv(s) && Pending(s, s1, h, replace)
    ensures HasName(s1, h)
    ensures forall k :: 0 <= k < |s1.objs| ==> s1.objs[k].synced <= |s1.objs[k].meta.extents|
  {
    RetargetMarked(s, s1, h);
    var n := s1.objs[h].meta.links[0];
    assert n in s1.objs[h].meta.links && n in s1.files && s1.files[n] == h;
  }

  /** A pending change, stamped and rolled into a snapshot. */
  lemma CommitRolled(s: State, s1: State, h: Handle, replace: bool, order: seq<Name>)
    requires Inv(s) && Pending(s, s1, h, replace) && HandlesValid(MemTable(s1)) && Walks(order, MemTable(s1))
    ensures Inv(Roll(s1, order))
  {
    PendingMem(s, s1, h, replace);
    RetargetMarked(s, s1, h);
    PendingNamed(s, s1, h, replace);
    hide Linked, DeletedMarked, Retarget, Roll;
    RollInv(s1, order);
  }

  /** SyncFileMetadataNoLock on a pending change: the invariant holds again, or nothing was persisted. */
  lemma SyncKeeps(s: State, s1: State, h: Handle, replace: bool, mtime: U64, how: Persist)
    requires Inv(s) && Pending(s, s1, h, replace)
    ensures var (r, st) := SyncMeta(s1, h, replace, mtime, how);
            if Persists(Stamped(s1, h, replace, mtime), how) then st == OK && Inv(r)
            else st == IOError && r == Stamped(s1, h, replace, mtime)
  {
    var s2 := Stamped(s1, h, replace, mtime);
    StampedPending(s, s1, h, replace, mtime);
    PendingNamed(s, s1, h, replace);
    SyncMetaCases(s1, h, replace, mtime, how);
    hide Inv, Pending, Roll, Walks, UpdateOf, SyncMeta, Stamped;
    if Persists(s2, how) {
      if how.Appended? {
        CommitAppended(s, s2, h, replace);
      } else {
        CommitRolled(s, s2, h, replace, how.order);
      }
    }
  }

  /** Whatever becomes of the record, the names and the file data in memory are as they were stamped. */
  lemma SyncMemory(s1: State, h: Handle, replace: bool, mtime: U64, how: Persist)
    requires h < |s1.objs| == |s1.saved| && s1.objs[h].synced <= |s1.objs[h].meta.extents|
    requires !s1.objs[h].deleted && HasName(s1, h)
    ensures var r := SyncMeta(s1, h, replace, mtime, how).0;
            && r.files == s1.files && r.nextId == s1.nextId && |r.objs| == |s1.objs|
            && forall k :: 0 <= k < |r.objs| ==> r.objs[k].meta == Stamped(s1, h, replace, mtime).objs[k].meta
  {
    SyncMetaCases(s1, h, replace, mtime, how);
    var s2 := Stamped(s1, h, replace, mtime);
    hide SyncMeta;
    if Persists(s2, how) && how.Rolled? {
      RolledFiles(s2, how.order);
      hide Roll;
    }
  }

  // ---------------------------------------------------------------------------------------------
  // Changes in memory only
  // ---------------------------------------------------------------------------------------------

  /** A change of one object that is not persisted: its id and names stay, and so do the extents that
      count as synced. */
  ghost predicate MemoryOnly(s: State, s': State, h: Handle) {
    && h < |s.objs| == |s'.objs| && s' == s.(objs := s.objs[h := s'.objs[h]])
    && s'.objs[h].meta.id == s.objs[h].meta.id && s'.objs[h].deleted == s.objs[h].deleted
    && SameNames(s'.objs[h].meta.links, s.objs[h].meta.links) && Distinct(s'.objs[h].meta.links)
    && s'.objs[h].synced == s.objs[h].synced <= |s'.objs[h].meta.extents|
    && s.objs[h].synced <= |s.objs[h].meta.extents|
    && s'.objs[h].meta.extents[..s.objs[h].synced] == s.objs[h].meta.extents[..s.objs[h].synced]
  }

  lemma LinkedByNames(t: Table, s: Table)
    requires Linked(s) && HandlesValid(t) && t.files == s.files && t.nextId == s.nextId
    requires forall n :: n in s.files ==> File(t, n).id == File(s, n).id
    requires forall n :: n in s.files ==> SameNames(File(t, n).links, File(s, n).links) && Distinct(File(t, n).links)
    ensures Linked(t)
  {
  }

  lemma MemoryLinked(s: State, s': State, h: Handle)
    requires Linked(MemTable(s)) && MemoryOnly(s, s', h)
    ensures Linked(MemTable(s'))
  {
    hide Linked;
    LinkedHandles(MemTable(s));
    forall n | n in s.files ensures
      && File(MemTable(s'), n).id == File(MemTable(s), n).id
      && SameNames(File(MemTable(s'), n).links, File(MemTable(s), n).links)
    {
    }
    MemoryDistinct(s, s', h);
    LinkedByNames(MemTable(s'), MemTable(s));
  }

  lemma LinkedHandles(t: Table)
    requires Linked(t)
    ensures HandlesValid(t)
  {
  }

  lemma MemoryDistinct(s: State, s': State, h: Handle)
    requires Linked(MemTable(s)) && MemoryOnly(s, s', h)
    ensures HandlesValid(MemTable(s'))
    ensures forall n :: n in s.files ==> Distinct(File(MemTable(s'), n).links)
  {
    forall n | n in s.files ensures Distinct(File(MemTable(s'), n).links) {
      assert Distinct(File(MemTable(s), n).links);
    }
  }

  lemma MemoryKeeps(s: State, s': State, h: Handle)
    requires Inv(s) && MemoryOnly(s, s', h)
    ensures Inv(s')
  {
    hide Linked, Tracks, Recoverable, DeletedMarked;
    MemoryLinked(s, s', h);
    MemoryMarked(s, s', h);
    MemoryTracking(s, s', h);
    assert SavedTable(s') == SavedTable(s);
    LinkedHandles(MemTable(s'));
    RecoverableSame(s, s');
  }

  lemma RecoverableSame(s: State, s': State)
    requires Recoverable(s) && s'.log == s.log && SavedTable(s') == SavedTable(s)
    ensures Recoverable(s')
  {
  }

  lemma MemoryMarked(s: State, s': State, h: Handle)
    requires HandlesValid(MemTable(s)) && DeletedMarked(s) && MemoryOnly(s, s', h)
    ensures HandlesValid(MemTable(s')) && DeletedMarked(s')
  {
    if !s.objs[h].deleted {
      var n := s.objs[h].meta.links[0];
      assert n in s.objs[h].meta.links;
      assert n in s'.objs[h].meta.links;
    }
  }

  lemma MemoryTracking(s: State, s': State, h: Handle)
    requires Tracking(s) && MemoryOnly(s, s', h)
    ensures Tracking(s')
  {
    forall k | 0 <= k < |s'.objs| && !s'.objs[k].deleted ensures Tracks(s'.saved[k], s'.objs[k]) {
      assert Tracks(s.saved[k], s.objs[k]);
    }
  }

  lemma LinksDistinct(s: State, h: Handle)
    requires Inv(s) && h < |s.objs| && !s.objs[h].deleted
    ensures s.objs[h].meta.links != [] && Distinct(s.objs[h].meta.links)
    ensures forall n :: n in s.objs[h].meta.links <==> n in s.files && s.files[n] == h
  {
    var n := s.objs[h].meta.links[0];
    assert n in s.objs[h].meta.links && s.files[n] == h && n in s.files;
    assert File(MemTable(s), n) == s.objs[h].meta;
    OwnLinks(MemTable(s), n);
  }

  /** Appending to a file changes nothing that is persisted. */
  lemma WriteKeeps(s: State, h: Handle, extents: seq<Extent>, size: U64, lifetime: U32, extentStart: U64)
    requires Inv(s) && h < |s.objs| && !s.objs[h].deleted
    ensures Inv(Write(s, h, extents, size, lifetime, extentStart))
  {
    var s' := Write(s, h, extents, size, lifetime, extentStart);
    LinksDistinct(s, h);
    var es := s.objs[h].meta.extents;
    assert (es + extents)[..s.objs[h].synced] == es[..s.objs[h].synced];
    MemoryKeeps(s, s', h);
  }

  // ---------------------------------------------------------------------------------------------
  // Sync, replace, link, rename
  // ---------------------------------------------------------------------------------------------

  /** The files of a table whose object `h` takes new names. */
  lemma RetargetFiles(t: Table, h: Handle, f: FileMeta, files: map<Name, Handle>)
    requires HandlesValid(t) && h < |t.metas|
    requires forall n :: n in files <==> n in f.links || (n in t.files && t.files[n] != h)
    requires forall n :: n in files ==> files[n] == if n in f.links then h else t.files[n]
    ensures files == Retarget(t, h, f).files
  {
  }

  lemma OwnFiles(s: State, h: Handle, f: FileMeta)
    requires Inv(s) && h < |s.objs| && !s.objs[h].deleted && f.links == s.objs[h].meta.links
    ensures Retarget(MemTable(s), h, f).files == s.files
    ensures Available(MemTable(s), h, f.links) && f.links != []
  {
    LinksDistinct(s, h);
    hide Inv;
    RetargetFiles(MemTable(s), h, f, s.files);
  }

  /** A live object, changed without touching its names, is pending. */
  lemma PendingSameNames(s: State, s1: State, h: Handle, replace: bool)
    requires Inv(s) && h < |s.objs| == |s1.objs| && !s.objs[h].deleted && !s1.objs[h].deleted
    requires s1 == s.(objs := s.objs[h := s1.objs[h]])
    requires s1.objs[h].meta.id == s.objs[h].meta.id && s1.objs[h].meta.links == s.objs[h].meta.links
    requires if replace then s1.objs[h].synced == 0 else s1.objs[h] == s.objs[h]
    ensures Pending(s, s1, h, replace)
  {
    OwnFiles(s, h, s1.objs[h].meta);
    hide Retarget, Linked, Recoverable, DeletedMarked, Tracks;
  }

  lemma StampedKeeps(s: State, h: Handle, mtime: U64)
    requires Inv(s) && h < |s.objs| && !s.objs[h].deleted
    ensures Inv(Stamped(s, h, false, mtime))
  {
    LinksDistinct(s, h);
    var s2 := Stamped(s, h, false, mtime);
    assert s2.objs == s.objs[h := s2.objs[h]];
    assert MemoryOnly(s, s2, h);
    MemoryKeeps(s, s2, h);
  }

  /** PersistMetadata. */
  lemma SyncOp(s: State, h: Handle, mtime: U64, how: Persist)
    requires Inv(s) && h < |s.objs|
    ensures Inv(SyncMeta(s, h, false, mtime, how).0)
    ensures SyncMeta(s, h, false, mtime, how).1 == OK <==> s.objs[h].deleted || Persists(Stamped(s, h, false, mtime), how)
  {
    if !s.objs[h].deleted {
      PendingSameNames(s, s, h, false);
      StampedKeeps(s, h, mtime);
      SyncKeeps(s, s, h, false, mtime, how);
      hide SyncMeta, Inv, Pending, Stamped, MemoryOnly;
    }
  }

  /** Swapping the extent list, when the replace record gets persisted. */
  lemma ReplaceOp(s: State, h: Handle, extents: seq<Extent>, how: Persist)
    requires Inv(s) && h < |s.objs| && !s.objs[h].deleted
    ensures var (r, st) := ReplaceExtents(s, h, extents, how); st == OK ==> Inv(r)
  {
    var o := s.objs[h].(meta := s.objs[h].meta.(extents := extents), synced := 0);
    var s1 := s.(objs := s.objs[h := o]);
    PendingSameNames(s, s1, h, true);
    SyncKeeps(s, s1, h, true, 0, how);
    hide SyncMeta, Inv, Pending, Stamped;
  }

  /** The extents a mount finds under a name. */
  function ExtentsFound(log: seq<Record>, n: Name): Option<seq<Extent>> {
    match Replay(log)
    case Recovered(t) => if n in t.files && t.files[n] < |t.metas| then Some(t.metas[t.files[n]].extents) else None
    case _ => None
  }

  /** What a refused replace leaves: the list swapped in memory, all of it unsynced, and the log as it was. */
  lemma ReplaceFails(s: State, h: Handle, extents: seq<Extent>)
    requires h < |s.objs| && |s.saved| == |s.objs| && !s.objs[h].deleted
    ensures ReplaceExtents(s, h, extents, Failed)
            == (s.(objs := s.objs[h := s.objs[h].(meta := s.objs[h].meta.(extents := extents), synced := 0)]), IOError)
  {
    var s1 := s.(objs := s.objs[h := s.objs[h].(meta := s.objs[h].meta.(extents := extents), synced := 0)]);
    assert s1.objs[h := s1.objs[h]] == s1.objs;
  }

  /** A refused replace, and then the next sync of the file. */
  ghost function ReplacedThenSynced(s: State, h: Handle, extents: seq<Extent>, mtime: U64): (State, Status)
    requires h < |s.objs| && |s.saved| == |s.objs| && !s.objs[h].deleted
  {
    ReplaceFails(s, h, extents);
    SyncMeta(ReplaceExtents(s, h, extents, Failed).0, h, false, mtime, Appended)
  }

  lemma SyncAppended(s: State, h: Handle, mtime: U64)
    requires h < |s.objs| && |s.saved| == |s.objs| && s.objs[h].synced <= |s.objs[h].meta.extents| && !s.objs[h].deleted
    ensures var (r, st) := SyncMeta(s, h, false, mtime, Appended);
            && st == OK && h < |r.objs| && r.objs[h].meta.extents == s.objs[h].meta.extents
            && r.log == s.log + [Update(UpdateOf(s.objs[h].(meta := s.objs[h].meta.(mtime := mtime))))]
  {
    hide UpdateOf;
  }

  lemma ReplacedThenSyncedLog(s: State, h: Handle, extents: seq<Extent>, mtime: U64)
    requires h < |s.objs| && |s.saved| == |s.objs| && !s.objs[h].deleted
    ensures var (r, st) := ReplacedThenSynced(s, h, extents, mtime);
            && st == OK && h < |r.objs| && r.objs[h].meta.extents == extents
            && r.log == s.log + [Update(s.objs[h].meta.(extents := extents, mtime := mtime))]
  {
    assert extents[0..] == extents;
    var u := s.objs[h].meta.(extents := extents, mtime := mtime);
    ReplaceFails(s, h, extents);
    assert u.(extents := u.extents[0..]) == u;
    assert UpdateOf(FileState(u, 0, s.objs[h].deleted)) == u;
    var s1 := s.(objs := s.objs[h := FileState(s.objs[h].meta.(extents := extents), 0, s.objs[h].deleted)]);
    assert s1.objs[h].(meta := s1.objs[h].meta.(mtime := mtime)) == FileState(u, 0, s.objs[h].deleted);
    assert s1.objs[h].synced == 0;
    SyncAppended(s1, h, mtime);
  }

  /** Then replay adds the new list to the old one: a mount finds the file with its new extents if and only
      if none of the old ones was ever persisted. */
  lemma ReplaceLost(s: State, h: Handle, extents: seq<Extent>, mtime: U64, n: Name)
    requires Inv(s) && n in s.files && s.files[n] == h
    ensures h < |s.objs| == |s.saved| && !s.objs[h].deleted
    ensures var r := ReplacedThenSynced(s, h, extents, mtime).0;
            && ExtentsFound(r.log, n) == Some(s.saved[h].extents + extents)
            && (ExtentsFound(r.log, n) == Some(extents) <==> s.saved[h].extents == [])
  {
    NamedLive(s, n);
    InvSane(s);
    hide *;
    ReplacedThenSyncedLog(s, h, extents, mtime);
    UpdateFound(s, h, s.objs[h].meta.(extents := extents, mtime := mtime), n);
    NothingBefore(s.saved[h].extents, extents);
  }

  lemma NothingBefore(a: seq<Extent>, b: seq<Extent>)
    ensures a + b == b <==> a == []
  {
    assert |a + b| == |a| + |b|;
  }

  lemma UpdateFound(s: State, h: Handle, u: FileMeta, n: Name)
    requires Inv(s) && n in s.files && s.files[n] == h && h < |s.objs| == |s.saved| && !s.objs[h].deleted
    requires u.id == s.objs[h].meta.id && u.links == s.objs[h].meta.links
    ensures ExtentsFound(s.log + [Update(u)], n) == Some(s.saved[h].extents + u.extents)
  {
    InvSane(s);
    RecoverableParts(s);
    NamedLive(s, n);
    LinksAvailable(s, h);
    assert Tracks(s.saved[h], s.objs[h]);
    ReplayFromAppend(EMPTY, s.log, Update(u), false);
    hide Inv, Linked, SameTable, Available, Recoverable, DeletedMarked, Tracking, ReplayUpdate;
    UpdateAdds(Replay(s.log).table, SavedTable(s), n, u);
  }

  lemma UpdateAdds(t: Table, s: Table, n: Name, u: FileMeta)
    requires Linked(t) && Linked(s) && SameTable(t, s) && n in s.files && s.files[n] < |s.metas|
    requires u.id == s.metas[s.files[n]].id && Available(s, s.files[n], u.links) && n in u.links
    ensures var r := ReplayUpdate(t, u, false);
      && r.Ok? && n in r.value.files && r.value.files[n] < |r.value.metas|
      && r.value.metas[r.value.files[n]].extents == s.metas[s.files[n]].extents + u.extents
  {
    var f := Merge(s.metas[s.files[n]], u, false);
    UpdateMirrors(t, s, n, u, false);
    RetargetAt(s, s.files[n], f);
    hide Linked, Retarget, SameTable, Available, ReplayUpdate;
    SameFile(ReplayUpdate(t, u, false).value, Retarget(s, s.files[n], f), n);
  }

  lemma LinksAvailable(s: State, h: Handle)
    requires Inv(s) && h < |s.objs| == |s.saved| && !s.objs[h].deleted
    ensures Available(SavedTable(s), h, s.objs[h].meta.links)
  {
    LinksDistinct(s, h);
  }

  lemma SameFile(t: Table, s: Table, n: Name)
    requires SameTable(t, s) && n in s.files
    ensures n in t.files && t.files[n] < |t.metas| && s.files[n] < |s.metas| && t.metas[t.files[n]] == s.metas[s.files[n]]
  {
  }

  /** LinkFile before the sync. */
  function Linking(s: State, h: Handle, link: Name): State
    requires h < |s.objs|
  {
    s.(files := s.files[link := h], objs := s.objs[h := WithLinks(s.objs[h], s.objs[h].meta.links + [link])])
  }

  lemma LinkingFiles(s: State, h: Handle, link: Name)
    requires HandlesValid(MemTable(s)) && h < |s.objs| && link !in s.files
    requires forall n :: n in s.objs[h].meta.links <==> n in s.files && s.files[n] == h
    requires Distinct(s.objs[h].meta.links)
    ensures var s1 := Linking(s, h, link);
            && s1.files == Retarget(MemTable(s), h, s1.objs[h].meta).files
            && Available(MemTable(s), h, s1.objs[h].meta.links)
  {
    var s1 := Linking(s, h, link);
    DistinctSnoc(s.objs[h].meta.links, link);
    RetargetFiles(MemTable(s), h, s1.objs[h].meta, s1.files);
    hide Retarget;
  }

  lemma LinkPending(s: State, h: Handle, link: Name)
    requires Inv(s) && h < |s.objs| && !s.objs[h].deleted && link !in s.files
    ensures Pending(s, Linking(s, h, link), h, false)
  {
    LinksDistinct(s, h);
    hide Linked, Recoverable, DeletedMarked, Tracks, Retarget, Available;
    LinkingFiles(s, h, link);
  }

  lemma DistinctSnoc(names: seq<Name>, n: Name)
    requires Distinct(names) && n !in names
    ensures Distinct(names + [n])
  {
  }

  lemma {:induction false} RemoveLast(names: seq<Name>, n: Name)
    requires n !in names
    ensures RemoveFirst(names + [n], n) == names
    decreases |names|
  {
    if names != [] {
      assert (names + [n])[1..] == names[1..] + [n];
      RemoveLast(names[1..], n);
    } else {
      assert [n][1..] == [];
    }
  }

  lemma NamedLive(s: State, name: Name)
    requires Inv(s) && name in s.files
    ensures s.files[name] < |s.objs| && !s.objs[s.files[name]].deleted
    ensures name in s.objs[s.files[name]].meta.links
  {
    assert name in File(MemTable(s), name).links;
  }

  /** LinkFile whose record is persisted. */
  lemma LinkOp(s: State, name: Name, link: Name, mtime: U64, how: Persist)
    requires Inv(s) && name in s.files && link !in s.files
    requires Persists(Stamped(Linking(s, s.files[name], link), s.files[name], false, mtime), how)
    ensures var (r, st) := Link(s, name, link, mtime, how);
            st == OK && Inv(r) && r.files == s.files[link := s.files[name]]
  {
    var h := s.files[name];
    NamedLive(s, name);
    LinkPending(s, h, link);
    SyncKeeps(s, Linking(s, h, link), h, false, mtime, how);
    PendingNamed(s, Linking(s, h, link), h, false);
    SyncMemory(Linking(s, h, link), h, false, mtime, how);
    hide SyncMeta, Inv, Pending, Stamped, Sane;
  }

  /** LinkFile whose record cannot be persisted: the link is taken back, and only the modification time
      has changed. */
  lemma LinkRollback(s: State, name: Name, link: Name, mtime: U64, how: Persist)
    requires Inv(s) && name in s.files && link !in s.files
    requires !Persists(Stamped(Linking(s, s.files[name], link), s.files[name], false, mtime), how)
    ensures Link(s, name, link, mtime, how) == (Stamped(s, s.files[name], false, mtime), IOError)
    ensures Inv(Link(s, name, link, mtime, how).0)
  {
    var h := s.files[name];
    NamedLive(s, name);
    LinkPending(s, h, link);
    LinksDistinct(s, h);
    SyncKeeps(s, Linking(s, h, link), h, false, mtime, how);
    StampedKeeps(s, h, mtime);
    RemoveLast(s.objs[h].meta.links, link);
    Unlinked(s, h, link, mtime);
    hide SyncMeta, Inv, Pending, Stamped;
  }

  lemma Unlinked(s: State, h: Handle, link: Name, mtime: U64)
    requires h < |s.objs| && link !in s.files && RemoveFirst(s.objs[h].meta.links + [link], link) == s.objs[h].meta.links
    ensures var s2 := Stamped(Linking(s, h, link), h, false, mtime);
            s2.(files := s2.files - {link}, objs := s2.objs[h := WithLinks(s2.objs[h], RemoveFirst(s.objs[h].meta.links + [link], link))])
            == Stamped(s, h, false, mtime)
  {
    assert s.files[link := h] - {link} == s.files;
  }

  // ---------------------------------------------------------------------------------------------
  // Rename
  // ---------------------------------------------------------------------------------------------

  /** RenameFileNoLock before the sync, once the destination is free. */
  function Renaming(s: State, h: Handle, src: Name, dst: Name): State
    requires h < |s.objs|
  {
    s.(files := InsertNames(s.files - {src}, [dst], h),
       objs := s.objs[h := WithLinks(s.objs[h], RemoveFirst(s.objs[h].meta.links, src) + [dst])])
  }

  lemma InsertOne(files: map<Name, Handle>, name: Name, h: Handle)
    requires name !in files
    ensures InsertNames(files, [name], h) == files[name := h]
  {
    assert [name][1..] == [];
  }

  lemma RenamingFiles(s: State, h: Handle, src: Name, dst: Name)
    requires HandlesValid(MemTable(s)) && h < |s.objs| && src in s.files && s.files[src] == h && dst !in s.files
    requires forall n :: n in s.objs[h].meta.links <==> n in s.files && s.files[n] == h
    requires Distinct(s.objs[h].meta.links)
    ensures var s1 := Renaming(s, h, src, dst);
            && s1.files == (s.files - {src})[dst := h]
            && s1.files == Retarget(MemTable(s), h, s1.objs[h].meta).files
            && Available(MemTable(s), h, s1.objs[h].meta.links)
  {
    var s1 := Renaming(s, h, src, dst);
    var left := RemoveFirst(s.objs[h].meta.links, src);
    RemoveFirstOf(s.objs[h].meta.links, src);
    DistinctSnoc(left, dst);
    InsertOne(s.files - {src}, dst, h);
    RetargetFiles(MemTable(s), h, s1.objs[h].meta, s1.files);
    hide Retarget, RemoveFirst, InsertNames;
  }

  lemma RenamePending(s: State, h: Handle, src: Name, dst: Name)
    requires Inv(s) && src in s.files && s.files[src] == h && dst !in s.files
    ensures h < |s.objs| && Pending(s, Renaming(s, h, src, dst), h, false)
  {
    NamedLive(s, src);
    LinksDistinct(s, h);
    hide Linked, Recoverable, DeletedMarked, Tracks, Retarget, Available;
    RenamingFiles(s, h, src, dst);
  }

  /** Moving a file to a free name, with the record persisted. */
  lemma RenameToOp(s: State, src: Name, dst: Name, mtime: U64, how: Persist)
    requires Inv(s) && src in s.files && dst !in s.files
    requires Persists(Stamped(Renaming(s, s.files[src], src, dst), s.files[src], false, mtime), how)
    ensures var (r, st) := RenameTo(s, s.files[src], src, dst, mtime, how);
            st == OK && Inv(r) && r.files == (s.files - {src})[dst := s.files[src]]
  {
    var h := s.files[src];
    NamedLive(s, src);
    RenamePending(s, h, src, dst);
    SyncKeeps(s, Renaming(s, h, src, dst), h, false, mtime, how);
    PendingNamed(s, Renaming(s, h, src, dst), h, false);
    SyncMemory(Renaming(s, h, src, dst), h, false, mtime, how);
    InsertOne(s.files - {src}, dst, h);
    hide SyncMeta, Inv, Pending, Stamped, Sane;
  }

  lemma RenameToFails(s: State, src: Name, dst: Name, mtime: U64, how: Persist)
    requires Inv(s) && src in s.files && dst !in s.files
    requires !Persists(Stamped(Renaming(s, s.files[src], src, dst), s.files[src], false, mtime), how)
    ensures var h := s.files[src];
            RenameTo(s, h, src, dst, mtime, how) ==
            (RolledBack(s, h, mtime, RemoveFirst(s.objs[h].meta.links, src) + [src]), IOError)
  {
    var h := s.files[src];
    NamedLive(s, src);
    RenamePending(s, h, src, dst);
    SyncKeeps(s, Renaming(s, h, src, dst), h, false, mtime, how);
    LinksDistinct(s, h);
    RemoveFirstOf(s.objs[h].meta.links, src);
    RemoveLast(RemoveFirst(s.objs[h].meta.links, src), dst);
    Renamed(s, h, src, dst, mtime);
    hide SyncMeta, Inv, Pending, Stamped, RemoveFirst, InsertNames, RolledBack;
  }

  /** The same with the record not persisted: the names are back, the moved one now last in its list. */
  lemma RenameToRollback(s: State, src: Name, dst: Name, mtime: U64, how: Persist)
    requires Inv(s) && src in s.files && dst !in s.files
    requires !Persists(Stamped(Renaming(s, s.files[src], src, dst), s.files[src], false, mtime), how)
    ensures var h := s.files[src];
            var (r, st) := RenameTo(s, h, src, dst, mtime, how);
            && st == IOError && Inv(r) && r.files == s.files && |r.objs| == |s.objs|
            && SameNames(r.objs[h].meta.links, s.objs[h].meta.links)
  {
    var h := s.files[src];
    NamedLive(s, src);
    RenameToFails(s, src, dst, mtime, how);
    var left := RemoveFirst(s.objs[h].meta.links, src);
    LinksDistinct(s, h);
    RemoveFirstOf(s.objs[h].meta.links, src);
    DistinctSnoc(left, src);
    hide Inv, RenameTo, RemoveFirst;
    RolledBackKeeps(s, h, mtime, left + [src]);
  }

  /** `s` with the names of one object in another order and its modification time changed. */
  function RolledBack(s: State, h: Handle, mtime: U64, links: seq<Name>): State
    requires h < |s.objs|
  {
    s.(objs := s.objs[h := s.objs[h].(meta := s.objs[h].meta.(mtime := mtime, links := links))])
  }

  lemma RolledBackKeeps(s: State, h: Handle, mtime: U64, links: seq<Name>)
    requires Inv(s) && h < |s.objs| && !s.objs[h].deleted
    requires SameNames(links, s.objs[h].meta.links) && Distinct(links)
    ensures Inv(RolledBack(s, h, mtime, links))
  {
    var r := RolledBack(s, h, mtime, links);
    assert r.objs == s.objs[h := r.objs[h]];
    assert MemoryOnly(s, r, h);
    MemoryKeeps(s, r, h);
  }

  lemma Renamed(s: State, h: Handle, src: Name, dst: Name, mtime: U64)
    requires h < |s.objs| && src in s.files && s.files[src] == h && dst !in s.files
    requires RemoveFirst(RemoveFirst(s.objs[h].meta.links, src) + [dst], dst) == RemoveFirst(s.objs[h].meta.links, src)
    ensures var s2 := Stamped(Renaming(s, h, src, dst), h, false, mtime);
            var left := RemoveFirst(s.objs[h].meta.links, src);
            s2.(files := InsertNames(s2.files - {dst}, [src], h),
                objs := s2.objs[h := WithLinks(s2.objs[h], RemoveFirst(left + [dst], dst) + [src])])
            == RolledBack(s, h, mtime, left + [src])
  {
    InsertOne(s.files - {src}, dst, h);
    assert (s.files - {src})[dst := h] - {dst} == s.files - {src};
    InsertOne(s.files - {src}, src, h);
    assert (s.files - {src})[src := h] == s.files;
  }

  // ---------------------------------------------------------------------------------------------
  // Delete
  // ---------------------------------------------------------------------------------------------

  /** DeleteFileNoLock before its record is persisted. */
  function Deleting(s: State, name: Name): State
    requires name in s.files && s.files[name] < |s.objs|
  {
    var h := s.files[name];
    s.(files := s.files - {name},
       objs := s.objs[h := WithLinks(s.objs[h], RemoveFirst(s.objs[h].meta.links, name))])
  }

  /** An object that has lost its last name is marked deleted. */
  function MarkDeleted(s: State, h: Handle): State
    requires h < |s.objs|
  {
    if s.objs[h].meta.links == [] then s.(objs := s.objs[h := s.objs[h].(deleted := true)]) else s
  }

  lemma DeletingMem(s: State, name: Name)
    requires Inv(s) && name in s.files
    ensures s.files[name] < |s.objs|
    ensures MemTable(Deleting(s, name)) == Unlink(MemTable(s), name)
    ensures Linked(MemTable(Deleting(s, name)))
  {
    var h := s.files[name];
    NamedLive(s, name);
    LinksDistinct(s, h);
    UnlinkIsErase(MemTable(s), name);
    var s1 := Deleting(s, name);
    assert Metas(s1.objs) == Unlink(MemTable(s), name).metas;
    UnlinkLinked(MemTable(s), name);
  }

  lemma UnlinkLinked(t: Table, name: Name)
    requires Linked(t) && name in t.files
    ensures Linked(Unlink(t, name))
  {
    var f := File(t, name);
    OwnLinks(t, name);
    RemoveFirstOf(f.links, name);
    RetargetLinked(t, t.files[name], f.(links := RemoveFirst(f.links, name)));
  }

  lemma DeletingMarked(s: State, name: Name)
    requires HandlesValid(MemTable(s)) && DeletedMarked(s) && name in s.files
    requires var links := s.objs[s.files[name]].meta.links;
             Distinct(links) && forall n :: n in links <==> n in s.files && s.files[n] == s.files[name]
    ensures var s1 := MarkDeleted(Deleting(s, name), s.files[name]);
            HandlesValid(MemTable(s1)) && DeletedMarked(s1)
  {
    var h := s.files[name];
    RemoveFirstOf(s.objs[h].meta.links, name);
    var s1 := MarkDeleted(Deleting(s, name), h);
    hide RemoveFirst;
    forall n | n in s1.files ensures s1.files[n] < |s1.objs| && !s1.objs[s1.files[n]].deleted {
      assert n in s.files && !s.objs[s.files[n]].deleted;
      if s.files[n] == h {
        assert n in s1.objs[h].meta.links;
      }
    }
    forall k | 0 <= k < |s1.objs| && !s1.objs[k].deleted
      ensures s1.objs[k].meta.links != [] && forall n :: n in s1.objs[k].meta.links ==> n in s1.files && s1.files[n] == k
    {
    }
  }

  /** After the deletion record has been appended. */
  function DeletedSaved(s1: State, h: Handle, name: Name): State
    requires h < |s1.objs| == |s1.saved|
  {
    s1.(saved := s1.saved[h := s1.saved[h].(links := RemoveFirst(s1.saved[h].links, name))],
        log := s1.log + [Deletion(s1.objs[h].meta.id, name)])
  }

  lemma DeletedRecoverable(s: State, name: Name)
    requires Inv(s) && name in s.files
    ensures s.files[name] < |s.objs|
    ensures var r := DeletedSaved(Deleting(s, name), s.files[name], name);
            Linked(SavedTable(r)) && Recoverable(r)
  {
    var h := s.files[name];
    NamedLive(s, name);
    assert Tracks(s.saved[h], s.objs[h]);
    var r := DeletedSaved(Deleting(s, name), h, name);
    UnlinkIsErase(SavedTable(s), name);
    assert SavedTable(r) == Unlink(SavedTable(s), name);
    DeletionMirrors(Replay(s.log).table, SavedTable(s), name);
    AppendRecoverable(s, Deletion(s.objs[h].meta.id, name), r);
  }

  lemma DeletedTracking(s: State, name: Name)
    requires Inv(s) && name in s.files
    ensures s.files[name] < |s.objs|
    ensures Tracking(DeletedSaved(MarkDeleted(Deleting(s, name), s.files[name]), s.files[name], name))
  {
    var h := s.files[name];
    NamedLive(s, name);
    LinksDistinct(s, h);
    RemoveFirstOf(s.objs[h].meta.links, name);
    assert File(SavedTable(s), name) == s.saved[h];
    OwnLinks(SavedTable(s), name);
    RemoveFirstOf(s.saved[h].links, name);
    var r := DeletedSaved(MarkDeleted(Deleting(s, name), h), h, name);
    hide Linked, Recoverable, RemoveFirst;
    forall k | 0 <= k < |r.objs| && !r.objs[k].deleted ensures Tracks(r.saved[k], r.objs[k]) {
      assert Tracks(s.saved[k], s.objs[k]);
    }
  }

  /** Rolling does not look at the deleted marks of objects without a name. */
  lemma RollMarks(s1: State, h: Handle, order: seq<Name>)
    requires Sane(s1) && Walks(order, MemTable(s1)) && h < |s1.objs|
    requires s1.objs[h].meta.links == [] ==> !HasName(s1, h)
    ensures Sane(MarkDeleted(s1, h)) && Walks(order, MemTable(MarkDeleted(s1, h)))
    ensures MarkDeleted(Roll(s1, order), h) == Roll(MarkDeleted(s1, h), order)
  {
    var s2 := MarkDeleted(s1, h);
    assert Metas(s2.objs) == Metas(s1.objs);
    assert MemTable(s2) == MemTable(s1);
    assert forall k :: HasName(s2, k) <==> HasName(s1, k);
    if s1.objs[h].meta.links == [] {
      assert MarkDeleted(Roll(s1, order), h).objs == Roll(s2, order).objs;
    }
  }

  lemma DeleteCases(s: State, name: Name, how: Persist)
    requires Sane(s) && name in s.files && name in s.objs[s.files[name]].meta.links
    ensures var h := s.files[name];
            var s1 := Deleting(s, name);
            Delete(s, name, how) ==
            if !Persists(s1, how) then (RolledBack(s, h, s.objs[h].meta.mtime, RemoveFirst(s.objs[h].meta.links, name) + [name]), IOError)
            else if how.Appended? then (DeletedSaved(MarkDeleted(s1, h), h, name), OK)
            else (MarkDeleted(Roll(s1, how.order), h), OK)
  {
    var h := s.files[name];
    assert (s.files - {name})[name := h] == s.files;
    hide RemoveFirst, Walks;
    if Persists(Deleting(s, name), how) && how.Appended? {
      assert DeletedSaved(MarkDeleted(Deleting(s, name), h), h, name).objs == Delete(s, name, how).0.objs;
    }
  }

  lemma DeleteAppended(s: State, name: Name)
    requires Inv(s) && name in s.files
    ensures s.files[name] < |s.objs|
    ensures Inv(DeletedSaved(MarkDeleted(Deleting(s, name), s.files[name]), s.files[name], name))
  {
    var h := s.files[name];
    InvSane(s);
    NamedLive(s, name);
    LinksDistinct(s, h);
    assert s.nextId >= 1;
    hide Inv, Linked, Tracks, RemoveFirst, Recoverable;
    DeletingMem(s, name);
    DeletingMarked(s, name);
    DeletedRecoverable(s, name);
    DeletedTracking(s, name);
    DeletedTables(s, name);
    hide DeletedMarked, Tracking, HandlesValid;
    InvIntro(DeletedSaved(MarkDeleted(Deleting(s, name), h), h, name));
  }

  lemma DeletedTables(s: State, name: Name)
    requires Sane(s) && name in s.files
    requires HandlesValid(MemTable(MarkDeleted(Deleting(s, name), s.files[name])))
    requires DeletedMarked(MarkDeleted(Deleting(s, name), s.files[name]))
    requires Recoverable(DeletedSaved(Deleting(s, name), s.files[name], name))
    ensures var r := DeletedSaved(MarkDeleted(Deleting(s, name), s.files[name]), s.files[name], name);
            var r0 := DeletedSaved(Deleting(s, name), s.files[name], name);
            && Sane(r) && DeletedMarked(r) && Recoverable(r)
            && MemTable(r) == MemTable(Deleting(s, name)) && SavedTable(r) == SavedTable(r0)
  {
    var h := s.files[name];
    var r := DeletedSaved(MarkDeleted(Deleting(s, name), h), h, name);
    var r0 := DeletedSaved(Deleting(s, name), h, name);
    assert Metas(r.objs) == Metas(Deleting(s, name).objs);
    hide RemoveFirst;
    RecoverableSame(r0, r);
  }

  lemma DeleteRolled(s: State, name: Name, order: seq<Name>)
    requires Inv(s) && name in s.files && s.files[name] < |s.objs|
    requires Sane(Deleting(s, name)) && Walks(order, MemTable(Deleting(s, name)))
    ensures Inv(MarkDeleted(Roll(Deleting(s, name), order), s.files[name]))
  {
    var h := s.files[name];
    var s1 := Deleting(s, name);
    NamedLive(s, name);
    LinksDistinct(s, h);
    assert s1.nextId >= 1;
    hide Inv, Linked, Tracking, Recoverable;
    RemoveFirstOf(s.objs[h].meta.links, name);
    assert s1.objs[h].meta.links == [] ==> !HasName(s1, h) by {
      if HasName(s1, h) {
        var n :| n in s1.files && s1.files[n] == h;
        assert n in s1.objs[h].meta.links;
      }
    }
    RollMarks(s1, h, order);
    DeletingMem(s, name);
    DeletingMarked(s, name);
    assert Metas(MarkDeleted(s1, h).objs) == Metas(s1.objs);
    hide RemoveFirst, DeletedMarked, Roll, HasName;
    RollInv(MarkDeleted(s1, h), order);
  }

  lemma DeleteRolledOp(s: State, name: Name, how: Persist)
    requires Inv(s) && name in s.files && how.Rolled?
    requires Persists(Deleting(s, name), how)
    ensures var r := Delete(s, name, how).0; Inv(r) && r.files == s.files - {name}
  {
    InvSane(s);
    hide Inv, Delete, Roll, Walks, Linked, Tracking, Recoverable, DeletedMarked, RemoveFirst;
    NamedLive(s, name);
    DeleteCases(s, name, how);
    DeletingMem(s, name);
    LinkedHandles(MemTable(Deleting(s, name)));
    DeletingBounds(s, name);
    DeleteRolled(s, name, how.order);
    RolledFiles(Deleting(s, name), how.order);
  }

  /** DeleteFileNoLock. Persisted, it takes exactly that name away, and marks the file deleted with its
      last one. */
  lemma DeleteOp(s: State, name: Name, how: Persist)
    requires Inv(s) && name in s.files
    requires Persists(Deleting(s, name), how)
    ensures var (r, st) := Delete(s, name, how);
            st == OK && Inv(r) && r.files == s.files - {name}
  {
    hide *;
    InvSane(s);
    NamedLive(s, name);
    PersistsCases(Deleting(s, name), how);
    DeleteCases(s, name, how);
    if how.Appended? {
      DeleteAppended(s, name);
      DeletedFiles(s, name);
    } else {
      DeleteRolledOp(s, name, how);
    }
  }

  lemma DeletedFiles(s: State, name: Name)
    requires Sane(s) && name in s.files
    ensures s.files[name] < |s.objs|
    ensures DeletedSaved(MarkDeleted(Deleting(s, name), s.files[name]), s.files[name], name).files == s.files - {name}
  {
  }

  lemma DeletingBounds(s: State, name: Name)
    requires Sane(s) && name in s.files && HandlesValid(MemTable(Deleting(s, name)))
    ensures Sane(Deleting(s, name))
  {
  }

  /** Not persisted, it leaves the names as they were, up to the order in the file's own list. */
  lemma DeleteRollback(s: State, name: Name, how: Persist)
    requires Inv(s) && name in s.files && s.files[name] < |s.objs|
    requires !Persists(Deleting(s, name), how)
    ensures var (r, st) := Delete(s, name, how);
            var h := s.files[name];
            && st == IOError && Inv(r) && r.files == s.files && |r.objs| == |s.objs|
            && SameNames(r.objs[h].meta.links, s.objs[h].meta.links)
  {
    var h := s.files[name];
    NamedLive(s, name);
    DeleteCases(s, name, how);
    LinksDistinct(s, h);
    RemoveFirstOf(s.objs[h].meta.links, name);
    var left := RemoveFirst(s.objs[h].meta.links, name);
    DistinctSnoc(left, name);
    hide Inv, Delete, RemoveFirst;
    RolledBackKeeps(s, h, s.objs[h].meta.mtime, left + [name]);
  }

  // ---------------------------------------------------------------------------------------------
  // Rename onto an existing name, and onto itself
  // ---------------------------------------------------------------------------------------------

  /** RenameFileNoLock with every record persisted. */
  ghost predicate RenamePersists(s: State, src: Name, dst: Name, howDelete: Persist, mtime: U64, how: Persist)
    requires Sane(s) && src in s.files
  {
    if dst in s.files then
      Persists(Deleting(s, dst), howDelete) &&
      var s0 := Delete(s, dst, howDelete).0;
      s.files[src] < |s0.objs| && Persists(Stamped(Renaming(s0, s.files[src], src, dst), s.files[src], false, mtime), how)
    else Persists(Stamped(Renaming(s, s.files[src], src, dst), s.files[src], false, mtime), how)
  }

  lemma RenamePersistsCases(s: State, src: Name, dst: Name, howDelete: Persist, mtime: U64, how: Persist)
    requires Sane(s) && src in s.files && RenamePersists(s, src, dst, howDelete, mtime, how)
    ensures s.files[src] < |s.objs|
    ensures dst !in s.files ==> Persists(Stamped(Renaming(s, s.files[src], src, dst), s.files[src], false, mtime), how)
    ensures dst in s.files ==> Persists(Deleting(s, dst), howDelete)
    ensures dst in s.files ==>
              var s0 := Delete(s, dst, howDelete).0;
              s.files[src] < |s0.objs| && Persists(Stamped(Renaming(s0, s.files[src], src, dst), s.files[src], false, mtime), how)
  {
    hide Persists, Stamped, Renaming, Delete;
  }

  /** RenameFileNoLock, case by case. */
  lemma RenameCases(s: State, src: Name, dst: Name, howDelete: Persist, mtime: U64, how: Persist)
    requires Sane(s) && src in s.files
    ensures dst !in s.files && s.objs[s.files[src]].synced <= |s.objs[s.files[src]].meta.extents| ==>
              Rename(s, src, dst, howDelete, mtime, how) == RenameTo(s, s.files[src], src, dst, mtime, how)
    ensures dst in s.files ==>
              var (s0, st) := Delete(s, dst, howDelete);
              (st == OK && Sane(s0) && s.files[src] < |s0.objs| ==>
                 Rename(s, src, dst, howDelete, mtime, how) == RenameTo(s0, s.files[src], src, dst, mtime, how))
  {
    hide RenameTo, Delete;
  }

  /** RenameFileNoLock moves the file to its new name, whether or not a file was there before. */
  lemma RenameOp(s: State, src: Name, dst: Name, howDelete: Persist, mtime: U64, how: Persist)
    requires Inv(s) && src in s.files && src != dst
    requires RenamePersists(s, src, dst, howDelete, mtime, how)
    ensures var (r, st) := Rename(s, src, dst, howDelete, mtime, how);
            st == OK && Inv(r) && r.files == (s.files - {src})[dst := s.files[src]]
  {
    hide *;
    InvSane(s);
    RenameCases(s, src, dst, howDelete, mtime, how);
    RenamePersistsCases(s, src, dst, howDelete, mtime, how);
    if dst in s.files {
      DeleteOp(s, dst, howDelete);
      var s0 := Delete(s, dst, howDelete).0;
      InvSane(s0);
      RenameToOp(s0, src, dst, mtime, how);
      assert (s.files - {dst} - {src})[dst := s.files[src]] == (s.files - {src})[dst := s.files[src]];
    } else {
      RenameToOp(s, src, dst, mtime, how);
    }
  }

  /** A rename onto itself deletes the name first, then does not find it any more. */
  lemma RenameSelf(s: State, src: Name, howDelete: Persist, mtime: U64, how: Persist)
    requires Inv(s) && src in s.files && Persists(Deleting(s, src), howDelete)
    ensures var (r, st) := Rename(s, src, src, howDelete, mtime, how);
            st == IOError && src !in r.files && Inv(r)
  {
    DeleteOp(s, src, howDelete);
    var s0 := Delete(s, src, howDelete).0;
    var h := s.files[src];
    DeletedLinks(s, src, howDelete);
    hide Inv, Delete, Persists;
  }

  /** So a rename of which every record is persisted moves the file to the other name if and only if there is
      another name. */
  lemma RenameMovesIff(s: State, src: Name, dst: Name, howDelete: Persist, mtime: U64, how: Persist)
    requires Inv(s) && src in s.files
    requires if src == dst then Persists(Deleting(s, src), howDelete) else RenamePersists(s, src, dst, howDelete, mtime, how)
    ensures var (r, st) := Rename(s, src, dst, howDelete, mtime, how);
            && Inv(r)
            && (st == OK <==> src != dst)
            && (r.files == (s.files - {src})[dst := s.files[src]] <==> src != dst)
  {
    hide *;
    if src != dst {
      RenameOp(s, src, dst, howDelete, mtime, how);
    } else {
      RenameSelf(s, src, howDelete, mtime, how);
    }
  }

  // ---------------------------------------------------------------------------------------------
  // Crashes in the middle of a rename
  // ---------------------------------------------------------------------------------------------

  /** The names a mount finds. */
  ghost function NamesOf(log: seq<Record>): set<Name> {
    if Replay(log).Recovered? then Replay(log).table.files.Keys else {}
  }

  /** The logs a crash can find during a rename with every record persisted: before it; after the deletion of
      the file that had the new name; after it. */
  ghost predicate CrashPoint(s: State, src: Name, dst: Name, howDelete: Persist, mtime: U64, how: Persist, log: seq<Record>)
    requires Sane(s) && src in s.files
  {
    || log == s.log
    || (dst in s.files && log == Delete(s, dst, howDelete).0.log)
    || log == Rename(s, src, dst, howDelete, mtime, how).0.log
  }

  /** A rename is atomic in the names a crash leaves if and only if nothing had the new name: otherwise
      there is a point at which it leads to no file at all, and the file still has its old name only. */
  lemma RenameAtomicIff(s: State, src: Name, dst: Name, howDelete: Persist, mtime: U64, how: Persist)
    requires Inv(s) && src in s.files && src != dst && RenamePersists(s, src, dst, howDelete, mtime, how)
    ensures Sane(s)
    ensures (forall log :: CrashPoint(s, src, dst, howDelete, mtime, how, log) ==>
               NamesOf(log) == s.files.Keys || NamesOf(log) == s.files.Keys - {src} + {dst})
            <==> dst !in s.files
    ensures dst in s.files ==> NamesOf(Delete(s, dst, howDelete).0.log) == s.files.Keys - {dst}
  {
    hide *;
    InvSane(s);
    NamesFound(s);
    RenameOp(s, src, dst, howDelete, mtime, how);
    RenamePersistsCases(s, src, dst, howDelete, mtime, how);
    var r := Rename(s, src, dst, howDelete, mtime, how).0;
    NamesFound(r);
    assert r.files.Keys == s.files.Keys - {src} + {dst};
    CrashPointCases(s, src, dst, howDelete, mtime, how);
    if dst in s.files {
      DeleteOp(s, dst, howDelete);
      var mid := Delete(s, dst, howDelete).0;
      NamesFound(mid);
      assert mid.files.Keys == s.files.Keys - {dst};
      assert CrashPoint(s, src, dst, howDelete, mtime, how, mid.log);
      assert dst in s.files.Keys && src in mid.files.Keys;
    }
  }

  lemma NamesFound(s: State)
    requires Inv(s)
    ensures NamesOf(s.log) == s.files.Keys
  {
    InvNames(s);
  }

  lemma CrashPointCases(s: State, src: Name, dst: Name, howDelete: Persist, mtime: U64, how: Persist)
    requires Sane(s) && src in s.files
    ensures forall log :: CrashPoint(s, src, dst, howDelete, mtime, how, log) <==>
      || log == s.log
      || (dst in s.files && log == Delete(s, dst, howDelete).0.log)
      || log == Rename(s, src, dst, howDelete, mtime, how).0.log
  {
    hide Delete, Rename;
  }

  lemma DeletedLinks(s: State, name: Name, how: Persist)
    requires Inv(s) && name in s.files && Persists(Deleting(s, name), how)
    ensures var r := Delete(s, name, how).0;
            s.files[name] < |r.objs| && name !in r.objs[s.files[name]].meta.links
  {
    NamedLive(s, name);
    LinksDistinct(s, s.files[name]);
    RemoveFirstOf(s.objs[s.files[name]].meta.links, name);
    DeleteCases(s, name, how);
    if how.Rolled? {
      RolledFiles(Deleting(s, name), how.order);
    }
    hide Inv, Delete, Roll, Walks, RemoveFirst;
  }

  // ---------------------------------------------------------------------------------------------
  // Create
  // ---------------------------------------------------------------------------------------------

  /** Using up an id changes nothing else. */
  lemma NextIdKeeps(s: State)
    requires Inv(s)
    ensures Inv(s.(nextId := s.nextId + 1))
  {
    hide *;
    InvSane(s);
    NextIdShape(s);
    NextIdTable(MemTable(s));
    NextIdTable(SavedTable(s));
    NextIdRecoverable(s);
    InvIntro(s.(nextId := s.nextId + 1));
  }

  lemma NextIdShape(s: State)
    requires Sane(s) && DeletedMarked(s) && Tracking(s)
    ensures var s1 := s.(nextId := s.nextId + 1);
            && s1.nextId >= 1 && Sane(s1) && DeletedMarked(s1) && Tracking(s1)
            && MemTable(s1) == MemTable(s).(nextId := MemTable(s).nextId + 1)
            && SavedTable(s1) == SavedTable(s).(nextId := SavedTable(s).nextId + 1)
  {
    hide Tracks;
  }

  lemma NextIdTable(t: Table)
    requires Linked(t)
    ensures Linked(t.(nextId := t.nextId + 1))
  {
    var t' := t.(nextId := t.nextId + 1);
    assert forall n :: n in t.files ==> File(t', n) == File(t, n);
  }

  lemma NextIdRecoverable(s: State)
    requires Recoverable(s)
    ensures Recoverable(s.(nextId := s.nextId + 1))
  {
    var s1 := s.(nextId := s.nextId + 1);
    var r := Replay(s.log).table;
    assert SameTable(r, SavedTable(s));
    hide Linked;
    forall n | n in s1.files ensures n in r.files && File(r, n) == File(SavedTable(s1), n) {
      assert File(r, n) == File(SavedTable(s), n);
    }
  }

  /** The state after the creation record of a new file has been appended. */
  function Created(s: State, name: Name, o: FileState): State {
    s.(nextId := s.nextId + 1, log := s.log + [Update(o.meta)],
       files := s.files[name := |s.objs|], objs := s.objs + [o], saved := s.saved + [o.meta])
  }

  lemma CreateNewAppended(s: State, name: Name, sparse: bool, mtime: U64)
    requires name !in s.files && s.nextId < W64
    ensures CreateNew(s, name, sparse, mtime, Appended) == (Created(s, name, NewObject(s.nextId, name, sparse, mtime)), OK)
  {
    InsertOne(s.files, name, |s.objs|);
    hide InsertNames;
    var o := NewObject(s.nextId, name, sparse, mtime);
    assert UpdateOf(o) == o.meta;
  }

  lemma FreshId(s: State, name: Name, f: FileMeta)
    requires Inv(s) && name !in s.files && f.id == s.nextId
    ensures forall n :: n in s.files ==> File(MemTable(s), n).id != f.id && File(SavedTable(s), n).id != f.id
  {
    hide Recoverable, Tracks;
  }

  lemma CreatedTables(s: State, name: Name, o: FileState)
    requires Inv(s) && name !in s.files && o.meta.id == s.nextId && o.meta.links == [name]
    ensures MemTable(Created(s, name, o)) == Enter(MemTable(s), name, o.meta)
    ensures SavedTable(Created(s, name, o)) == Enter(SavedTable(s), name, o.meta)
    ensures Linked(MemTable(Created(s, name, o))) && Linked(SavedTable(Created(s, name, o)))
  {
    FreshId(s, name, o.meta);
    assert Metas(Created(s, name, o).objs) == Metas(s.objs) + [o.meta];
    InvSane(s);
    hide Inv, Linked, Recoverable, Tracks;
    EnterLinked(MemTable(s), name, o.meta);
    EnterLinked(SavedTable(s), name, o.meta);
  }

  lemma CreatedRecoverable(s: State, name: Name, o: FileState)
    requires Inv(s) && name !in s.files && o.meta.id == s.nextId && o.meta.links == [name]
    ensures Recoverable(Created(s, name, o))
  {
    FreshId(s, name, o.meta);
    CreatedTables(s, name, o);
    InvSane(s);
    RecoverableParts(s);
    hide Inv, Recoverable, Linked, DeletedMarked, Tracking;
    CreationMirrors(Replay(s.log).table, SavedTable(s), name, o.meta);
    AppendRecoverable(s, Update(o.meta), Created(s, name, o));
  }

  lemma RecoverableParts(s: State)
    requires Recoverable(s)
    ensures Replay(s.log).Recovered? && Linked(Replay(s.log).table) && SameTable(Replay(s.log).table, SavedTable(s))
  {
  }

  lemma CreatedMarked(s: State, name: Name, o: FileState)
    requires Sane(s) && DeletedMarked(s) && Tracking(s) && name !in s.files
    requires o.meta.links == [name] && o.meta.extents == [] && o.synced == 0 && !o.deleted
    ensures Sane(Created(s, name, o)) && DeletedMarked(Created(s, name, o)) && Tracking(Created(s, name, o))
  {
    var r := Created(s, name, o);
    forall k | 0 <= k < |r.objs| && !r.objs[k].deleted ensures Tracks(r.saved[k], r.objs[k]) {
      if k < |s.objs| {
        assert Tracks(s.saved[k], s.objs[k]);
      }
    }
  }

  /** A create whose record fits the current metadata zone. */
  lemma CreateAppendedOp(s: State, name: Name, sparse: bool, mtime: U64)
    requires Inv(s) && name !in s.files && s.nextId < W64
    ensures var (r, st) := CreateNew(s, name, sparse, mtime, Appended);
            st == OK && Inv(r) && r.files == s.files[name := |s.objs|]
  {
    var o := NewObject(s.nextId, name, sparse, mtime);
    CreateNewAppended(s, name, sparse, mtime);
    InvSane(s);
    assert s.nextId >= 1;
    hide Inv, Linked, Recoverable, CreateNew;
    CreatedTables(s, name, o);
    CreatedRecoverable(s, name, o);
    hide DeletedMarked, Tracking, Sane;
    CreatedMarked(s, name, o);
    InvIntro(Created(s, name, o));
  }

  /** CreateNew when the log rolls: the roll sees the table without the new file. */
  function RolledCreate(s1: State, name: Name, o: FileState, order: seq<Name>): State
    requires HandlesValid(MemTable(s1)) && Walks(order, MemTable(s1)) && |s1.saved| == |s1.objs|
  {
    var r := Roll(s1, order);
    r.(files := InsertNames(r.files, [name], |r.objs|), objs := r.objs + [o], saved := r.saved + [o.meta])
  }

  lemma CreateNewRolled(s: State, name: Name, sparse: bool, mtime: U64, order: seq<Name>)
    requires Sane(s) && s.nextId < W64 && Walks(order, MemTable(s))
    ensures var s1 := s.(nextId := s.nextId + 1);
            && Sane(s1) && Walks(order, MemTable(s1))
            && CreateNew(s, name, sparse, mtime, Rolled(order)) ==
               (RolledCreate(s1, name, NewObject(s.nextId, name, sparse, mtime), order), OK)
  {
    hide Roll, InsertNames;
  }

  lemma RolledCreateShape(s1: State, name: Name, o: FileState, order: seq<Name>)
    requires Sane(s1) && Walks(order, MemTable(s1)) && name !in s1.files && o.meta.links == [name]
    requires o.synced <= |o.meta.extents|
    ensures var r := RolledCreate(s1, name, o, order);
            && Sane(r) && r.files == s1.files[name := |s1.objs|] && |r.objs| == |s1.objs| + 1
            && r.objs[|s1.objs|] == o
            && r.log == Roll(s1, order).log
            && (forall i :: 0 <= i < |r.log| ==> !r.log[i].End?)
  {
    RolledFiles(s1, order);
    InsertOne(s1.files, name, |s1.objs|);
    RolledBounds(s1, order);
    hide InsertNames, SnapshotFiles, Walks;
  }

  lemma RolledBounds(s1: State, order: seq<Name>)
    requires Sane(s1) && Walks(order, MemTable(s1))
    ensures Sane(Roll(s1, order))
  {
    RolledFiles(s1, order);
  }

  /** A create whose record does not fit: the zone is rolled, and the snapshot is taken before the new
      file has its name. The create reports success and the file is in the table, but it is on no log: a
      crash before the next metadata sync of the file loses it. */
  lemma CreateRolledLoses(s: State, name: Name, sparse: bool, mtime: U64, order: seq<Name>)
    requires Inv(s) && name !in s.files && s.nextId < W64 && Walks(order, MemTable(s))
    ensures var (r, st) := CreateNew(s, name, sparse, mtime, Rolled(order));
            && st == OK && name in r.files
            && Replay(r.log).Recovered? && name !in Replay(r.log).table.files
  {
    var s1 := s.(nextId := s.nextId + 1);
    NextIdKeeps(s);
    InvSane(s);
    InvSane(s1);
    assert s1.nextId >= 1;
    assert NewObject(s.nextId, name, sparse, mtime).meta.links == [name];
    hide *;
    CreateNewRolled(s, name, sparse, mtime, order);
    SaneParts(s1);
    RollInv(s1, order);
    var r := Roll(s1, order);
    InvSane(r);
    RecoverableParts(r);
    RolledFiles(s1, order);
    RolledCreateShape(s1, name, NewObject(s.nextId, name, sparse, mtime), order);
    SameNamesInTable(Replay(r.log).table, r);
  }

  lemma SaneParts(s: State)
    requires Sane(s)
    ensures |s.saved| == |s.objs| && HandlesValid(MemTable(s))
    ensures forall h :: 0 <= h < |s.objs| ==> s.objs[h].synced <= |s.objs[h].meta.extents|
  {
  }

  /** Under the invariant a crash recovers exactly the names in memory. */
  lemma InvNames(s: State)
    requires Inv(s)
    ensures Replay(s.log).Recovered? && Replay(s.log).table.files.Keys == s.files.Keys
  {
    InvSane(s);
    hide *;
    RecoverableParts(s);
    SameNamesInTable(Replay(s.log).table, s);
  }

  lemma SameNamesInTable(t: Table, s: State)
    requires SameTable(t, SavedTable(s))
    ensures t.files.Keys == s.files.Keys
  {
  }

  /** So a successful create is recovered after a crash if and only if its record was appended, that is,
      if and only if the current metadata zone had room for it. */
  lemma CreateRecoveredIff(s: State, name: Name, sparse: bool, mtime: U64, how: Persist)
    requires Inv(s) && name !in s.files && s.nextId < W64
    requires CreateNew(s, name, sparse, mtime, how).1 == OK
    ensures Inv(CreateNew(s, name, sparse, mtime, how).0) <==> how.Appended?
    ensures var r := CreateNew(s, name, sparse, mtime, how).0;
            Replay(r.log).Recovered? && (name in Replay(r.log).table.files <==> how.Appended?)
  {
    var r := CreateNew(s, name, sparse, mtime, how).0;
    if how.Appended? {
      CreateAppendedOp(s, name, sparse, mtime);
      InvNames(r);
    } else {
      var s1 := s.(nextId := s.nextId + 1);
      assert Walks(how.order, MemTable(s1));
      assert Walks(how.order, MemTable(s));
      CreateRolledLoses(s, name, sparse, mtime, how.order);
      if Inv(r) {
        InvNames(r);
      }
    }
    hide *;
  }

  /** Worse, deleting such a file before its next sync appends a deletion that replay cannot match: the
      file system no longer mounts. */
  lemma CreateRolledThenDelete(s: State, name: Name, sparse: bool, mtime: U64, order: seq<Name>)
    requires Inv(s) && name !in s.files && s.nextId < W64 && Walks(order, MemTable(s))
    ensures var r := CreateNew(s, name, sparse, mtime, Rolled(order)).0;
            && Sane(r)
            && Delete(r, name, Appended).1 == OK
            && Replay(Delete(r, name, Appended).0.log) == Corrupt
  {
    var r := CreateNew(s, name, sparse, mtime, Rolled(order)).0;
    InvSane(s);
    var o := NewObject(s.nextId, name, sparse, mtime);
    assert o.meta.links == [name] && o.synced == 0;
    assert name in o.meta.links;
    hide *;
    CreateRolledLoses(s, name, sparse, mtime, order);
    CreateNewRolled(s, name, sparse, mtime, order);
    RolledCreateShape(s.(nextId := s.nextId + 1), name, o, order);
    DeletionUnmatched(r, name);
  }

  /** Deleting a name that replay does not know. */
  lemma DeletionUnmatched(r: State, name: Name)
    requires Sane(r) && name in r.files && name in r.objs[r.files[name]].meta.links
    requires Replay(r.log).Recovered? && name !in Replay(r.log).table.files
    requires forall i :: 0 <= i < |r.log| ==> !r.log[i].End?
    ensures Delete(r, name, Appended).1 == OK
    ensures Replay(Delete(r, name, Appended).0.log) == Corrupt
  {
    var rec := Deletion(r.objs[r.files[name]].meta.id, name);
    DeleteCases(r, name, Appended);
    assert DeletedSaved(MarkDeleted(Deleting(r, name), r.files[name]), r.files[name], name).log == r.log + [rec];
    assert Persists(Deleting(r, name), Appended);
    hide Delete, RemoveFirst;
    ReplayFromAppend(EMPTY, r.log, rec, false);
  }

}
