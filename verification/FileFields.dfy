/** What the operations of AquaZFS/fs/fs_aquafs.cc leave of every field of every file, in memory and on
    record; FileOps is about names and recoverability. */
module FileFields {
  import opened Coding
  import opened FileCodec
  import opened FileTable
  import opened FileOps
  import opened FileRuns

  /** A file as it is created. */
  predicate NewlyMade(m: FileMeta, id: nat, name: Name, sparse: bool, mtime: U64) {
    && m.id == id && m.links == [name] && m.extents == [] && m.size == 0 && m.extentStart == NO_EXTENT
    && m.lifetime == 0 && m.sparse == sparse && m.mtime == mtime
  }

  /** The table has it under its name. */
  predicate MadeInTable(t: Table, id: nat, name: Name, sparse: bool, mtime: U64) {
    name in t.files && t.files[name] < |t.metas| && NewlyMade(t.metas[t.files[name]], id, name, sparse, mtime)
  }

  /** So has the table that a mount makes of the log, if it has the name. */
  predicate MadeOnRecord(log: seq<Record>, id: nat, name: Name, sparse: bool, mtime: U64) {
    && Replay(log).Recovered?
    && (name in Replay(log).table.files ==> MadeInTable(Replay(log).table, id, name, sparse, mtime))
  }

  /** All other files are as they were. */
  predicate OthersKept(s: State, r: State, h: Handle) {
    && |s.objs| <= |r.objs|
    && forall k :: 0 <= k < |s.objs| && k != h ==> r.objs[k].meta == s.objs[k].meta && r.objs[k].deleted == s.objs[k].deleted
  }

  /** The data of a file, as far as the table knows it: all but its names and its time. */
  predicate SameData(m: FileMeta, m': FileMeta) {
    && m'.id == m.id && m'.size == m.size && m'.lifetime == m.lifetime && m'.extents == m.extents
    && m'.extentStart == m.extentStart && m'.sparse == m.sparse
  }

  // ---------------------------------------------------------------- create

  lemma CreatedFields(s: State, name: Name, sparse: bool, mtime: U64, how: Persist)
    requires Sane(s) && name !in s.files && s.nextId < W64 && CreateNew(s, name, sparse, mtime, how).1 == OK
    ensures var r := CreateNew(s, name, sparse, mtime, how).0;
      && r.files == s.files[name := |s.objs|] && |r.objs| == |s.objs| + 1 && r.nextId == s.nextId + 1
      && NewlyMade(r.objs[|s.objs|].meta, s.nextId, name, sparse, mtime) && !r.objs[|s.objs|].deleted
      && OthersKept(s, r, |s.objs|)
  {
    if how.Appended? {
      CreateNewAppended(s, name, sparse, mtime);
    } else {
      var s1 := s.(nextId := s.nextId + 1);
      SameTables(s, s1);
      RolledFiles(s1, how.order);
      InsertOne(s1.files, name, |s1.objs|);
      hide Roll, Walks, HandlesValid, InsertNames;
    }
  }

  lemma SameTables(s: State, s1: State)
    requires s1 == s.(nextId := s1.nextId)
    ensures HandlesValid(MemTable(s1)) <==> HandlesValid(MemTable(s))
  {
  }

  /** And on record, if it is there. */
  lemma CreatedFound(s: State, name: Name, sparse: bool, mtime: U64, how: Persist)
    requires Inv(s) && name !in s.files && s.nextId < W64 && CreateNew(s, name, sparse, mtime, how).1 == OK
    ensures MadeOnRecord(CreateNew(s, name, sparse, mtime, how).0.log, s.nextId, name, sparse, mtime)
    ensures MadeInTable(MemTable(CreateNew(s, name, sparse, mtime, how).0), s.nextId, name, sparse, mtime)
  {
    CreateRecoveredIff(s, name, sparse, mtime, how);
    InvSane(s);
    CreatedFields(s, name, sparse, mtime, how);
    if how.Appended? {
      CreateAppendedOp(s, name, sparse, mtime);
      CreateNewAppended(s, name, sparse, mtime);
      var r := CreateNew(s, name, sparse, mtime, how).0;
      InvSane(r);
      RecoverableParts(r);
      hide Inv, Linked, CreateNew, Replay;
      SameFile(Replay(r.log).table, SavedTable(r), name);
    }
  }

  // ---------------------------------------------------------------- syncs

  /** A metadata sync stamps the file at most; if it succeeds the record has the file as it is in memory. */
  lemma SyncFields(s: State, h: Handle, replace: bool, mtime: U64, how: Persist)
    requires h < |s.objs| == |s.saved| && s.objs[h].synced <= |s.objs[h].meta.extents| && !s.objs[h].deleted && HasName(s, h)
    ensures var (r, st) := SyncMeta(s, h, replace, mtime, how);
      && |r.objs| == |r.saved| == |s.objs| && r.files == s.files && OthersKept(s, r, h)
      && r.objs[h].meta == (if replace then s.objs[h].meta else s.objs[h].meta.(mtime := mtime))
      && r.objs[h].deleted == s.objs[h].deleted
      && (st == OK ==> r.saved[h] == r.objs[h].meta)
  {
    SyncMetaCases(s, h, replace, mtime, how);
    var s2 := Stamped(s, h, replace, mtime);
    assert s2.objs == s.objs[h := s2.objs[h]];
    hide SyncMeta, UpdateOf;
    if Persists(s2, how) && how.Rolled? {
      RolledFiles(s2, how.order);
      NamedSaved(s, s2, h, how.order);
      hide Roll;
    }
  }

  lemma NamedSaved(s: State, s2: State, h: Handle, order: seq<Name>)
    requires h < |s2.objs| == |s2.saved| && HandlesValid(MemTable(s2)) && Walks(order, MemTable(s2))
    requires HasName(s, h) && s2.files == s.files
    ensures Roll(s2, order).saved[h] == s2.objs[h].meta
  {
    assert HasName(s2, h);
  }

  lemma LiveNamed(s: State, h: Handle)
    requires Inv(s) && h < |s.objs| && !s.objs[h].deleted
    ensures HasName(s, h) && |s.saved| == |s.objs| && s.objs[h].synced <= |s.objs[h].meta.extents|
  {
    LinksDistinct(s, h);
    InvSane(s);
    SaneParts(s);
    var n := s.objs[h].meta.links[0];
    assert n in s.objs[h].meta.links;
    assert n in s.files && s.files[n] == h;
  }

  lemma SyncedFields(s: State, h: Handle, mtime: U64, how: Persist)
    requires Inv(s) && h < |s.objs| && !s.objs[h].deleted
    ensures |s.saved| == |s.objs| && s.objs[h].synced <= |s.objs[h].meta.extents|
    ensures var (r, st) := SyncMeta(s, h, false, mtime, how);
      && |r.objs| == |r.saved| == |s.objs| && r.files == s.files && OthersKept(s, r, h)
      && r.objs[h].meta == s.objs[h].meta.(mtime := mtime) && (st == OK ==> r.saved[h] == r.objs[h].meta)
  {
    LiveNamed(s, h);
    SyncFields(s, h, false, mtime, how);
    hide Inv, SyncMeta;
  }

  /** A replacement changes the extents, to the ones given, and nothing else. */
  lemma ReplacedFields(s: State, h: Handle, extents: seq<Extent>, how: Persist)
    requires Inv(s) && h < |s.objs| && !s.objs[h].deleted
    ensures |s.saved| == |s.objs|
    ensures var (r, st) := ReplaceExtents(s, h, extents, how);
      && |r.objs| == |r.saved| == |s.objs| && r.files == s.files && OthersKept(s, r, h)
      && r.objs[h].meta == s.objs[h].meta.(extents := extents) && (st == OK ==> r.saved[h] == r.objs[h].meta)
  {
    hide Inv, SyncMeta, HasName;
    LiveNamed(s, h);
    var s1 := s.(objs := s.objs[h := s.objs[h].(meta := s.objs[h].meta.(extents := extents), synced := 0)]);
    NamesSame(s, s1, h);
    SyncFields(s1, h, true, 0, how);
  }

  lemma NamesSame(s: State, s1: State, h: Handle)
    requires s1.files == s.files
    ensures HasName(s1, h) <==> HasName(s, h)
  {
  }

  // ---------------------------------------------------------------- names

  /** A change of names, and then the sync. */
  lemma SyncedNames(s: State, s1: State, h: Handle, links: seq<Name>, mtime: U64, how: Persist)
    requires h < |s.objs| == |s.saved| == |s1.saved| && s1.objs == s.objs[h := WithLinks(s.objs[h], links)] && HasName(s1, h)
    requires s.objs[h].synced <= |s.objs[h].meta.extents| && !s.objs[h].deleted && SyncMeta(s1, h, false, mtime, how).1 == OK
    ensures var r := SyncMeta(s1, h, false, mtime, how).0;
      && |r.objs| == |r.saved| == |s.objs| && OthersKept(s, r, h)
      && SameData(s.objs[h].meta, r.objs[h].meta) && r.objs[h].meta.mtime == mtime && r.saved[h] == r.objs[h].meta
  {
    hide SyncMeta, HasName;
    SyncFields(s1, h, false, mtime, how);
  }

  lemma NameLeads(s: State, n: Name, h: Handle)
    requires n in s.files && s.files[n] == h
    ensures HasName(s, h)
  {
  }

  /** A link leaves all data as it was, and the record has the file as it is in memory. */
  lemma LinkedFields(s: State, name: Name, link: Name, mtime: U64, how: Persist)
    requires Inv(s) && name in s.files && link !in s.files && Sane(s) && Link(s, name, link, mtime, how).1 == OK
    ensures var r := Link(s, name, link, mtime, how).0; var h := s.files[name];
      && h < |s.objs| == |r.objs| == |r.saved| && OthersKept(s, r, h)
      && SameData(s.objs[h].meta, r.objs[h].meta) && r.objs[h].meta.mtime == mtime && r.saved[h] == r.objs[h].meta
  {
    hide Inv, SyncMeta, HasName, Sane, HandlesValid, OthersKept, SameData;
    SaneParts(s);
    NamedLive(s, name);
    var h := s.files[name];
    var s1 := Linking(s, h, link);
    NameLeads(s1, link, h);
    SyncedNames(s, s1, h, s.objs[h].meta.links + [link], mtime, how);
  }

  lemma RenamedFields(s: State, src: Name, dst: Name, mtime: U64, how: Persist)
    requires Inv(s) && src in s.files && dst !in s.files && s.files[src] < |s.objs| == |s.saved|
    requires s.objs[s.files[src]].synced <= |s.objs[s.files[src]].meta.extents|
    requires RenameTo(s, s.files[src], src, dst, mtime, how).1 == OK
    ensures var r := RenameTo(s, s.files[src], src, dst, mtime, how).0; var h := s.files[src];
      && |r.objs| == |r.saved| == |s.objs| && OthersKept(s, r, h)
      && SameData(s.objs[h].meta, r.objs[h].meta) && r.objs[h].meta.mtime == mtime && r.saved[h] == r.objs[h].meta
  {
    hide Inv, SyncMeta, HasName, RemoveFirst, InsertNames, OthersKept, SameData;
    NamedLive(s, src);
    var h := s.files[src];
    var s1 := Renaming(s, h, src, dst);
    InsertOne(s.files - {src}, dst, h);
    NameLeads(s1, dst, h);
    SyncedNames(s, s1, h, RemoveFirst(s.objs[h].meta.links, src) + [dst], mtime, how);
  }

  /** A delete leaves all data as it was. */
  lemma DeletedFields(s: State, name: Name, how: Persist)
    requires Inv(s) && name in s.files && Persists(Deleting(s, name), how)
    ensures Sane(s) && s.files[name] < |s.objs|
    ensures var r := Delete(s, name, how).0; var h := s.files[name];
      && |r.objs| == |s.objs| && OthersKept(s, r, h)
      && SameData(s.objs[h].meta, r.objs[h].meta) && r.objs[h].meta.mtime == s.objs[h].meta.mtime
  {
    hide *;
    InvSane(s);
    SaneParts(s);
    NamedLive(s, name);
    DeleteCases(s, name, how);
    PersistsCases(Deleting(s, name), how);
    if how.Rolled? {
      DeletedMarks(s, name, how.order);
    } else {
      DeletedMark(s, name);
    }
  }

  lemma DeletedMarks(s: State, name: Name, order: seq<Name>)
    requires name in s.files && s.files[name] < |s.objs|
    requires var s1 := Deleting(s, name); HandlesValid(MemTable(s1)) && Walks(order, MemTable(s1)) && |s1.saved| == |s1.objs|
    ensures var r := MarkDeleted(Roll(Deleting(s, name), order), s.files[name]); var h := s.files[name];
      && |r.objs| == |s.objs| && OthersKept(s, r, h)
      && SameData(s.objs[h].meta, r.objs[h].meta) && r.objs[h].meta.mtime == s.objs[h].meta.mtime
  {
    RolledFiles(Deleting(s, name), order);
    hide Roll, Walks, HandlesValid, RemoveFirst;
  }

  lemma DeletedMark(s: State, name: Name)
    requires name in s.files && s.files[name] < |s.objs| == |s.saved|
    ensures |MarkDeleted(Deleting(s, name), s.files[name]).objs| == |s.saved|
    ensures var r := DeletedSaved(MarkDeleted(Deleting(s, name), s.files[name]), s.files[name], name); var h := s.files[name];
      && |r.objs| == |s.objs| && OthersKept(s, r, h)
      && SameData(s.objs[h].meta, r.objs[h].meta) && r.objs[h].meta.mtime == s.objs[h].meta.mtime
  {
    hide RemoveFirst;
  }

  /** A rename, over another file or not, leaves all data of the file as it was, and all other files but the
      one that had the name. */
  lemma RenameFields(s: State, src: Name, dst: Name, howDelete: Persist, mtime: U64, how: Persist)
    requires Inv(s) && src in s.files && src != dst && RenamePersists(s, src, dst, howDelete, mtime, how)
    ensures Sane(s) && s.files[src] < |s.objs|
    ensures var r := Rename(s, src, dst, howDelete, mtime, how).0; var h := s.files[src];
      && |r.objs| == |r.saved| == |s.objs|
      && SameData(s.objs[h].meta, r.objs[h].meta) && r.objs[h].meta.mtime == mtime && r.saved[h] == r.objs[h].meta
      && forall k :: 0 <= k < |s.objs| && k != h ==>
           && SameData(s.objs[k].meta, r.objs[k].meta) && r.objs[k].meta.mtime == s.objs[k].meta.mtime
           && ((dst in s.files && s.files[dst] == k) || r.objs[k].meta == s.objs[k].meta)
  {
    hide *;
    InvSane(s);
    SaneParts(s);
    NamedLive(s, src);
    RenameCases(s, src, dst, howDelete, mtime, how);
    RenamePersistsCases(s, src, dst, howDelete, mtime, how);
    RenameOp(s, src, dst, howDelete, mtime, how);
    if dst in s.files {
      DeleteOp(s, dst, howDelete);
      var s0 := Delete(s, dst, howDelete).0;
      DeletedFields(s, dst, howDelete);
      InvSane(s0);
      SaneParts(s0);
      RenamedFields(s0, src, dst, mtime, how);
      RenameChain(s, s0, RenameTo(s0, s.files[src], src, dst, mtime, how).0, s.files[src], s.files[dst]);
    } else {
      RenamedFields(s, src, dst, mtime, how);
      RenameAlone(s, RenameTo(s, s.files[src], src, dst, mtime, how).0, s.files[src]);
    }
  }

  lemma RenameChain(s: State, s0: State, r: State, h: Handle, d: Handle)
    requires h < |s.objs| == |s0.objs| == |r.objs| && d < |s.objs| && OthersKept(s, s0, d) && OthersKept(s0, r, h)
    requires SameData(s.objs[d].meta, s0.objs[d].meta) && s0.objs[d].meta.mtime == s.objs[d].meta.mtime
    requires SameData(s0.objs[h].meta, r.objs[h].meta)
    ensures SameData(s.objs[h].meta, r.objs[h].meta)
    ensures forall k :: 0 <= k < |s.objs| && k != h ==>
      && SameData(s.objs[k].meta, r.objs[k].meta) && r.objs[k].meta.mtime == s.objs[k].meta.mtime
      && (d == k || r.objs[k].meta == s.objs[k].meta)
  {
  }

  lemma RenameAlone(s: State, r: State, h: Handle)
    requires h < |s.objs| == |r.objs| && OthersKept(s, r, h)
    ensures forall k :: 0 <= k < |s.objs| && k != h ==>
      && SameData(s.objs[k].meta, r.objs[k].meta) && r.objs[k].meta.mtime == s.objs[k].meta.mtime && r.objs[k].meta == s.objs[k].meta
  {
  }
}
