/** The name table of AquaZFS/fs/fs_aquafs.cc: names map to file objects, every file object lists its
    names, and the metadata log, replayed from its snapshot, rebuilds both. File objects live at
    handles, so that two names of one file share an object exactly when they share a handle. */
module FileTable {
  import opened Coding
  import opened FileCodec

  type Handle = nat

  /** `files_`, the file objects, and `next_file_id_`. */
  datatype Table = Table(files: map<Name, Handle>, metas: seq<FileMeta>, nextId: nat)

  const EMPTY: Table := Table(map[], [], 1)

  /** The object has a name. */
  predicate Live(t: Table, h: Handle) {
    exists n :: n in t.files && t.files[n] == h
  }

  predicate Distinct(names: seq<Name>) {
    forall i, j :: 0 <= i < j < |names| ==> names[i] != names[j]
  }

  /** Every name leads to an object. */
  predicate HandlesValid(t: Table) {
    forall n :: n in t.files ==> t.files[n] < |t.metas|
  }

  /** The file under a name. */
  function File(t: Table, n: Name): FileMeta
    requires HandlesValid(t) && n in t.files
  {
    t.metas[t.files[n]]
  }

  /** The two indices agree: a name maps to an object exactly when the object lists the name, once. */
  ghost predicate Indexed(t: Table)
    requires HandlesValid(t)
  {
    && (forall n :: n in t.files ==> n in File(t, n).links && Distinct(File(t, n).links))
    && (forall n, m :: n in t.files && m in File(t, n).links ==> m in t.files && t.files[m] == t.files[n])
  }

  /** Live ids are unique and below the next one. */
  ghost predicate IdsUnique(t: Table)
    requires HandlesValid(t)
  {
    && (forall n, m :: n in t.files && m in t.files && File(t, n).id == File(t, m).id ==> t.files[n] == t.files[m])
    && (forall n :: n in t.files ==> File(t, n).id < t.nextId)
  }

  ghost predicate Linked(t: Table) {
    HandlesValid(t) && Indexed(t) && IdsUnique(t)
  }

  /** The same names and the same file under each name. Between linked tables this includes the same
      sharing, see SharingAgrees. */
  ghost predicate SameTable(t: Table, s: Table) {
    && HandlesValid(t) && HandlesValid(s)
    && t.files.Keys == s.files.Keys
    && (forall n :: n in s.files ==> n in t.files && File(t, n) == File(s, n))
    && t.nextId <= s.nextId
  }

  lemma SharingAgrees(t: Table, s: Table, n: Name, m: Name)
    requires Linked(t) && Linked(s) && SameTable(t, s) && n in s.files && m in s.files
    ensures t.files[n] == t.files[m] <==> s.files[n] == s.files[m]
  {
    assert File(t, n) == File(s, n) && File(t, m) == File(s, m);
  }

  // ---------------------------------------------------------------------------------------------
  // Replay
  // ---------------------------------------------------------------------------------------------

  /** std::map::insert for each name in turn: a name that is present keeps its object. */
  function InsertNames(files: map<Name, Handle>, names: seq<Name>, h: Handle): map<Name, Handle>
    decreases |names|
  {
    if names == [] then files
    else InsertNames(if names[0] in files then files else files[names[0] := h], names[1..], h)
  }

  /** Erases each name in turn; every one must be present. */
  function EraseNames(files: map<Name, Handle>, names: seq<Name>): Result<map<Name, Handle>>
    decreases |names|
  {
    if names == [] then Ok(files)
    else if names[0] !in files then Corruption
    else EraseNames(files - {names[0]}, names[1..])
  }

  /** The object of that id among the files that have a name. Live ids are unique, so the order of the
      search does not matter. */
  function FindById(t: Table, id: nat, k: nat): (r: Option<Handle>)
    ensures r.Some? ==> k <= r.value < |t.metas| && Live(t, r.value) && t.metas[r.value].id == id
    decreases |t.metas| - k
  {
    if k >= |t.metas| then None
    else if t.metas[k].id == id && Live(t, k) then Some(k)
    else FindById(t, id, k + 1)
  }

  /** ZoneFile::MergeUpdate. */
  function Merge(f: FileMeta, u: FileMeta, replace: bool): FileMeta {
    f.(size := u.size, lifetime := u.lifetime, mtime := u.mtime,
       extents := (if replace then [] else f.extents) + u.extents,
       extentStart := u.extentStart, sparse := u.sparse, links := u.links)
  }

  function AtLeast(a: nat, b: nat): nat { if a < b then b else a }

  /** DecodeFileUpdateFrom. A new file enters under its first name only. */
  function ReplayUpdate(t: Table, u: FileMeta, replace: bool): Result<Table> {
    var nextId := AtLeast(t.nextId, u.id + 1);
    match FindById(t, u.id, 0)
    case Some(h) =>
      (match EraseNames(t.files, t.metas[h].links)
       case Corruption => Corruption
       case Ok(files) =>
         Ok(Table(InsertNames(files, u.links, h), t.metas[h := Merge(t.metas[h], u, replace)], nextId)))
    case None =>
      if u.links == [] then Corruption
      else Ok(Table(InsertNames(t.files, u.links[..1], |t.metas|), t.metas + [u], nextId))
  }

  function RemoveFirst(names: seq<Name>, n: Name): seq<Name> {
    if names == [] then [] else if names[0] == n then names[1..] else [names[0]] + RemoveFirst(names[1..], n)
  }

  /** DecodeFileDeletionFrom. */
  function ReplayDeletion(t: Table, id: nat, name: Name): Result<Table> {
    if name !in t.files || t.files[name] >= |t.metas| then Corruption
    else
      var h := t.files[name];
      if t.metas[h].id != id || name !in t.metas[h].links then Corruption
      else Ok(t.(files := t.files - {name},
                 metas := t.metas[h := t.metas[h].(links := RemoveFirst(t.metas[h].links, name))]))
  }

  /** DecodeSnapshotFrom: one object per entry; a name keeps the first object that claims it. */
  function ReplaySnapshot(t: Table, files: seq<FileMeta>): Table
    decreases |files|
  {
    if files == [] then t
    else
      ReplaySnapshot(
        Table(InsertNames(t.files, files[0].links, |t.metas|), t.metas + [files[0]], AtLeast(t.nextId, files[0].id + 1)),
        files[1..])
  }

  function ReplayRecord(t: Table, r: Record): Result<Table> {
    match r
    case Snapshot(files) => Ok(ReplaySnapshot(Table(map[], [], t.nextId), files))
    case Update(f) => ReplayUpdate(t, f, false)
    case Replace(f) => ReplayUpdate(t, f, true)
    case Deletion(id, name) => ReplayDeletion(t, id, name)
    case End => Ok(t)
  }

  datatype Recovery = Recovered(table: Table) | NoSnapshot | Corrupt

  /** RecoverFrom: replays up to the end record; without any snapshot the log is not a valid one. */
  function ReplayFrom(t: Table, log: seq<Record>, seen: bool): Recovery
    decreases |log|
  {
    if log == [] || log[0].End? then (if seen then Recovered(t) else NoSnapshot)
    else
      match ReplayRecord(t, log[0])
      case Corruption => Corrupt
      case Ok(t') => ReplayFrom(t', log[1..], seen || log[0].Snapshot?)
  }

  function Replay(log: seq<Record>): Recovery {
    ReplayFrom(EMPTY, log, false)
  }

  lemma {:induction false} ReplayFromAppend(t: Table, log: seq<Record>, r: Record, seen: bool)
    requires !r.End? && ReplayFrom(t, log, seen).Recovered?
    requires forall i :: 0 <= i < |log| ==> !log[i].End?
    ensures ReplayFrom(t, log + [r], seen) ==
            match ReplayRecord(ReplayFrom(t, log, seen).table, r) { case Corruption => Corrupt case Ok(t') => Recovered(t') }
    decreases |log|
  {
    if log == [] {
      assert (log + [r])[1..] == [];
    } else {
      assert (log + [r])[1..] == log[1..] + [r];
      assert (log + [r])[0] == log[0];
      match ReplayRecord(t, log[0])
      case Corruption =>
      case Ok(t') => ReplayFromAppend(t', log[1..], r, seen || log[0].Snapshot?);
    }
  }

  // ---------------------------------------------------------------------------------------------
  // The list and map operations
  // ---------------------------------------------------------------------------------------------

  lemma {:induction false} InsertNamesAt(files: map<Name, Handle>, names: seq<Name>, h: Handle)
    ensures var r := InsertNames(files, names, h);
            forall n :: n in r <==> n in files || n in names
    ensures var r := InsertNames(files, names, h);
            forall n :: n in r ==> r[n] == if n in files then files[n] else h
    decreases |names|
  {
    if names != [] {
      var files' := if names[0] in files then files else files[names[0] := h];
      InsertNamesAt(files', names[1..], h);
      assert forall n :: n in names <==> n == names[0] || n in names[1..];
    }
  }

  function Without(files: map<Name, Handle>, names: seq<Name>): map<Name, Handle> {
    map n | n in files && n !in names :: files[n]
  }

  lemma {:induction false} EraseNamesAt(files: map<Name, Handle>, names: seq<Name>)
    requires Distinct(names) && forall n :: n in names ==> n in files
    ensures EraseNames(files, names) == Ok(Without(files, names))
    decreases |names|
  {
    if names == [] {
      assert Without(files, names) == files;
    } else {
      var rest := names[1..];
      assert forall n :: n in names <==> n == names[0] || n in rest;
      assert names[0] !in rest;
      EraseNamesAt(files - {names[0]}, rest);
      assert Without(files - {names[0]}, rest) == Without(files, names);
    }
  }

  lemma DistinctCons(n: Name, names: seq<Name>)
    requires Distinct(names) && n !in names
    ensures Distinct([n] + names)
  {
  }

  lemma {:induction false} RemoveFirstOf(names: seq<Name>, n: Name)
    requires Distinct(names) && n in names
    ensures Distinct(RemoveFirst(names, n))
    ensures forall m :: m in RemoveFirst(names, n) <==> m in names && m != n
    decreases |names|
  {
    var rest := names[1..];
    assert forall m :: m in names <==> m == names[0] || m in rest;
    assert names[0] !in rest;
    if names[0] != n {
      RemoveFirstOf(rest, n);
      var r := RemoveFirst(rest, n);
      assert RemoveFirst(names, n) == [names[0]] + r;
      DistinctCons(names[0], r);
    }
  }

  lemma {:induction false} FindByIdFinds(t: Table, id: nat, k: nat, h: Handle)
    requires k <= h < |t.metas| && Live(t, h) && t.metas[h].id == id
    requires forall j :: 0 <= j < |t.metas| && Live(t, j) && t.metas[j].id == id ==> j == h
    ensures FindById(t, id, k) == Some(h)
    decreases h - k
  {
    if k < h {
      FindByIdFinds(t, id, k + 1, h);
    }
  }

  lemma {:induction false} FindByIdMisses(t: Table, id: nat, k: nat)
    requires forall j :: 0 <= j < |t.metas| && Live(t, j) ==> t.metas[j].id != id
    ensures FindById(t, id, k) == None
    decreases |t.metas| - k
  {
    if k < |t.metas| {
      FindByIdMisses(t, id, k + 1);
    }
  }

  // ---------------------------------------------------------------------------------------------
  // One record replayed on a table that mirrors the saved one
  // ---------------------------------------------------------------------------------------------

  lemma MirrorById(t: Table, n: Name)
    requires Linked(t) && n in t.files
    ensures FindById(t, File(t, n).id, 0) == Some(t.files[n])
  {
    var h := t.files[n];
    assert Live(t, h);
    forall j | 0 <= j < |t.metas| && Live(t, j) && t.metas[j].id == t.metas[h].id ensures j == h {
      var m :| m in t.files && t.files[m] == j;
      assert File(t, m).id == File(t, n).id;
    }
    FindByIdFinds(t, t.metas[h].id, 0, h);
  }

  /** The table after object `h` has become `f` and goes by the names that `f` lists, and no others. */
  function Retarget(s: Table, h: Handle, f: FileMeta): Table
    requires h < |s.metas|
  {
    Table((map n | n in s.files && s.files[n] != h :: s.files[n]) + (map n | n in f.links :: h), s.metas[h := f], s.nextId)
  }

  lemma RetargetAt(s: Table, h: Handle, f: FileMeta)
    requires h < |s.metas| && HandlesValid(s)
    ensures var r := Retarget(s, h, f);
            && HandlesValid(r)
            && r.nextId == s.nextId
            && (forall n :: n in r.files <==> n in f.links || (n in s.files && s.files[n] != h))
            && (forall n :: n in r.files ==>
                  (if n in f.links then r.files[n] == h && File(r, n) == f
                   else n in s.files && r.files[n] == s.files[n] != h && File(r, n) == File(s, n)))
  {
  }

  /** `names` may become the names of `h`: each is free or already its own. */
  predicate Available(s: Table, h: Handle, names: seq<Name>) {
    Distinct(names) && forall n :: n in names ==> n !in s.files || s.files[n] == h
  }

  lemma RetargetOwns(s: Table, h: Handle, f: FileMeta)
    requires HandlesValid(s) && Indexed(s) && h < |s.metas| && Available(s, h, f.links)
    ensures HandlesValid(Retarget(s, h, f))
    ensures var r := Retarget(s, h, f);
            forall n, m :: n in r.files && m in File(r, n).links ==> m in r.files && r.files[m] == r.files[n]
  {
    var r := Retarget(s, h, f);
    RetargetAt(s, h, f);
    hide Retarget;
    forall n, m | n in r.files && m in File(r, n).links ensures m in r.files && r.files[m] == r.files[n] {
      if n !in f.links {
        assert m in s.files && s.files[m] == s.files[n];
      }
    }
  }

  lemma RetargetIndexed(s: Table, h: Handle, f: FileMeta)
    requires HandlesValid(s) && Indexed(s) && h < |s.metas| && Available(s, h, f.links)
    ensures HandlesValid(Retarget(s, h, f)) && Indexed(Retarget(s, h, f))
  {
    RetargetOwns(s, h, f);
    RetargetAt(s, h, f);
    hide Retarget;
  }

  lemma RetargetIds(s: Table, h: Handle, f: FileMeta)
    requires HandlesValid(s) && IdsUnique(s) && h < |s.metas|
    requires f.links != [] ==> f.id < s.nextId && forall n :: n in s.files && File(s, n).id == f.id ==> s.files[n] == h
    ensures HandlesValid(Retarget(s, h, f)) && IdsUnique(Retarget(s, h, f))
  {
    var r := Retarget(s, h, f);
    RetargetAt(s, h, f);
    hide Retarget;
  }

  lemma RetargetLinked(s: Table, h: Handle, f: FileMeta)
    requires Linked(s) && h < |s.metas| && Available(s, h, f.links)
    requires f.links != [] ==> f.id < s.nextId && forall n :: n in s.files && File(s, n).id == f.id ==> s.files[n] == h
    ensures Linked(Retarget(s, h, f))
  {
    hide Retarget, Indexed, IdsUnique;
    RetargetIndexed(s, h, f);
    RetargetIds(s, h, f);
  }

  lemma RetargetSame(t: Table, s: Table, k: Handle, h: Handle, f: FileMeta)
    requires SameTable(t, s) && k < |t.metas| && h < |s.metas|
    requires forall n :: n in s.files ==> (t.files[n] == k <==> s.files[n] == h)
    ensures SameTable(Retarget(t, k, f), Retarget(s, h, f))
  {
    RetargetAt(t, k, f);
    RetargetAt(s, h, f);
    RetargetSameNames(t, s, k, h, f);
    var t', s' := Retarget(t, k, f), Retarget(s, h, f);
    hide Retarget, HandlesValid;
    forall n | n in s'.files ensures n in t'.files && File(t', n) == File(s', n) {
      if n !in f.links {
        assert File(t, n) == File(s, n);
      }
    }
  }

  lemma RetargetSameNames(t: Table, s: Table, k: Handle, h: Handle, f: FileMeta)
    requires SameTable(t, s) && k < |t.metas| && h < |s.metas|
    requires forall n :: n in s.files ==> (t.files[n] == k <==> s.files[n] == h)
    ensures Retarget(t, k, f).files.Keys == Retarget(s, h, f).files.Keys
  {
  }

  /** Without its own names and with the new ones, the map is that of the retargeted table. */
  lemma RenamedFiles(t: Table, n: Name, f: FileMeta)
    requires HandlesValid(t) && Indexed(t) && n in t.files && Available(t, t.files[n], f.links)
    ensures EraseNames(t.files, File(t, n).links) == Ok(Without(t.files, File(t, n).links))
    ensures InsertNames(Without(t.files, File(t, n).links), f.links, t.files[n]) == Retarget(t, t.files[n], f).files
  {
    OwnLinks(t, n);
    var links := File(t, n).links;
    EraseNamesAt(t.files, links);
    InsertedFiles(t, t.files[n], links, f);
  }

  lemma InsertedFiles(t: Table, k: Handle, links: seq<Name>, f: FileMeta)
    requires k < |t.metas| && Available(t, k, f.links)
    requires forall m :: m in links <==> m in t.files && t.files[m] == k
    ensures InsertNames(Without(t.files, links), f.links, k) == Retarget(t, k, f).files
  {
    InsertNamesAt(Without(t.files, links), f.links, k);
    hide InsertNames;
  }

  /** On a linked table, an update or replace record of a known file renames and rewrites that object. */
  lemma ReplayUpdateKnown(t: Table, n: Name, u: FileMeta, replace: bool)
    requires Linked(t) && n in t.files && u.id == File(t, n).id
    requires Available(t, t.files[n], u.links)
    ensures ReplayUpdate(t, u, replace) == Ok(Retarget(t, t.files[n], Merge(File(t, n), u, replace)))
  {
    var f := Merge(File(t, n), u, replace);
    MirrorById(t, n);
    MergeLinks(File(t, n), u, replace);
    RenamedFiles(t, n, f);
    assert File(t, n).id < t.nextId;
    hide InsertNames, EraseNames, FindById, Merge, Indexed, IdsUnique;
  }

  lemma MergeLinks(f: FileMeta, u: FileMeta, replace: bool)
    ensures Merge(f, u, replace).links == u.links && Merge(f, u, replace).id == f.id
  {
  }

  lemma OwnNames(t: Table, s: Table, n: Name)
    requires Linked(t) && Linked(s) && SameTable(t, s) && n in s.files
    ensures forall m :: m in s.files ==> (t.files[m] == t.files[n] <==> s.files[m] == s.files[n])
  {
    forall m | m in s.files ensures t.files[m] == t.files[n] <==> s.files[m] == s.files[n] {
      SharingAgrees(t, s, m, n);
    }
  }

  /** Replaying an update or replace record of a file that the replayed table knows. */
  lemma UpdateMirrors(t: Table, s: Table, n: Name, u: FileMeta, replace: bool)
    requires Linked(t) && Linked(s) && SameTable(t, s)
    requires n in s.files && u.id == File(s, n).id
    requires Available(s, s.files[n], u.links)
    ensures var s' := Retarget(s, s.files[n], Merge(File(s, n), u, replace));
            && Linked(s')
            && ReplayUpdate(t, u, replace).Ok?
            && Linked(ReplayUpdate(t, u, replace).value)
            && SameTable(ReplayUpdate(t, u, replace).value, s')
  {
    var h, k := s.files[n], t.files[n];
    var f := Merge(File(s, n), u, replace);
    forall m | m in u.links ensures m !in t.files || t.files[m] == k {
      assert m in t.files ==> m in s.files;
    }
    ReplayUpdateKnown(t, n, u, replace);
    RetargetLinked(s, h, f);
    RetargetLinked(t, k, f);
    OwnNames(t, s, n);
    RetargetSame(t, s, k, h, f);
  }

  /** A new object under its first name. */
  function Enter(s: Table, name: Name, f: FileMeta): Table {
    Table(s.files[name := |s.metas|], s.metas + [f], AtLeast(s.nextId, f.id + 1))
  }

  lemma EnterLinked(s: Table, name: Name, f: FileMeta)
    requires Linked(s) && name !in s.files && f.links == [name]
    requires forall n :: n in s.files ==> File(s, n).id != f.id
    ensures Linked(Enter(s, name, f))
  {
    var r := Enter(s, name, f);
    assert forall n :: n in s.files ==> File(r, n) == File(s, n);
    assert File(r, name) == f;
    forall n, m | n in r.files && m in File(r, n).links ensures m in r.files && r.files[m] == r.files[n] {
      if n != name {
        assert m in File(s, n).links;
      }
    }
  }

  /** Replaying the record that created a file. */
  lemma CreationMirrors(t: Table, s: Table, name: Name, f: FileMeta)
    requires Linked(t) && Linked(s) && SameTable(t, s)
    requires name !in s.files && f.links == [name]
    requires forall n :: n in s.files ==> File(s, n).id != f.id
    ensures ReplayUpdate(t, f, false) == Ok(Enter(t, name, f))
    ensures Linked(Enter(t, name, f)) && Linked(Enter(s, name, f))
    ensures SameTable(Enter(t, name, f), Enter(s, name, f))
  {
    ReplayUpdateNew(t, s, name, f);
    EnterLinked(t, name, f);
    EnterLinked(s, name, f);
    EnterSame(t, s, name, f);
  }

  lemma EnterAt(s: Table, name: Name, f: FileMeta)
    requires HandlesValid(s) && name !in s.files
    ensures var r := Enter(s, name, f);
            && HandlesValid(r) && r.files.Keys == s.files.Keys + {name}
            && File(r, name) == f
            && forall n :: n in s.files ==> File(r, n) == File(s, n)
  {
  }

  lemma EnterSame(t: Table, s: Table, name: Name, f: FileMeta)
    requires SameTable(t, s) && name !in s.files
    ensures SameTable(Enter(t, name, f), Enter(s, name, f))
  {
    EnterAt(t, name, f);
    EnterAt(s, name, f);
    var t', s' := Enter(t, name, f), Enter(s, name, f);
    assert t'.nextId <= s'.nextId;
    hide Enter, HandlesValid;
    forall n | n in s'.files ensures n in t'.files && File(t', n) == File(s', n) {
      if n != name { assert File(t, n) == File(s, n); }
    }
  }

  lemma ReplayUpdateNew(t: Table, s: Table, name: Name, f: FileMeta)
    requires Linked(t) && Linked(s) && SameTable(t, s)
    requires name !in s.files && f.links == [name]
    requires forall n :: n in s.files ==> File(s, n).id != f.id
    ensures ReplayUpdate(t, f, false) == Ok(Enter(t, name, f))
    ensures forall n :: n in t.files ==> File(t, n).id != f.id
  {
    forall n | n in t.files ensures File(t, n).id != f.id {
      assert File(t, n) == File(s, n);
    }
    forall j | 0 <= j < |t.metas| && Live(t, j) ensures t.metas[j].id != f.id {
      var n :| n in t.files && t.files[n] == j;
      assert File(t, n).id != f.id;
    }
    FindByIdMisses(t, f.id, 0);
    InsertNamesAt(t.files, f.links[..1], |t.metas|);
    assert InsertNames(t.files, f.links[..1], |t.metas|) == t.files[name := |t.metas|];
  }

  /** One name gone from the table and from its object. */
  function Unlink(s: Table, name: Name): Table
    requires HandlesValid(s) && name in s.files
  {
    Retarget(s, s.files[name], File(s, name).(links := RemoveFirst(File(s, name).links, name)))
  }

  lemma UnlinkIsErase(s: Table, name: Name)
    requires Linked(s) && name in s.files
    ensures Unlink(s, name).files == s.files - {name}
  {
    var h := s.files[name];
    var f := File(s, name);
    var left := RemoveFirst(f.links, name);
    RemoveFirstOf(f.links, name);
    OwnLinks(s, name);
    hide Linked, RemoveFirst;
  }

  /** An object lists exactly the names that lead to it. */
  lemma OwnLinks(s: Table, name: Name)
    requires HandlesValid(s) && Indexed(s) && name in s.files
    ensures forall m :: m in File(s, name).links <==> m in s.files && s.files[m] == s.files[name]
  {
    forall m | m in s.files && s.files[m] == s.files[name] ensures m in File(s, name).links {
      assert m in File(s, m).links;
    }
  }

  /** Replaying the deletion of a name. */
  lemma DeletionMirrors(t: Table, s: Table, name: Name)
    requires Linked(t) && Linked(s) && SameTable(t, s) && name in s.files
    ensures ReplayDeletion(t, File(s, name).id, name) == Ok(Unlink(t, name))
    ensures Linked(Unlink(t, name)) && Linked(Unlink(s, name))
    ensures SameTable(Unlink(t, name), Unlink(s, name))
  {
    var f := File(s, name);
    assert File(t, name) == f;
    RemoveFirstOf(f.links, name);
    UnlinkIsErase(t, name);
    UnlinkIsErase(s, name);
    var f' := f.(links := RemoveFirst(f.links, name));
    RetargetLinked(t, t.files[name], f');
    RetargetLinked(s, s.files[name], f');
    OwnNames(t, s, name);
    RetargetSame(t, s, t.files[name], s.files[name], f');
  }

  // ---------------------------------------------------------------------------------------------
  // The snapshot: one entry per name, in whatever order the map is walked
  // ---------------------------------------------------------------------------------------------

  /** `order` walks the names of the table, each at least once. */
  ghost predicate Walks(order: seq<Name>, s: Table) {
    forall n :: n in order <==> n in s.files
  }

  /** EncodeSnapshotTo: the file under each name in turn. */
  function SnapshotFiles(s: Table, order: seq<Name>): (fs: seq<FileMeta>)
    requires HandlesValid(s) && forall n :: n in order ==> n in s.files
    ensures |fs| == |order|
  {
    if order == [] then [] else [File(s, order[0])] + SnapshotFiles(s, order[1..])
  }

  /** The part of the table whose objects are among `seen`. */
  function Restrict(s: Table, seen: set<Handle>): Table {
    s.(files := map n | n in s.files && s.files[n] in seen :: s.files[n])
  }

  function Append(t: Table, f: FileMeta): Table {
    t.(metas := t.metas + [f], nextId := AtLeast(t.nextId, f.id + 1))
  }

  lemma AppendLinked(t: Table, f: FileMeta)
    requires Linked(t)
    ensures Linked(Append(t, f))
    ensures forall n :: n in t.files ==> File(Append(t, f), n) == File(t, n)
  {
    var r := Append(t, f);
    assert forall n :: n in t.files ==> File(r, n) == File(t, n);
  }

  lemma InsertNothing(files: map<Name, Handle>, names: seq<Name>, h: Handle)
    requires forall n :: n in names ==> n in files
    ensures InsertNames(files, names, h) == files
  {
    InsertNamesAt(files, names, h);
    hide InsertNames;
  }

  lemma InsertFresh(t: Table, f: FileMeta)
    requires Linked(t) && forall n :: n in f.links ==> n !in t.files
    ensures InsertNames(t.files, f.links, |t.metas|) == Retarget(Append(t, f), |t.metas|, f).files
  {
    InsertNamesAt(t.files, f.links, |t.metas|);
    hide InsertNames;
  }

  lemma RestrictLinked(s: Table, seen: set<Handle>)
    requires Linked(s)
    ensures Linked(Restrict(s, seen))
    ensures forall n :: n in Restrict(s, seen).files ==> File(Restrict(s, seen), n) == File(s, n)
  {
    var r := Restrict(s, seen);
    assert forall n :: n in r.files ==> File(r, n) == File(s, n);
  }

  /** The next snapshot entry belongs to an object already rebuilt: its copy is dropped. */
  lemma SnapshotStepSeen(t: Table, s: Table, seen: set<Handle>, m: Name)
    requires Linked(s) && m in s.files && s.files[m] in seen
    requires Linked(t) && SameTable(t, Restrict(s, seen))
    ensures var f := File(s, m);
            var t' := Table(InsertNames(t.files, f.links, |t.metas|), t.metas + [f], AtLeast(t.nextId, f.id + 1));
            Linked(t') && SameTable(t', Restrict(s, seen))
  {
    var f := File(s, m);
    OwnLinks(s, m);
    InsertNothing(t.files, f.links, |t.metas|);
    AppendLinked(t, f);
    hide InsertNames, Linked;
    var r := Restrict(s, seen);
    assert f.id < s.nextId by { IdBelow(s, m); }
    forall n | n in r.files ensures File(Append(t, f), n) == File(r, n) {
      assert File(t, n) == File(r, n);
    }
  }

  lemma IdBelow(s: Table, m: Name)
    requires Linked(s) && m in s.files
    ensures File(s, m).id < s.nextId
  {
  }

  /** The next snapshot entry is the first of its object: it enters under all its names. */
  lemma SnapshotStepNew(t: Table, s: Table, seen: set<Handle>, m: Name)
    requires Linked(s) && m in s.files && s.files[m] !in seen
    requires Linked(t) && SameTable(t, Restrict(s, seen))
    ensures var f := File(s, m);
            var t' := Table(InsertNames(t.files, f.links, |t.metas|), t.metas + [f], AtLeast(t.nextId, f.id + 1));
            Linked(t') && SameTable(t', Restrict(s, seen + {s.files[m]}))
  {
    var f := File(s, m);
    var h := |t.metas|;
    OwnLinks(s, m);
    FreshNames(t, s, seen, m);
    InsertFresh(t, f);
    AppendLinked(t, f);
    var a := Append(t, f);
    var t' := Retarget(a, h, f);
    FreshAvailable(t, s, seen, m);
    RetargetLinked(a, h, f);
    assert t'.metas == t.metas + [f];
    IdBelow(s, m);
    SnapshotStepSame(t, s, seen, m);
  }

  /** No name of an object not yet seen has been rebuilt, and no rebuilt file has its id. */
  lemma FreshNames(t: Table, s: Table, seen: set<Handle>, m: Name)
    requires Linked(s) && m in s.files && s.files[m] !in seen
    requires Linked(t) && SameTable(t, Restrict(s, seen))
    ensures forall n :: n in File(s, m).links ==> n !in t.files
    ensures forall n :: n in t.files ==> File(t, n).id != File(s, m).id
  {
    OwnLinks(s, m);
    RestrictLinked(s, seen);
    forall n | n in t.files ensures File(t, n).id != File(s, m).id {
      assert File(t, n) == File(Restrict(s, seen), n) == File(s, n);
    }
  }

  lemma FreshAvailable(t: Table, s: Table, seen: set<Handle>, m: Name)
    requires Linked(s) && m in s.files && s.files[m] !in seen
    requires Linked(t) && SameTable(t, Restrict(s, seen))
    ensures var a := Append(t, File(s, m));
            && Linked(a) && Available(a, |t.metas|, File(s, m).links)
            && File(s, m).id < a.nextId
            && forall n :: n in a.files ==> File(a, n).id != File(s, m).id
  {
    FreshNames(t, s, seen, m);
    AppendLinked(t, File(s, m));
  }

  lemma SnapshotStepNames(t: Table, s: Table, seen: set<Handle>, m: Name)
    requires Linked(s) && m in s.files && s.files[m] !in seen
    requires Linked(t) && SameTable(t, Restrict(s, seen))
    ensures var t' := Retarget(Append(t, File(s, m)), |t.metas|, File(s, m));
            t'.files.Keys == Restrict(s, seen + {s.files[m]}).files.Keys
  {
    OwnLinks(s, m);
    hide Indexed, IdsUnique;
  }

  lemma SnapshotStepSame(t: Table, s: Table, seen: set<Handle>, m: Name)
    requires Linked(s) && m in s.files && s.files[m] !in seen
    requires Linked(t) && SameTable(t, Restrict(s, seen))
    ensures SameTable(Retarget(Append(t, File(s, m)), |t.metas|, File(s, m)), Restrict(s, seen + {s.files[m]}))
  {
    var f := File(s, m);
    var h := |t.metas|;
    var a := Append(t, f);
    var t', r, r' := Retarget(a, h, f), Restrict(s, seen), Restrict(s, seen + {s.files[m]});
    SnapshotStepNames(t, s, seen, m);
    AppendLinked(t, f);
    RetargetAt(a, h, f);
    RestrictLinked(s, seen);
    RestrictLinked(s, seen + {s.files[m]});
    OwnLinks(s, m);
    IdBelow(s, m);
    assert t'.nextId <= r'.nextId;
    assert HandlesValid(t') && HandlesValid(r');
    hide Retarget, Append, Indexed, IdsUnique, Restrict;
    forall n | n in r'.files ensures n in t'.files && File(t', n) == File(r', n) {
      RestrictedFile(t, s, seen, m, n);
    }
  }

  lemma RestrictedFile(t: Table, s: Table, seen: set<Handle>, m: Name, n: Name)
    requires Linked(s) && m in s.files && s.files[m] !in seen
    requires Linked(t) && SameTable(t, Restrict(s, seen))
    requires n in Restrict(s, seen + {s.files[m]}).files
    ensures HandlesValid(Retarget(Append(t, File(s, m)), |t.metas|, File(s, m)))
    ensures n in Retarget(Append(t, File(s, m)), |t.metas|, File(s, m)).files
    ensures File(Retarget(Append(t, File(s, m)), |t.metas|, File(s, m)), n) == File(s, n)
  {
    OwnLinks(s, m);
    AppendLinked(t, File(s, m));
    RetargetAt(Append(t, File(s, m)), |t.metas|, File(s, m));
    hide Retarget, Append, Indexed, IdsUnique;
    if n !in File(s, m).links {
      assert File(t, n) == File(Restrict(s, seen), n);
    }
  }

  /** The objects behind these names. */
  function Handles(s: Table, order: seq<Name>): (hs: set<Handle>)
    requires forall n :: n in order ==> n in s.files
    ensures forall n :: n in order ==> s.files[n] in hs
    decreases |order|
  {
    if order == [] then {} else {s.files[order[0]]} + Handles(s, order[1..])
  }

  lemma {:induction false} SnapshotMirrorsRest(t: Table, s: Table, seen: set<Handle>, order: seq<Name>)
    requires Linked(s) && Linked(t) && SameTable(t, Restrict(s, seen))
    requires forall n :: n in order ==> n in s.files
    ensures var r := ReplaySnapshot(t, SnapshotFiles(s, order));
            Linked(r) && SameTable(r, Restrict(s, seen + Handles(s, order)))
    decreases |order|
  {
    hide Indexed, IdsUnique, SameTable, Restrict, InsertNames;
    if order == [] {
      assert seen + {} == seen;
    } else {
      var m := order[0];
      var f := File(s, m);
      var t' := Table(InsertNames(t.files, f.links, |t.metas|), t.metas + [f], AtLeast(t.nextId, f.id + 1));
      var seen' := seen + {s.files[m]};
      if s.files[m] in seen {
        SnapshotStepSeen(t, s, seen, m);
        assert seen' == seen;
      } else {
        SnapshotStepNew(t, s, seen, m);
      }
      SnapshotMirrorsRest(t', s, seen', order[1..]);
      assert seen' + Handles(s, order[1..]) == seen + Handles(s, order);
      assert SnapshotFiles(s, order)[1..] == SnapshotFiles(s, order[1..]);
    }
  }

  /** Decoding a snapshot rebuilds the table: every name, every file, and which names share one. */
  lemma SnapshotMirrors(t: Table, s: Table, order: seq<Name>)
    requires Linked(s) && Walks(order, s) && t.nextId <= s.nextId
    ensures ReplayRecord(t, Snapshot(SnapshotFiles(s, order))).Ok?
    ensures var r := ReplayRecord(t, Snapshot(SnapshotFiles(s, order))).value;
            Linked(r) && SameTable(r, s)
  {
    var e := Table(map[], [], t.nextId);
    assert Restrict(s, {}).files == map[];
    SnapshotMirrorsRest(e, s, {}, order);
    RestrictAll(s, order);
    hide Indexed, IdsUnique, SameTable, Restrict, ReplaySnapshot, SnapshotFiles;
  }

  lemma RestrictAll(s: Table, order: seq<Name>)
    requires Walks(order, s)
    ensures Restrict(s, {} + Handles(s, order)) == s
  {
    assert Restrict(s, {} + Handles(s, order)).files == s.files;
  }

}
