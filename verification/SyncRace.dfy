/** Writers push extents without the lock over the name table (AquaZFS/fs/io_aquafs.cc), while a sync
    encodes a record, appends it and only then counts all extents of the file as synced
    (SyncFileMetadataNoLock and WriteSnapshotLocked in AquaZFS/fs/fs_aquafs.cc). Here these are separate
    actions, and writers act between any two of them. */
module SyncRace {
  import opened FileCodec

  /** A file in memory: its extents, and how many of them count as synced. */
  datatype Listed = Listed(extents: seq<Extent>, synced: nat)

  datatype Item = Update(file: nat, extents: seq<Extent>) | Snapshot(lists: seq<seq<Extent>>)

  /** What the holder of the lock over the name table is doing. An update has been encoded; a snapshot is
      being encoded, file by file, for a roll, in place of the update of a file or of any other record; a
      record is on the log, and files are still to be counted as synced. */
  datatype Phase =
    | Idle
    | Ready(file: nat, payload: seq<Extent>)
    | Rolling(lists: seq<seq<Extent>>, instead: seq<nat>)
    | Marking(todo: seq<nat>)

  datatype State = State(files: seq<Listed>, log: seq<Item>, phase: Phase)

  datatype Action =
    | Push(file: nat, e: Extent)
    | EncodeUpdate(file: nat)
    | AppendUpdate
    | StartRoll
    | EncodeFile(file: nat)
    | AppendSnapshot
    | Fail
    | Mark(file: nat)

  /** The files of a snapshot, in order. */
  function Upto(n: nat): (r: seq<nat>)
    ensures |r| == n && forall i :: 0 <= i < n ==> r[i] == i
  {
    seq(n, i => i)
  }

  function AfterMarks(todo: seq<nat>): Phase {
    if todo == [] then Idle else Marking(todo)
  }

  predicate Enabled(s: State, a: Action) {
    match a
    case Push(i, _) => i < |s.files|
    case EncodeUpdate(i) => s.phase.Idle? && i < |s.files| && s.files[i].synced <= |s.files[i].extents|
    case AppendUpdate => s.phase.Ready?
    case StartRoll => s.phase.Idle? || s.phase.Ready?
    case EncodeFile(i) => s.phase.Rolling? && i == |s.phase.lists| < |s.files|
    case AppendSnapshot => s.phase.Rolling? && |s.phase.lists| == |s.files|
    case Fail => s.phase.Ready? || s.phase.Rolling?
    case Mark(i) => s.phase.Marking? && s.phase.todo != [] && i == s.phase.todo[0] && i < |s.files|
  }

  function Next(s: State, a: Action): State
    requires Enabled(s, a)
  {
    match a
    case Push(i, e) => s.(files := s.files[i := Listed(s.files[i].extents + [e], s.files[i].synced)])
    case EncodeUpdate(i) => s.(phase := Ready(i, s.files[i].extents[s.files[i].synced..]))
    case AppendUpdate => s.(log := s.log + [Item.Update(s.phase.file, s.phase.payload)], phase := Marking([s.phase.file]))
    case StartRoll => s.(phase := Rolling([], if s.phase.Ready? then [s.phase.file] else []))
    case EncodeFile(i) => s.(phase := Rolling(s.phase.lists + [s.files[i].extents], s.phase.instead))
    case AppendSnapshot => s.(log := [Item.Snapshot(s.phase.lists)], phase := AfterMarks(Upto(|s.files|) + s.phase.instead))
    case Fail => s.(phase := Idle)
    case Mark(i) => s.(files := s.files[i := Listed(s.files[i].extents, |s.files[i].extents|)], phase := AfterMarks(s.phase.todo[1..]))
  }

  /** An empty log of n files without extents. */
  function Start(n: nat): State {
    State(seq(n, _ => Listed([], 0)), [Item.Snapshot(seq(n, _ => []))], Idle)
  }

  predicate IsRun(n: nat, actions: seq<Action>)
    decreases |actions|, 0
  {
    actions == [] ||
    var k := |actions| - 1; IsRun(n, actions[..k]) && Enabled(After(n, actions[..k]), actions[k])
  }

  function After(n: nat, actions: seq<Action>): State
    requires IsRun(n, actions)
    decreases |actions|, 1
  {
    if actions == [] then Start(n) else var k := |actions| - 1; Next(After(n, actions[..k]), actions[k])
  }

  /** What replaying the log gives a file: the list of the last snapshot, and what updates have added. */
  function Replayed(log: seq<Item>, i: nat): seq<Extent> {
    if log == [] then []
    else
      var k := |log| - 1;
      match log[k]
      case Update(f, es) => Replayed(log[..k], i) + (if f == i then es else [])
      case Snapshot(lists) => if i < |lists| then lists[i] else []
  }

  // ---------------------------------------------------------------- what was lost, from the actions alone

  function LateNext(late: bool, a: Action, i: nat): bool {
    match a
    case Push(j, _) => late || j == i
    case EncodeUpdate(j) => late && j != i
    case EncodeFile(j) => late && j != i
    case _ => late
  }

  function LostNext(late: bool, lost: bool, a: Action, i: nat): bool {
    match a
    case AppendSnapshot => false
    case Mark(j) => lost || (j == i && late)
    case _ => lost
  }

  /** An extent of the file was pushed after the file was last encoded. */
  predicate Late(actions: seq<Action>, i: nat) {
    actions != [] && var k := |actions| - 1; LateNext(Late(actions[..k], i), actions[k], i)
  }

  /** Since the last snapshot was appended, the file was marked with an extent pushed after its encoding. */
  predicate Lost(actions: seq<Action>, i: nat) {
    actions != [] && var k := |actions| - 1; LostNext(Late(actions[..k], i), Lost(actions[..k], i), actions[k], i)
  }

  // ---------------------------------------------------------------- the invariant

  /** Nothing of the file is under way: the log gives exactly what counts as synced, or less if some was lost. */
  predicate Settled(f: Listed, r: seq<Extent>, lost: bool) {
    && f.synced <= |f.extents|
    && if lost then |r| < f.synced else r == f.extents[..f.synced]
  }

  /** The file's record is on the log and the file is still to be marked. */
  predicate Unmarked(f: Listed, r: seq<Extent>, late: bool, lost: bool) {
    && f.synced <= |f.extents|
    && if lost then |r| < |f.extents|
       else f.synced <= |r| <= |f.extents| && r == f.extents[..|r|] && (late <==> |r| < |f.extents|)
  }

  /** Some of the file has been encoded as `es`, from `start` on. */
  predicate Taken(f: Listed, es: seq<Extent>, start: nat, late: bool) {
    && start + |es| <= |f.extents| && es == f.extents[start..start + |es|]
    && (late <==> start + |es| < |f.extents|)
  }

  predicate FileInv(s: State, i: nat, late: bool, lost: bool)
    requires i < |s.files|
  {
    var f, r := s.files[i], Replayed(s.log, i);
    match s.phase
    case Idle => Settled(f, r, lost)
    case Ready(j, es) => Settled(f, r, lost) && (j == i ==> Taken(f, es, f.synced, late))
    case Rolling(lists, _) => Settled(f, r, lost) && (i < |lists| ==> f.synced <= |lists[i]| && Taken(f, lists[i], 0, late))
    case Marking(todo) => if i in todo then Unmarked(f, r, late, lost) else Settled(f, r, lost)
  }

  predicate PhaseOk(s: State) {
    match s.phase
    case Idle => true
    case Ready(j, _) => j < |s.files|
    case Rolling(lists, instead) => |lists| <= |s.files| && forall j :: j in instead ==> j < |s.files|
    case Marking(todo) => todo != [] && forall j :: j in todo ==> j < |s.files|
  }

  lemma StartInv(n: nat, i: nat)
    requires i < n
    ensures PhaseOk(Start(n)) && FileInv(Start(n), i, false, false)
  {
  }

  lemma AppendReplays(log: seq<Item>, r: Item, i: nat)
    ensures r.Update? ==> Replayed(log + [r], i) == Replayed(log, i) + (if r.file == i then r.extents else [])
  {
    assert (log + [r])[..|log|] == log;
  }

  lemma PushInv(s: State, j: nat, e: Extent, i: nat, late: bool, lost: bool)
    requires i < |s.files| && j < |s.files| && PhaseOk(s) && FileInv(s, i, late, lost)
    ensures var t := Next(s, Push(j, e)); PhaseOk(t) && FileInv(t, i, late || j == i, lost)
  {
    hide Replayed;
  }

  lemma EncodeInv(s: State, a: Action, i: nat, late: bool, lost: bool)
    requires i < |s.files| && Enabled(s, a) && PhaseOk(s) && FileInv(s, i, late, lost)
    requires a.EncodeUpdate? || a.StartRoll? || a.EncodeFile? || a.Fail?
    ensures var t := Next(s, a); PhaseOk(t) && FileInv(t, i, LateNext(late, a, i), lost)
  {
    hide Replayed;
  }

  lemma AppendInv(s: State, i: nat, late: bool, lost: bool)
    requires i < |s.files| && s.phase.Ready? && PhaseOk(s) && FileInv(s, i, late, lost)
    ensures var t := Next(s, AppendUpdate); PhaseOk(t) && FileInv(t, i, late, lost)
  {
    AppendReplays(s.log, Item.Update(s.phase.file, s.phase.payload), i);
    hide Replayed;
    var r, es, f := Replayed(s.log, i), s.phase.payload, s.files[i];
    if s.phase.file == i && !lost {
      assert f.extents[..f.synced] + f.extents[f.synced..f.synced + |es|] == f.extents[..f.synced + |es|];
    }
  }

  lemma SnapshotInv(s: State, i: nat, late: bool, lost: bool)
    requires i < |s.files| && Enabled(s, AppendSnapshot) && PhaseOk(s) && FileInv(s, i, late, lost)
    ensures var t := Next(s, AppendSnapshot); PhaseOk(t) && FileInv(t, i, late, false)
  {
    assert Upto(|s.files|)[i] == i;
  }

  lemma MarkInv(s: State, j: nat, i: nat, late: bool, lost: bool)
    requires i < |s.files| && Enabled(s, Mark(j)) && PhaseOk(s) && FileInv(s, i, late, lost)
    ensures var t := Next(s, Mark(j)); PhaseOk(t) && FileInv(t, i, late, lost || (j == i && late))
  {
    hide Replayed;
    var todo := s.phase.todo;
    assert i in todo <==> i == j || i in todo[1..];
    assert forall x :: x in todo[1..] ==> x in todo;
    hide PhaseOk;
  }

  lemma NextInv(s: State, a: Action, i: nat, late: bool, lost: bool)
    requires i < |s.files| && Enabled(s, a) && PhaseOk(s) && FileInv(s, i, late, lost)
    ensures var t := Next(s, a);
      |t.files| == |s.files| && PhaseOk(t) && FileInv(t, i, LateNext(late, a, i), LostNext(late, lost, a, i))
  {
    hide FileInv, PhaseOk;
    match a
    case Push(j, e) => PushInv(s, j, e, i, late, lost);
    case AppendUpdate => AppendInv(s, i, late, lost);
    case AppendSnapshot => SnapshotInv(s, i, late, lost);
    case Mark(j) => MarkInv(s, j, i, late, lost);
    case _ => EncodeInv(s, a, i, late, lost);
  }

  lemma {:induction false} RunInv(n: nat, actions: seq<Action>, i: nat)
    requires IsRun(n, actions) && i < n
    ensures var s := After(n, actions);
      |s.files| == n && PhaseOk(s) && FileInv(s, i, Late(actions, i), Lost(actions, i))
  {
    hide FileInv, PhaseOk, Enabled, Next, LateNext, LostNext;
    if actions == [] {
      StartInv(n, i);
    } else {
      var k := |actions| - 1;
      RunInv(n, actions[..k], i);
      NextInv(After(n, actions[..k]), actions[k], i, Late(actions[..k], i), Lost(actions[..k], i));
    }
  }

  // ---------------------------------------------------------------- results

  /** After any run in which nobody is syncing: the log gives a file exactly the extents that count as synced
      if and only if, since the last snapshot, none was pushed between an encoding of the file and
      its mark. */
  lemma TracksIff(n: nat, actions: seq<Action>, i: nat)
    requires IsRun(n, actions) && i < n && After(n, actions).phase.Idle?
    ensures var s := After(n, actions);
      && |s.files| == n && s.files[i].synced <= |s.files[i].extents|
      && (Replayed(s.log, i) == s.files[i].extents[..s.files[i].synced] <==> !Lost(actions, i))
  {
    RunInv(n, actions, i);
  }

  /** A crash at any point of any run, in the middle of a sync too: if nothing was lost, the log gives a
      beginning of the file with all that counts as synced. */
  lemma CrashAnywhere(n: nat, actions: seq<Action>, i: nat)
    requires IsRun(n, actions) && i < n && !Lost(actions, i)
    ensures var s := After(n, actions);
      && |s.files| == n && var r := Replayed(s.log, i);
         s.files[i].synced <= |r| <= |s.files[i].extents| && r == s.files[i].extents[..|r|]
  {
    RunInv(n, actions, i);
  }

  /** What was lost stays lost until the next snapshot, whatever is synced. */
  lemma {:induction false} LostStays(actions: seq<Action>, more: seq<Action>, i: nat)
    requires Lost(actions, i) && AppendSnapshot !in more
    ensures Lost(actions + more, i)
  {
    if more == [] {
      assert actions + more == actions;
    } else {
      var k := |more| - 1;
      LostStays(actions, more[..k], i);
      assert (actions + more)[..|actions + more| - 1] == actions + more[..k];
    }
  }

  lemma RunMore(n: nat, actions: seq<Action>, a: Action, i: nat)
    requires IsRun(n, actions) && Enabled(After(n, actions), a)
    ensures IsRun(n, actions + [a]) && After(n, actions + [a]) == Next(After(n, actions), a)
    ensures Late(actions + [a], i) == LateNext(Late(actions, i), a, i)
    ensures Lost(actions + [a], i) == LostNext(Late(actions, i), Lost(actions, i), a, i)
  {
    assert (actions + [a])[..|actions|] == actions;
  }

  /** A file is synced with nothing pushed meanwhile. */
  lemma SyncQuietly(n: nat, actions: seq<Action>, i: nat)
    requires IsRun(n, actions) && After(n, actions).phase.Idle? && i < n
    ensures var more := actions + [EncodeUpdate(i)] + [AppendUpdate] + [Mark(i)];
      && |After(n, actions).files| == n && IsRun(n, more)
      && (Lost(more, i) <==> Lost(actions, i))
      && var s, t, f := After(n, actions), After(n, more), After(n, actions).files[i];
         && f.synced <= |f.extents|
         && t.phase.Idle? && t.files == s.files[i := Listed(f.extents, |f.extents|)]
         && Replayed(t.log, i) == Replayed(s.log, i) + f.extents[f.synced..]
  {
    hide IsRun, After, Late, Lost;
    RunInv(n, actions, i);
    RunMore(n, actions, EncodeUpdate(i), i);
    RunMore(n, actions + [EncodeUpdate(i)], AppendUpdate, i);
    RunMore(n, actions + [EncodeUpdate(i)] + [AppendUpdate], Mark(i), i);
    var s := After(n, actions);
    AppendReplays(s.log, Item.Update(i, s.files[i].extents[s.files[i].synced..]), i);
  }

  lemma LastOf(a: Extent, b: Extent, c: Extent)
    ensures [a, b, c][2..] == [c] && [a] + [c] == [a, c] && [a, b] + [c] == [a, b, c]
  {
  }

  /** The first extent is being synced when the second is pushed. */
  lemma PushedMeanwhile(a: Extent, b: Extent)
    ensures var run := [] + [Push(0, a)] + [EncodeUpdate(0)] + [Push(0, b)];
      && IsRun(1, run) && Late(run, 0) && !Lost(run, 0)
      && After(1, run) == State([Listed([a, b], 0)], Start(1).log, Ready(0, [a]))
  {
    var r1 := [] + [Push(0, a)];
    var r2 := r1 + [EncodeUpdate(0)];
    assert IsRun(1, []) && After(1, []) == Start(1) && !Late([], 0) && !Lost([], 0);
    assert Start(1) == State([Listed([], 0)], Start(1).log, Idle);
    hide IsRun, After, Late, Lost, Start;
    RunMore(1, [], Push(0, a), 0);
    RunMore(1, r1, EncodeUpdate(0), 0);
    RunMore(1, r2, Push(0, b), 0);
    assert [] + [a] == [a] && [a] + [b] == [a, b];
  }

  /** One file and three extents: the second is pushed while the first is being synced. It counts as synced
      and is in no record, and the log gives the first and the third. */
  lemma LosingRun(a: Extent, b: Extent, c: Extent)
    ensures var run := [] + [Push(0, a)] + [EncodeUpdate(0)] + [Push(0, b)] + [AppendUpdate] + [Mark(0)]
                       + [Push(0, c)] + [EncodeUpdate(0)] + [AppendUpdate] + [Mark(0)];
      && IsRun(1, run) && Lost(run, 0)
      && After(1, run).files == [Listed([a, b, c], 3)] && Replayed(After(1, run).log, 0) == [a, c]
  {
    var r3 := [] + [Push(0, a)] + [EncodeUpdate(0)] + [Push(0, b)];
    var r4 := r3 + [AppendUpdate];
    var r5 := r4 + [Mark(0)];
    var r6 := r5 + [Push(0, c)];
    assert Replayed(Start(1).log, 0) == [];
    PushedMeanwhile(a, b);
    hide IsRun, After, Late, Lost, Replayed, Start;
    RunMore(1, r3, AppendUpdate, 0);
    AppendReplays(Start(1).log, Item.Update(0, [a]), 0);
    RunMore(1, r4, Mark(0), 0);
    RunMore(1, r5, Push(0, c), 0);
    LastOf(a, b, c);
    assert After(1, r6).files == [Listed([a, b, c], 2)] && Replayed(After(1, r6).log, 0) == [a];
    SyncQuietly(1, r6, 0);
  }
}
