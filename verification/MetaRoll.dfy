/** Rolling the metadata log to a fresh zone (RollMetaZoneLocked in AquaZFS/fs/fs_aquafs.cc) and mounting
    after a crash. The metadata zones are append-only; a crash may fall between any two device
    operations. */
module MetaRoll {
  import opened FileCodec
  import opened FileTable

  /** A record on disk: a superblock with its sequence number, or a record of the log. */
  datatype Entry = Super(seqNo: nat) | Log(record: Record)

  type Zone = seq<Entry>

  predicate HasSuper(z: Zone) { z != [] && z[0].Super? }

  /** The log after the superblock. */
  function LogOf(z: Zone): (log: seq<Record>)
    requires z != []
    ensures |log| == |z| - 1
  {
    seq(|z| - 1, i requires 0 <= i < |z| - 1 => if z[i + 1].Log? then z[i + 1].record else End)
  }

  // ---------------------------------------------------------------------------------------------
  // Mount
  // ---------------------------------------------------------------------------------------------

  /** Descending order of sequence number, the later zone first among equals. */
  predicate Before(zones: seq<Zone>, i: nat, j: nat)
    requires i < |zones| && j < |zones| && HasSuper(zones[i]) && HasSuper(zones[j])
  {
    zones[i][0].seqNo > zones[j][0].seqNo || (zones[i][0].seqNo == zones[j][0].seqNo && i > j)
  }

  /** The zone that Mount settles on: the first in that order whose log has a snapshot. */
  predicate Picks(zones: seq<Zone>, m: nat) {
    && m < |zones| && HasSuper(zones[m]) && Replay(LogOf(zones[m])) != NoSnapshot
    && forall j: nat :: j < |zones| && j != m && HasSuper(zones[j]) && Before(zones, j, m) ==>
         Replay(LogOf(zones[j])) == NoSnapshot
  }

  lemma PicksUnique(zones: seq<Zone>, m: nat, n: nat)
    requires Picks(zones, m) && Picks(zones, n)
    ensures m == n
  {
    BeforeTotal(zones, m, n);
  }

  lemma BeforeTotal(zones: seq<Zone>, m: nat, n: nat)
    requires m < |zones| && n < |zones| && HasSuper(zones[m]) && HasSuper(zones[n])
    ensures m == n || Before(zones, m, n) || Before(zones, n, m)
    ensures !(Before(zones, m, n) && Before(zones, n, m))
  {
  }

  datatype MountResult = Mounted(zone: nat, seqNo: nat, table: Table) | MountFailed

  /** The order in which the valid zones are tried: strictly descending. */
  predicate Descending(zones: seq<Zone>, order: seq<nat>) {
    && (forall k :: 0 <= k < |order| ==> order[k] < |zones| && HasSuper(zones[order[k]]))
    && (forall k, l :: 0 <= k < l < |order| ==> Before(zones, order[k], order[l]))
  }

  /** One superblock sorted in: zones are visited in ascending order, so it goes before its equals. */
  method InsertSuperblock(zones: seq<Zone>, order: seq<nat>, z: nat) returns (r: seq<nat>)
    requires Descending(zones, order) && z < |zones| && HasSuper(zones[z])
    requires forall k :: 0 <= k < |order| ==> order[k] < z
    ensures Descending(zones, r)
    ensures multiset(r) == multiset(order) + multiset{z}
  {
    var k := 0;
    while k < |order| && zones[order[k]][0].seqNo > zones[z][0].seqNo
      invariant k <= |order|
      invariant forall l :: 0 <= l < k ==> zones[order[l]][0].seqNo > zones[z][0].seqNo
    {
      k := k + 1;
    }
    InsertDescending(zones, order, k, z);
    r := order[..k] + [z] + order[k..];
    assert order == order[..k] + order[k..];
  }

  /** Collecting the valid superblocks and sorting them. */
  method SortSuperblocks(zones: seq<Zone>) returns (order: seq<nat>)
    ensures Descending(zones, order)
    ensures forall i: nat :: i < |zones| && HasSuper(zones[i]) ==> i in order
  {
    order := [];
    for z: nat := 0 to |zones|
      invariant Descending(zones, order)
      invariant forall i :: i in multiset(order) ==> i < z
      invariant forall i: nat :: i < z && HasSuper(zones[i]) ==> i in multiset(order)
    {
      if HasSuper(zones[z]) {
        assert forall k :: 0 <= k < |order| ==> order[k] in multiset(order);
        hide Descending;
        order := InsertSuperblock(zones, order, z);
      }
    }
  }

  lemma InsertDescending(zones: seq<Zone>, order: seq<nat>, k: nat, z: nat)
    requires Descending(zones, order) && k <= |order| && z < |zones| && HasSuper(zones[z])
    requires forall l :: 0 <= l < |order| ==> order[l] < z
    requires forall l :: 0 <= l < k ==> zones[order[l]][0].seqNo > zones[z][0].seqNo
    requires k < |order| ==> zones[order[k]][0].seqNo <= zones[z][0].seqNo
    ensures Descending(zones, order[..k] + [z] + order[k..])
  {
    var r := order[..k] + [z] + order[k..];
    forall l | k <= l < |order| ensures Before(zones, z, order[l]) {
      assert l > k ==> Before(zones, order[k], order[l]);
    }
    forall a, b | 0 <= a < b < |r| ensures Before(zones, r[a], r[b]) {
      var a' := if a <= k then a else a - 1;
      var b' := if b <= k then b else b - 1;
    }
  }

  /** Mount up to the point where the log is chosen: the zones are tried in descending order, those
      without a snapshot are passed over, and a corrupt log ends the attempt. */
  method Mount(zones: seq<Zone>) returns (r: MountResult)
    ensures r.Mounted? ==> Picks(zones, r.zone) && Replay(LogOf(zones[r.zone])) == Recovered(r.table) && r.seqNo == zones[r.zone][0].seqNo
    ensures r.MountFailed? ==> forall m: nat :: Picks(zones, m) ==> Replay(LogOf(zones[m])) == Corrupt
  {
    var order := SortSuperblocks(zones);
    var k := 0;
    while k < |order|
      invariant k <= |order|
      invariant forall l :: 0 <= l < k ==> Replay(LogOf(zones[order[l]])) == NoSnapshot
    {
      var found := Replay(LogOf(zones[order[k]]));
      if found.Recovered? {
        FirstPicked(zones, order, k);
        return Mounted(order[k], zones[order[k]][0].seqNo, found.table);
      }
      if found.Corrupt? {
        FirstPicked(zones, order, k);
        forall m: nat | Picks(zones, m) ensures Replay(LogOf(zones[m])) == Corrupt {
          PicksUnique(zones, m, order[k]);
        }
        return MountFailed;
      }
      k := k + 1;
    }
    NonePicked(zones, order);
    r := MountFailed;
  }

  lemma NonePicked(zones: seq<Zone>, order: seq<nat>)
    requires forall i: nat :: i < |zones| && HasSuper(zones[i]) ==> i in order
    requires forall l :: 0 <= l < |order| ==>
               order[l] < |zones| && HasSuper(zones[order[l]]) && Replay(LogOf(zones[order[l]])) == NoSnapshot
    ensures forall m: nat :: !Picks(zones, m)
  {
    forall m: nat | m < |zones| && HasSuper(zones[m]) ensures Replay(LogOf(zones[m])) == NoSnapshot {
      var l :| 0 <= l < |order| && order[l] == m;
    }
  }

  lemma FirstPicked(zones: seq<Zone>, order: seq<nat>, k: nat)
    requires Descending(zones, order) && k < |order|
    requires forall i :: 0 <= i < |zones| && HasSuper(zones[i]) ==> i in order
    requires forall l :: 0 <= l < k ==> Replay(LogOf(zones[order[l]])) == NoSnapshot
    requires Replay(LogOf(zones[order[k]])) != NoSnapshot
    ensures Picks(zones, order[k])
  {
    var m := order[k];
    forall j: nat | j < |zones| && j != m && HasSuper(zones[j]) && Before(zones, j, m)
      ensures Replay(LogOf(zones[j])) == NoSnapshot
    {
      var l :| 0 <= l < |order| && order[l] == j;
      if l > k {
        NotAfter(zones, order, k, l);
      }
    }
  }

  lemma NotAfter(zones: seq<Zone>, order: seq<nat>, k: nat, l: nat)
    requires Descending(zones, order) && k < l < |order|
    ensures !Before(zones, order[l], order[k])
  {
    BeforeTotal(zones, order[k], order[l]);
  }

  // ---------------------------------------------------------------------------------------------
  // The states of a roll
  // ---------------------------------------------------------------------------------------------

  /** Where the system is between two device operations. After a mount the log must be rolled before
      anything is appended. */
  datatype Phase = Down | MustRoll | Idle | Allocated | Ended | SuperWritten | SnapshotWritten

  /** The zones; whether the mount is over; the current zone and the zone rolled to; the superblock's
      sequence number in memory. Then what a crash must preserve: the zone with the last snapshot, or
      mounted last, and its sequence number; the records acknowledged since, the snapshot first. */
  datatype Sys = Sys(zones: seq<Zone>, phase: Phase, up: bool, cur: nat, target: nat, seqNo: nat,
                     base: nat, taken: nat, log: seq<Record>)

  datatype Action =
    | Append(record: Record)
    | Allocate(zone: nat)
    | EndOld(written: bool)
    | WriteSuper
    | WriteSnapshot(files: seq<FileMeta>)
    | Refuse
    | ResetOld
    | Crash
    | MountAgain(zone: nat)

  predicate Enabled(s: Sys, a: Action) {
    match a
    case Append(r) => s.phase.Idle? && !r.End? && !r.Snapshot? && Replay(s.log + [r]).Recovered?
    case Allocate(z) => (s.phase.Idle? || s.phase.MustRoll?) && z < |s.zones| && z != s.cur
    case EndOld(_) => s.phase.Allocated?
    case WriteSuper => s.phase.Ended?
    case WriteSnapshot(_) => s.phase.SuperWritten?
    case Refuse => s.phase.Ended? || s.phase.SuperWritten?
    case ResetOld => s.phase.SnapshotWritten?
    case Crash => true
    case MountAgain(z) => s.phase.Down? && Picks(s.zones, z) && Replay(LogOf(s.zones[z])).Recovered?
  }

  predicate InRange(s: Sys) { s.cur < |s.zones| && s.target < |s.zones| && s.base < |s.zones| }

  function AppendTo(zones: seq<Zone>, i: nat, e: Entry): seq<Zone>
    requires i < |zones|
  {
    zones[i := zones[i] + [e]]
  }

  /** The records up to the end record. */
  function Body(log: seq<Record>): seq<Record> {
    if log == [] || log[0].End? then [] else [log[0]] + Body(log[1..])
  }

  /** One device operation, a refusal, a crash or a mount. The superblock's sequence number is raised when it
      is encoded; the zone is not erased at mount but when it is allocated again. A superblock or a
      snapshot that does not fit is refused when the log has already moved to the new zone: a running
      system goes on there, and the old zone is given back as it is; a mount fails. */
  function Act(s: Sys, a: Action): Sys
    requires InRange(s) && Enabled(s, a)
  {
    match a
    case Append(r) => s.(zones := AppendTo(s.zones, s.cur, Log(r)), log := s.log + [r])
    case Allocate(z) => s.(zones := s.zones[z := []], phase := Allocated, target := z)
    case EndOld(written) => s.(zones := if written then AppendTo(s.zones, s.cur, Log(End)) else s.zones, phase := Ended)
    case WriteSuper => s.(zones := AppendTo(s.zones, s.target, Super(s.seqNo + 1)), seqNo := s.seqNo + 1, phase := SuperWritten)
    case WriteSnapshot(files) =>
      s.(zones := AppendTo(s.zones, s.target, Log(Snapshot(files))), phase := SnapshotWritten,
         base := s.target, taken := s.seqNo, log := [Snapshot(files)])
    case Refuse =>
      s.(phase := if s.up then Idle else Down, cur := s.target, seqNo := if s.phase.Ended? then s.seqNo + 1 else s.seqNo)
    case ResetOld => s.(zones := s.zones[s.cur := []], phase := Idle, up := true, cur := s.target)
    case Crash => s.(phase := Down)
    case MountAgain(z) => s.(phase := MustRoll, up := false, cur := z, target := z, seqNo := s.zones[z][0].seqNo,
                             base := z, taken := s.zones[z][0].seqNo, log := Body(LogOf(s.zones[z])))
  }

  // ---------------------------------------------------------------------------------------------
  // Runs
  // ---------------------------------------------------------------------------------------------

  predicate IsRun(s: Sys, acts: seq<Action>)
    decreases |acts|, 0
  {
    acts == [] ||
    var k := |acts| - 1;
    IsRun(s, acts[..k]) && InRange(After(s, acts[..k])) && Enabled(After(s, acts[..k]), acts[k])
  }

  function After(s: Sys, acts: seq<Action>): Sys
    requires IsRun(s, acts)
    decreases |acts|, 1
  {
    if acts == [] then s else var k := |acts| - 1; Act(After(s, acts[..k]), acts[k])
  }

  /** After a refusal the log is not in the zone with the last snapshot. Then a record is appended; or that
      zone, which is free, is taken for the next roll. */
  predicate Harms(s: Sys, a: Action) {
    s.cur != s.base && (a.Append? || (a.Allocate? && a.zone == s.base))
  }

  function TornNext(s: Sys, torn: bool, a: Action): bool {
    !a.WriteSnapshot? && !a.MountAgain? && (torn || Harms(s, a))
  }

  /** One of the two has happened since the last snapshot was written and the last mount. */
  predicate Torn(s: Sys, acts: seq<Action>)
    requires IsRun(s, acts)
  {
    acts != [] && var k := |acts| - 1; TornNext(After(s, acts[..k]), Torn(s, acts[..k]), acts[k])
  }

  // ---------------------------------------------------------------------------------------------
  // The invariant
  // ---------------------------------------------------------------------------------------------

  predicate LogZone(z: Zone) { HasSuper(z) && forall i :: 1 <= i < |z| ==> z[i].Log? }

  predicate NoEnd(log: seq<Record>) { forall i :: 0 <= i < |log| ==> !log[i].End? }

  /** A mount does not pass this zone over. */
  predicate Live(z: Zone) { HasSuper(z) && Replay(LogOf(z)) != NoSnapshot }

  /** The zone is passed over, or has a smaller sequence number. */
  predicate Stale(z: Zone, seqNo: nat) { Live(z) ==> z[0].seqNo < seqNo }

  predicate OthersStale(zones: seq<Zone>, m: nat, seqNo: nat) {
    forall i :: 0 <= i < |zones| && i != m ==> Stale(zones[i], seqNo)
  }

  predicate Shape(zones: seq<Zone>) {
    && (forall i :: 0 <= i < |zones| && HasSuper(zones[i]) ==> LogZone(zones[i]))
    && (forall i, j :: 0 <= i < j < |zones| && Live(zones[i]) && Live(zones[j]) ==> zones[i][0].seqNo != zones[j][0].seqNo)
  }

  /** Zone `m` has exactly this log, and a mount finds it. */
  predicate Kept(zones: seq<Zone>, m: nat, seqNo: nat, log: seq<Record>) {
    && m < |zones| && HasSuper(zones[m]) && zones[m][0].seqNo == seqNo
    && Body(LogOf(zones[m])) == log && Replay(log).Recovered? && OthersStale(zones, m, seqNo)
  }

  /** No zone of that sequence number has as many records. */
  predicate Missing(zones: seq<Zone>, seqNo: nat, log: seq<Record>) {
    forall i :: 0 <= i < |zones| && Live(zones[i]) && zones[i][0].seqNo == seqNo ==> |Body(LogOf(zones[i]))| < |log|
  }

  predicate Current(s: Sys, torn: bool)
    requires InRange(s)
  {
    && OthersStale(s.zones, s.cur, s.seqNo) && (HasSuper(s.zones[s.cur]) ==> s.zones[s.cur][0].seqNo == s.seqNo)
    && s.taken <= s.seqNo && (torn || s.cur != s.base ==> s.taken < s.seqNo)
  }

  predicate PhaseOk(s: Sys, torn: bool)
    requires InRange(s)
  {
    match s.phase
    case Down => true
    case MustRoll => Current(s, torn)
    case Idle => Current(s, torn) && (HasSuper(s.zones[s.cur]) ==> NoEnd(LogOf(s.zones[s.cur])))
    case Allocated => Current(s, torn) && s.target != s.cur && s.zones[s.target] == []
    case Ended => Current(s, torn) && s.target != s.cur && s.zones[s.target] == []
    case SuperWritten =>
      && s.target != s.cur && s.zones[s.target] == [Super(s.seqNo)]
      && OthersStale(s.zones, s.target, s.seqNo) && s.taken < s.seqNo
    case SnapshotWritten =>
      !torn && s.target != s.cur && s.base == s.target && s.taken == s.seqNo
      && HasSuper(s.zones[s.target]) && NoEnd(LogOf(s.zones[s.target]))
  }

  predicate Inv(s: Sys, torn: bool) {
    && InRange(s) && Shape(s.zones) && PhaseOk(s, torn) && NoEnd(s.log)
    && if torn then Missing(s.zones, s.taken, s.log) else Kept(s.zones, s.base, s.taken, s.log)
  }

  // ---------------------------------------------------------------------------------------------
  // Logs
  // ---------------------------------------------------------------------------------------------

  lemma LogOfAppend(z: Zone, r: Record)
    requires z != []
    ensures LogOf(z + [Log(r)]) == LogOf(z) + [r]
  {
  }

  lemma {:induction false} BodyReplays(t: Table, log: seq<Record>, seen: bool)
    ensures ReplayFrom(t, Body(log), seen) == ReplayFrom(t, log, seen)
    ensures NoEnd(Body(log)) && (NoEnd(log) ==> Body(log) == log)
    decreases |log|
  {
    if log != [] && !log[0].End? {
      var rest := log[1..];
      assert ([log[0]] + Body(rest))[1..] == Body(rest);
      match ReplayRecord(t, log[0])
      case Corruption => BodyReplays(t, rest, seen);
      case Ok(t') => BodyReplays(t', rest, seen || log[0].Snapshot?);
    }
  }

  /** An end record stops the replay, so writing one changes nothing. */
  lemma {:induction false} BodyWithEnd(log: seq<Record>)
    ensures Body(log + [End]) == Body(log)
  {
    if log == [] {
      assert (log + [End])[0] == End;
    } else {
      assert (log + [End])[0] == log[0] && (log + [End])[1..] == log[1..] + [End];
      if !log[0].End? { BodyWithEnd(log[1..]); }
    }
  }

  lemma EndReplays(log: seq<Record>)
    ensures Replay(log + [End]) == Replay(log) && Body(log + [End]) == Body(log)
  {
    BodyWithEnd(log);
    BodyReplays(EMPTY, log + [End], false);
    BodyReplays(EMPTY, log, false);
  }

  lemma SuperLog(z: Zone)
    requires |z| == 1
    ensures LogOf(z) == []
  {
  }

  lemma SuperAlone(z: Zone)
    requires |z| == 1
    ensures !Live(z)
  {
    if HasSuper(z) { assert LogOf(z) == []; }
  }

  // ---------------------------------------------------------------------------------------------
  // One zone changes
  // ---------------------------------------------------------------------------------------------

  lemma ShapeUpdate(zones: seq<Zone>, i: nat, z: Zone)
    requires Shape(zones) && i < |zones| && (HasSuper(z) ==> LogZone(z))
    requires Live(z) ==> forall j :: 0 <= j < |zones| && j != i && Live(zones[j]) ==> zones[j][0].seqNo != z[0].seqNo
    ensures Shape(zones[i := z])
  {
    hide Live;
  }

  lemma StaleUpdate(zones: seq<Zone>, m: nat, seqNo: nat, i: nat, z: Zone)
    requires OthersStale(zones, m, seqNo) && i < |zones| && (i == m || Stale(z, seqNo))
    ensures OthersStale(zones[i := z], m, seqNo)
  {
  }

  lemma StaleLater(zones: seq<Zone>, m: nat, q: nat, p: nat)
    requires OthersStale(zones, m, q) && q <= p
    ensures OthersStale(zones, m, p)
  {
  }

  lemma KeptUpdate(zones: seq<Zone>, m: nat, seqNo: nat, log: seq<Record>, i: nat, z: Zone)
    requires Kept(zones, m, seqNo, log) && i < |zones| && i != m && Stale(z, seqNo)
    ensures Kept(zones[i := z], m, seqNo, log)
  {
    StaleUpdate(zones, m, seqNo, i, z);
  }

  lemma MissingUpdate(zones: seq<Zone>, seqNo: nat, log: seq<Record>, i: nat, z: Zone)
    requires Missing(zones, seqNo, log) && i < |zones| && (Live(z) ==> z[0].seqNo != seqNo)
    ensures Missing(zones[i := z], seqNo, log)
  {
  }

  /** The log leaves its zone behind. */
  lemma KeptMissing(zones: seq<Zone>, m: nat, seqNo: nat, log: seq<Record>, r: Record)
    requires Kept(zones, m, seqNo, log)
    ensures Missing(zones, seqNo, log + [r])
  {
  }

  lemma WipedMissing(zones: seq<Zone>, m: nat, seqNo: nat, log: seq<Record>)
    requires Kept(zones, m, seqNo, log)
    ensures Missing(zones[m := []], seqNo, log)
  {
  }

  lemma MissingLonger(zones: seq<Zone>, seqNo: nat, log: seq<Record>, r: Record)
    requires Missing(zones, seqNo, log)
    ensures Missing(zones, seqNo, log + [r])
  {
  }

  // ---------------------------------------------------------------------------------------------
  // Every operation keeps the invariant
  // ---------------------------------------------------------------------------------------------

  lemma AppendInPlace(s: Sys, r: Record)
    requires Inv(s, false) && Enabled(s, Append(r)) && s.cur == s.base
    ensures Inv(Act(s, Append(r)), false)
  {
    var z := s.zones[s.cur];
    var z' := z + [Log(r)];
    LogOfAppend(z, r);
    BodyReplays(EMPTY, LogOf(z), false);
    BodyReplays(EMPTY, LogOf(z'), false);
    assert Replay(LogOf(z)).Recovered?;
    hide Live, Replay;
    assert Live(z) by { LiveIs(z); }
    ShapeUpdate(s.zones, s.cur, z');
    StaleUpdate(s.zones, s.cur, s.seqNo, s.cur, z');
    StaleUpdate(s.zones, s.cur, s.taken, s.cur, z');
  }

  lemma LiveIs(z: Zone)
    ensures Live(z) <==> HasSuper(z) && Replay(LogOf(z)) != NoSnapshot
  {
  }

  /** Behind a refused snapshot. */
  lemma AppendElsewhere(s: Sys, r: Record, torn: bool)
    requires Inv(s, torn) && Enabled(s, Append(r)) && (torn || s.cur != s.base)
    ensures Inv(Act(s, Append(r)), true)
  {
    var z := s.zones[s.cur];
    var z' := z + [Log(r)];
    if HasSuper(z) { LogOfAppend(z, r); }
    hide Replay, Body;
    ShapeUpdate(s.zones, s.cur, z');
    StaleUpdate(s.zones, s.cur, s.seqNo, s.cur, z');
    if torn { MissingLonger(s.zones, s.taken, s.log, r); } else { KeptMissing(s.zones, s.base, s.taken, s.log, r); }
    MissingUpdate(s.zones, s.taken, s.log + [r], s.cur, z');
  }

  lemma AllocateKeeps(s: Sys, z: nat, torn: bool)
    requires Inv(s, torn) && Enabled(s, Allocate(z))
    ensures Inv(Act(s, Allocate(z)), torn || z == s.base)
  {
    hide Replay, Body;
    ShapeUpdate(s.zones, z, []);
    StaleUpdate(s.zones, s.cur, s.seqNo, z, []);
    if torn {
      MissingUpdate(s.zones, s.taken, s.log, z, []);
    } else if z == s.base {
      WipedMissing(s.zones, s.base, s.taken, s.log);
    } else {
      KeptUpdate(s.zones, s.base, s.taken, s.log, z, []);
    }
  }

  lemma EndKeeps(s: Sys, written: bool, torn: bool)
    requires Inv(s, torn) && Enabled(s, EndOld(written))
    ensures Inv(Act(s, EndOld(written)), torn)
  {
    if written {
      var z := s.zones[s.cur];
      var z' := z + [Log(End)];
      if HasSuper(z) {
        LogOfAppend(z, End);
        EndReplays(LogOf(z));
      }
      hide Replay, Body;
      ShapeUpdate(s.zones, s.cur, z');
      StaleUpdate(s.zones, s.cur, s.seqNo, s.cur, z');
      if torn {
        MissingEnd(s.zones, s.taken, s.log, s.cur, z');
      } else {
        StaleEnd(s.zones, s.base, s.taken, s.cur, z');
      }
    }
  }

  lemma StaleEnd(zones: seq<Zone>, m: nat, seqNo: nat, i: nat, z: Zone)
    requires OthersStale(zones, m, seqNo) && i < |zones|
    requires Live(z) ==> Live(zones[i]) && z[0] == zones[i][0]
    ensures OthersStale(zones[i := z], m, seqNo)
  {
    hide Live;
  }

  lemma MissingEnd(zones: seq<Zone>, seqNo: nat, log: seq<Record>, i: nat, z: Zone)
    requires Missing(zones, seqNo, log) && i < |zones|
    requires Live(z) ==> Live(zones[i]) && z[0] == zones[i][0] && Body(LogOf(z)) == Body(LogOf(zones[i]))
    ensures Missing(zones[i := z], seqNo, log)
  {
    hide Body;
  }

  lemma SuperKeeps(s: Sys, torn: bool)
    requires Inv(s, torn) && Enabled(s, WriteSuper)
    ensures Inv(Act(s, WriteSuper), torn)
  {
    var z: Zone := [Super(s.seqNo + 1)];
    assert [] + z == z;
    SuperAlone(z);
    NotLive(z);
    hide Replay, Body, Live, Shape, OthersStale, Kept, Missing;
    ShapeUpdate(s.zones, s.target, z);
    StaleUpdate(s.zones, s.cur, s.seqNo, s.target, z);
    StaleAll(s.zones[s.target := z], s.cur, s.target, s.seqNo, s.seqNo + 1);
    if torn {
      MissingUpdate(s.zones, s.taken, s.log, s.target, z);
    } else {
      NotWiped(s.zones, s.base, s.taken, s.log);
      KeptUpdate(s.zones, s.base, s.taken, s.log, s.target, z);
    }
  }

  lemma NotLive(z: Zone)
    requires |z| == 1 && !Live(z)
    ensures (HasSuper(z) ==> LogZone(z)) && forall q :: Stale(z, q)
  {
  }

  lemma NotWiped(zones: seq<Zone>, m: nat, seqNo: nat, log: seq<Record>)
    requires Kept(zones, m, seqNo, log)
    ensures zones[m] != [] && |zones[m]| > 1
  {
    if |zones[m]| == 1 { SuperLog(zones[m]); }
  }

  /** The current zone's number is below the new one. */
  lemma StaleAll(zones: seq<Zone>, m: nat, n: nat, q: nat, p: nat)
    requires OthersStale(zones, m, q) && q < p && m < |zones| && (HasSuper(zones[m]) ==> zones[m][0].seqNo == q)
    ensures OthersStale(zones, n, p)
  {
    forall i | 0 <= i < |zones| && i != n ensures Stale(zones[i], p) {
    }
  }

  /** The moment the snapshot is on disk the new zone takes over, whatever the old log was: it alone has the
      largest sequence number among the zones that a mount does not pass over. */
  lemma SnapshotKeeps(s: Sys, files: seq<FileMeta>, torn: bool)
    requires Inv(s, torn) && Enabled(s, WriteSnapshot(files))
    ensures Inv(Act(s, WriteSnapshot(files)), false)
  {
    var z := s.zones[s.target] + [Log(Snapshot(files))];
    var log := [Snapshot(files)];
    LogOfAppend(s.zones[s.target], Snapshot(files));
    assert LogOf(s.zones[s.target]) == [];
    assert LogOf(z) == log;
    assert log[1..] == [];
    assert Replay(log) == ReplayFrom(ReplayRecord(EMPTY, Snapshot(files)).value, [], true);
    BodyReplays(EMPTY, log, false);
    hide Replay, Body;
    ShapeUpdate(s.zones, s.target, z);
    StaleUpdate(s.zones, s.target, s.seqNo, s.target, z);
  }

  lemma RefuseKeeps(s: Sys, torn: bool)
    requires Inv(s, torn) && Enabled(s, Refuse)
    ensures Inv(Act(s, Refuse), torn)
  {
    hide Replay, Body, Live, Kept, Missing;
    if s.phase.Ended? { StaleAll(s.zones, s.cur, s.target, s.seqNo, s.seqNo + 1); }
    if s.phase.SuperWritten? { assert LogOf(s.zones[s.target]) == []; }
  }

  lemma ResetKeeps(s: Sys, torn: bool)
    requires Inv(s, torn) && Enabled(s, ResetOld)
    ensures Inv(Act(s, ResetOld), torn)
  {
    hide Replay, Body;
    ShapeUpdate(s.zones, s.cur, []);
    KeptUpdate(s.zones, s.base, s.taken, s.log, s.cur, []);
  }

  lemma MountKeeps(s: Sys, z: nat, torn: bool)
    requires Inv(s, torn) && Enabled(s, MountAgain(z))
    ensures Inv(Act(s, MountAgain(z)), false)
  {
    BodyReplays(EMPTY, LogOf(s.zones[z]), false);
    hide Replay, Body;
    var q := s.zones[z][0].seqNo;
    forall i | 0 <= i < |s.zones| && i != z ensures Stale(s.zones[i], q) {
      if Live(s.zones[i]) {
        assert Live(s.zones[z]);
        BeforeTotal(s.zones, i, z);
      }
    }
  }

  lemma ActKeeps(s: Sys, a: Action, torn: bool)
    requires Inv(s, torn) && Enabled(s, a)
    ensures Inv(Act(s, a), TornNext(s, torn, a))
  {
    hide Inv;
    match a
    case Append(r) => if torn || s.cur != s.base { AppendElsewhere(s, r, torn); } else { AppendInPlace(s, r); }
    case Allocate(z) =>
      InvRange(s, torn);
      AllocateKeeps(s, z, torn);
    case EndOld(written) => EndKeeps(s, written, torn);
    case WriteSuper => SuperKeeps(s, torn);
    case WriteSnapshot(files) => SnapshotKeeps(s, files, torn);
    case Refuse => RefuseKeeps(s, torn);
    case ResetOld => ResetKeeps(s, torn);
    case Crash => CrashKeeps(s, torn);
    case MountAgain(z) => MountKeeps(s, z, torn);
  }

  lemma InvRange(s: Sys, torn: bool)
    requires Inv(s, torn)
    ensures InRange(s)
  {
  }

  lemma CrashKeeps(s: Sys, torn: bool)
    requires Inv(s, torn)
    ensures Inv(Act(s, Crash), torn)
  {
  }

  lemma {:induction false} RunKeeps(s: Sys, acts: seq<Action>)
    requires Inv(s, false) && IsRun(s, acts)
    ensures Inv(After(s, acts), Torn(s, acts))
  {
    hide Inv, Act, Enabled, TornNext;
    if acts != [] {
      var k := |acts| - 1;
      RunKeeps(s, acts[..k]);
      ActKeeps(After(s, acts[..k]), acts[k], Torn(s, acts[..k]));
    }
  }

  // ---------------------------------------------------------------------------------------------
  // Crash safety
  // ---------------------------------------------------------------------------------------------

  /** Mount finds the zone of that sequence number, and only that, and replays exactly these records from it. */
  ghost predicate MountRecovers(zones: seq<Zone>, seqNo: nat, log: seq<Record>) {
    exists m: nat ::
      && Picks(zones, m) && zones[m][0].seqNo == seqNo
      && Body(LogOf(zones[m])) == log && Replay(LogOf(zones[m])) == Replay(log) && Replay(log).Recovered?
      && forall n: nat :: Picks(zones, n) ==> n == m
  }

  lemma KeptRecovers(zones: seq<Zone>, m: nat, seqNo: nat, log: seq<Record>)
    requires Kept(zones, m, seqNo, log)
    ensures MountRecovers(zones, seqNo, log)
  {
    BodyReplays(EMPTY, LogOf(zones[m]), false);
    hide Replay, Body;
    forall j: nat | j < |zones| && j != m && HasSuper(zones[j]) && Before(zones, j, m)
      ensures Replay(LogOf(zones[j])) == NoSnapshot
    {
      assert Stale(zones[j], seqNo);
    }
    assert Picks(zones, m);
    forall n: nat | Picks(zones, n) ensures n == m {
      PicksUnique(zones, m, n);
    }
  }

  lemma MissingLoses(zones: seq<Zone>, seqNo: nat, log: seq<Record>)
    requires Missing(zones, seqNo, log)
    ensures !MountRecovers(zones, seqNo, log)
  {
    hide Replay, Body;
    forall m: nat | Picks(zones, m) && zones[m][0].seqNo == seqNo ensures Body(LogOf(zones[m])) != log {
      assert Live(zones[m]);
    }
  }

  /** Wherever the power fails in a run - in the middle of a roll, of a roll after a fallback mount, or of
      neither - the next mount recovers exactly the acknowledged records from the zone with the last
      snapshot, if and only if no roll was refused whose log was then appended to, or whose old zone was
      then taken by the next roll. */
  lemma CrashAnywhere(s: Sys, acts: seq<Action>)
    requires Inv(s, false) && IsRun(s, acts)
    ensures var r := After(s, acts); MountRecovers(r.zones, r.taken, r.log) <==> !Torn(s, acts)
  {
    RunKeeps(s, acts);
    var r := After(s, acts);
    hide Kept, Missing, MountRecovers, Shape, PhaseOk;
    if Torn(s, acts) {
      MissingLoses(r.zones, r.taken, r.log);
    } else {
      KeptRecovers(r.zones, r.base, r.taken, r.log);
    }
  }

  /** Where the log is, between rolls, if none is refused. */
  predicate InPlace(s: Sys) { (s.phase.MustRoll? || s.phase.Idle? || s.phase.Allocated? || s.phase.Ended? || s.phase.SuperWritten?) ==> s.cur == s.base }

  lemma NextInPlace(s: Sys, a: Action)
    requires Inv(s, false) && Enabled(s, a) && InPlace(s) && !a.Refuse?
    ensures InPlace(Act(s, a)) && !TornNext(s, false, a)
  {
    hide Kept, Shape, Picks, Replay;
  }

  lemma TornSnoc(s: Sys, acts: seq<Action>)
    requires IsRun(s, acts) && acts != []
    ensures var k := |acts| - 1; IsRun(s, acts[..k]) && InRange(After(s, acts[..k])) && Enabled(After(s, acts[..k]), acts[k])
    ensures var k := |acts| - 1; Torn(s, acts) == TornNext(After(s, acts[..k]), Torn(s, acts[..k]), acts[k])
    ensures var k := |acts| - 1; After(s, acts) == Act(After(s, acts[..k]), acts[k])
  {
  }

  /** So without a refused roll nothing is ever lost. */
  lemma {:induction false} NothingRefused(s: Sys, acts: seq<Action>)
    requires Inv(s, false) && IsRun(s, acts) && InPlace(s) && Refuse !in acts
    ensures !Torn(s, acts) && InPlace(After(s, acts))
    ensures MountRecovers(After(s, acts).zones, After(s, acts).taken, After(s, acts).log)
  {
    hide Inv, MountRecovers, InPlace, TornNext, Act, Enabled;
    CrashAnywhere(s, acts);
    if acts != [] {
      var k := |acts| - 1;
      TornSnoc(s, acts);
      NothingRefused(s, acts[..k]);
      RunKeeps(s, acts[..k]);
      assert acts[k] in acts;
      NextInPlace(After(s, acts[..k]), acts[k]);
    }
  }

  /** What a crash at this point must preserve changes only by an appended record and by the roll's own
      snapshot, as long as nothing is lost. */
  lemma DurableOnly(s: Sys, a: Action)
    requires Inv(s, false) && Enabled(s, a) && !a.Append? && !a.WriteSnapshot?
    ensures Act(s, a).log == s.log && Act(s, a).taken == s.taken
  {
    if a.MountAgain? {
      KeptRecovers(s.zones, s.base, s.taken, s.log);
      hide Replay, Body;
    }
  }

  /** MkFS: every metadata zone reset, a superblock and an empty snapshot in the first. */
  function Formatted(n: nat): (zones: seq<Zone>)
    requires n > 0
    ensures |zones| == n && zones[0] == [Super(1), Log(Snapshot([]))]
    ensures forall i :: 0 < i < n ==> zones[i] == []
  {
    [[Super(1), Log(Snapshot([]))]] + seq(n - 1, i => [])
  }

  function Fresh(n: nat): Sys
    requires n > 0
  {
    Sys(Formatted(n), Idle, true, 0, 0, 1, 0, 1, [Snapshot([])])
  }

  lemma FormattedInv(n: nat)
    requires n > 0
    ensures Inv(Fresh(n), false) && InPlace(Fresh(n))
  {
    EmptySnapshot();
    assert LogOf(Formatted(n)[0]) == [Snapshot([])];
    hide Replay;
    assert Kept(Formatted(n), 0, 1, [Snapshot([])]);
  }

  lemma EmptySnapshot()
    ensures Replay([Snapshot([])]) == Recovered(EMPTY) && Body([Snapshot([])]) == [Snapshot([])]
  {
    var log: seq<Record> := [Snapshot([])];
    assert log[1..] == [];
    assert ReplayRecord(EMPTY, log[0]) == Ok(EMPTY);
    assert ReplayFrom(EMPTY, log, false) == ReplayFrom(EMPTY, [], true);
  }

  // ---------------------------------------------------------------------------------------------
  // Runs that lose
  // ---------------------------------------------------------------------------------------------

  lemma RunMore(s: Sys, acts: seq<Action>, a: Action)
    requires IsRun(s, acts) && InRange(After(s, acts)) && Enabled(After(s, acts), a)
    ensures IsRun(s, acts + [a]) && After(s, acts + [a]) == Act(After(s, acts), a)
    ensures Torn(s, acts + [a]) == TornNext(After(s, acts), Torn(s, acts), a)
  {
    assert (acts + [a])[..|acts|] == acts;
  }

  /** From a formatted file system: a roll whose snapshot is refused. Nothing is lost yet. */
  lemma Refused(n: nat)
    requires n >= 2
    ensures var acts := [] + [Allocate(1)] + [EndOld(true)] + [WriteSuper] + [Refuse];
      && IsRun(Fresh(n), acts) && !Torn(Fresh(n), acts)
      && After(Fresh(n), acts) == Sys(
           Formatted(n)[0 := [Super(1), Log(Snapshot([])), Log(End)]][1 := [Super(2)]], Idle, true, 1, 1, 2, 0, 1, [Snapshot([])])
  {
    var s := Fresh(n);
    assert IsRun(s, []) && After(s, []) == s && !Torn(s, []);
    assert Formatted(n)[1 := []] == Formatted(n);
    assert [Super(1), Log(Snapshot([]))] + [Log(End)] == [Super(1), Log(Snapshot([])), Log(End)];
    assert [] + [Super(2)] == [Super(2)];
    var a1, a2, a3 := [] + [Allocate(1)], [] + [Allocate(1)] + [EndOld(true)], [] + [Allocate(1)] + [EndOld(true)] + [WriteSuper];
    hide IsRun, After, Torn;
    RunMore(s, [], Allocate(1));
    assert After(s, a1).zones == Formatted(n);
    RunMore(s, a1, EndOld(true));
    assert After(s, a2).zones == Formatted(n)[0 := [Super(1), Log(Snapshot([])), Log(End)]];
    assert !Torn(s, a1) && After(s, a1).cur == After(s, a1).base == 0;
    RunMore(s, a2, WriteSuper);
    assert !Torn(s, a2) && After(s, a2).cur == After(s, a2).base == 0;
    assert After(s, a3).zones == Formatted(n)[0 := [Super(1), Log(Snapshot([])), Log(End)]][1 := [Super(2)]];
    RunMore(s, a3, Refuse);
    assert !Torn(s, a3 + [Refuse]);
  }

  lemma FirstRecord(f: FileMeta)
    requires f.links != []
    ensures Replay([Snapshot([])] + [Update(f)]).Recovered? && Replay([Update(f)]) == NoSnapshot
  {
    EmptySnapshot();
    ReplayFromAppend(EMPTY, [Snapshot([])], Update(f), false);
    FindByIdMisses(EMPTY, f.id, 0);
    var log := [Update(f)];
    assert log[1..] == [] && ReplayRecord(EMPTY, log[0]).Ok?;
    assert ReplayFrom(ReplayRecord(EMPTY, log[0]).value, [], false) == NoSnapshot;
  }

  predicate Unmountable(zones: seq<Zone>) { forall m: nat :: m < |zones| ==> !Picks(zones, m) }

  /** The next file that is created is acknowledged, and a mount falls back behind it; after one more roll has
      begun, no zone has a snapshot and nothing can be mounted. */
  lemma LostBehindRefusal(n: nat, f: FileMeta)
    requires n >= 2 && f.links != []
    ensures var refused := [] + [Allocate(1)] + [EndOld(true)] + [WriteSuper] + [Refuse];
      var acts, more := refused + [Append(Update(f))], refused + [Append(Update(f))] + [Allocate(0)];
      && IsRun(Fresh(n), acts) && After(Fresh(n), acts).log == [Snapshot([]), Update(f)]
      && MountRecovers(After(Fresh(n), acts).zones, 1, [Snapshot([])])
      && IsRun(Fresh(n), more) && After(Fresh(n), more).log == [Snapshot([]), Update(f)]
      && Unmountable(After(Fresh(n), more).zones)
  {
    var s := Fresh(n);
    var refused := [] + [Allocate(1)] + [EndOld(true)] + [WriteSuper] + [Refuse];
    Refused(n);
    FirstRecord(f);
    hide IsRun, After, Torn;
    RunMore(s, refused, Append(Update(f)));
    RunMore(s, refused + [Append(Update(f))], Allocate(0));
    var z0, z1 := [Super(1), Log(Snapshot([])), Log(End)], [Super(2), Log(Update(f))];
    assert [Super(2)] + [Log(Update(f))] == z1;
    assert LogOf(z1) == [Update(f)] && LogOf(z0) == [Snapshot([])] + [End];
    EmptySnapshot();
    EndReplays([Snapshot([])]);
    hide Replay, Body;
    FallsBack(n, After(s, refused + [Append(Update(f))]).zones, z0, z1);
  }

  lemma FallsBack(n: nat, zones: seq<Zone>, z0: Zone, z1: Zone)
    requires n >= 2 && zones == Formatted(n)[0 := z0][1 := z1]
    requires HasSuper(z0) && z0[0] == Super(1) && HasSuper(z1) && Replay(LogOf(z1)) == NoSnapshot
    requires Body(LogOf(z0)) == [Snapshot([])] && Replay(LogOf(z0)) == Replay([Snapshot([])]) && Replay([Snapshot([])]).Recovered?
    ensures MountRecovers(zones, 1, [Snapshot([])]) && Unmountable(zones[0 := []])
  {
    hide Replay, Body;
    assert Picks(zones, 0);
    forall m: nat | Picks(zones, m) ensures m == 0 {
    }
  }
}
