/** The active-zone limit under any interleaving of threads: the zones and token counter of ZonedBlockDevice
    (AquaZFS/fs/zbd_aquafs.cc), one atomic operation at a time. */
module ActiveTokens {
  import opened Counting

  datatype Fill = Empty | Part | Full

  /** Who has set a zone's busy flag: nobody; a thread in one of the allocator's scans; a file's writer; the
      collector. */
  datatype Holder = Free | Scanning(t: nat) | Writing(t: nat) | Migrating(t: nat)

  datatype ZoneState = ZoneState(fill: Fill, holder: Holder, live: bool)

  /** `owed`: for each thread the active tokens it has taken from the counter, or is about to give back to
      it, that belong to no zone. */
  datatype System = System(zones: seq<ZoneState>, active: int, owed: seq<nat>)

  datatype Action =
    | Acquire(t: nat, z: nat)
    | Release(t: nat, z: nat)
    | GetActiveToken(t: nat)
    | PutActiveToken(t: nat)
    | Finish(t: nat, z: nat)
    | Reset(t: nat, z: nat)
    | OpenUsed(t: nat, z: nat)
    | OpenEmpty(t: nat, z: nat)
    | Append(t: nat, z: nat, fill: Fill)
    | Close(t: nat, z: nat)
    | TakeMigrate(t: nat, z: nat)
    | ReleaseMigrate(t: nat, z: nat)
    | SetLive(z: nat, live: bool)

  /** Costs the device an active slot, or is held ready to. */
  function Counted(z: ZoneState): bool { z.fill == Part || z.holder.Writing? || z.holder.Migrating? }

  function IsPart(z: ZoneState): bool { z.fill == Part }

  predicate At(s: System, t: nat, z: nat, h: Holder) {
    t < |s.owed| && z < |s.zones| && s.zones[z].holder == h
  }

  function SetZone(s: System, z: nat, x: ZoneState): System
    requires z < |s.zones|
  {
    s.(zones := s.zones[z := x])
  }

  function Owe(s: System, t: nat): System
    requires t < |s.owed|
  {
    s.(owed := s.owed[t := s.owed[t] + 1])
  }

  function Settle(s: System, t: nat): System
    requires t < |s.owed| && s.owed[t] > 0
  {
    s.(owed := s.owed[t := s.owed[t] - 1])
  }

  predicate Step(s: System, a: Action, s': System, max: nat) {
    match a
    case Acquire(t, z) =>
      At(s, t, z, Free) && s' == SetZone(s, z, s.zones[z].(holder := Scanning(t)))
    case Release(t, z) =>
      At(s, t, z, Scanning(t)) && s' == SetZone(s, z, s.zones[z].(holder := Free))
    case GetActiveToken(t) =>
      t < |s.owed| && s.active < max && s' == Owe(s.(active := s.active + 1), t)
    case PutActiveToken(t) =>
      t < |s.owed| && s.owed[t] > 0 && s' == Settle(s.(active := s.active - 1), t)
    case Finish(t, z) =>
      && At(s, t, z, Scanning(t)) && s.zones[z].fill == Part
      && s' == Owe(SetZone(s, z, s.zones[z].(fill := Full)), t)
    case Reset(t, z) =>
      && At(s, t, z, Scanning(t)) && s.zones[z].fill != Empty && !s.zones[z].live
      && var r := SetZone(s, z, s.zones[z].(fill := Empty));
         s' == if s.zones[z].fill == Part then Owe(r, t) else r
    case OpenUsed(t, z) =>
      && At(s, t, z, Scanning(t)) && s.zones[z].fill == Part
      && s' == SetZone(s, z, s.zones[z].(holder := Writing(t)))
    case OpenEmpty(t, z) =>
      && At(s, t, z, Scanning(t)) && s.zones[z].fill == Empty && s.owed[t] > 0
      && s' == Settle(SetZone(s, z, s.zones[z].(holder := Writing(t))), t)
    case Append(t, z, fill) =>
      && (At(s, t, z, Writing(t)) || At(s, t, z, Migrating(t))) && s.zones[z].fill != Full && fill != Empty
      && s' == SetZone(s, z, s.zones[z].(fill := fill))
    case Close(t, z) =>
      && At(s, t, z, Writing(t))
      && var r := SetZone(s, z, s.zones[z].(holder := Free));
         s' == if s.zones[z].fill == Full then Owe(r, t) else r
    case TakeMigrate(t, z) =>
      && At(s, t, z, Scanning(t)) && s.zones[z].fill == Part
      && s' == SetZone(s, z, s.zones[z].(holder := Migrating(t)))
    case ReleaseMigrate(t, z) =>
      At(s, t, z, Migrating(t)) && s' == SetZone(s, z, s.zones[z].(holder := Free))
    case SetLive(z, live) =>
      z < |s.zones| && s' == SetZone(s, z, s.zones[z].(live := live))
  }

  /** The counter covers every zone that counts and every token under way. */
  predicate Inv(s: System, max: nat) {
    Count(s.zones, Counted) + Sum(s.owed) <= s.active <= max
  }

  lemma CountsAfter(s: System, a: Action, s': System, max: nat)
    requires Step(s, a, s', max) && !a.GetActiveToken? && !a.PutActiveToken? && !a.SetLive?
    ensures a.z < |s.zones| == |s'.zones| && a.t < |s.owed| == |s'.owed| && s'.active == s.active
    ensures Count(s'.zones, Counted)
      == Count(s.zones, Counted) - (if Counted(s.zones[a.z]) then 1 else 0) + if Counted(s'.zones[a.z]) then 1 else 0
    ensures Sum(s'.owed) == Sum(s.owed) - s.owed[a.t] + s'.owed[a.t]
  {
    hide Count, Sum, Counted;
    assert s'.zones == s.zones[a.z := s'.zones[a.z]];
    CountUpdate(s.zones, a.z, s'.zones[a.z], Counted);
    assert s'.owed == s.owed[a.t := s'.owed[a.t]];
    SumUpdate(s.owed, a.t, s'.owed[a.t]);
  }

  /** What the counter has over the zones that count and the tokens under way. */
  function Slack(s: System): int { s.active - Count(s.zones, Counted) - Sum(s.owed) }

  /** The collector lets go of a zone it has filled, or a writer of one it has written nothing to: neither
      gives the zone's token back. */
  predicate Loses(s: System, a: Action) {
    || (a.ReleaseMigrate? && a.z < |s.zones| && s.zones[a.z].fill != Part)
    || (a.Close? && a.z < |s.zones| && s.zones[a.z].fill == Empty)
  }

  /** Every other action accounts for its tokens exactly. */
  lemma StepSlack(s: System, a: Action, s': System, max: nat)
    requires Step(s, a, s', max)
    ensures Slack(s') == Slack(s) + if Loses(s, a) then 1 else 0
  {
    hide Count, Sum;
    match a
    case GetActiveToken(t) => SumUpdate(s.owed, t, s.owed[t] + 1);
    case PutActiveToken(t) => SumUpdate(s.owed, t, s.owed[t] - 1);
    case SetLive(z, live) => CountUpdate(s.zones, z, s'.zones[z], Counted);
    case _ => CountsAfter(s, a, s', max);
  }

  lemma StepKeeps(s: System, a: Action, s': System, max: nat)
    requires Inv(s, max) && Step(s, a, s', max)
    ensures Inv(s', max)
  {
    StepSlack(s, a, s', max);
    hide Count, Sum, Loses;
  }

  predicate Run(states: seq<System>, actions: seq<Action>, max: nat) {
    && |states| == |actions| + 1
    && forall i :: 0 <= i < |actions| ==> Step(states[i], actions[i], states[i + 1], max)
  }

  /** Started within its limit, the device never has more partly written zones than it allows, whatever the
      threads do in whatever order. */
  lemma {:induction false} ActiveLimit(states: seq<System>, actions: seq<Action>, n: nat, max: nat)
    requires Run(states, actions, max) && n <= |actions| && Inv(states[0], max)
    ensures Inv(states[n], max) && Count(states[n].zones, IsPart) <= max
  {
    if n > 0 {
      ActiveLimit(states, actions, n - 1, max);
      StepKeeps(states[n - 1], actions[n - 1], states[n], max);
    }
    CountWithin(states[n].zones, IsPart, Counted);
  }

  // ---------------------------------------------------------------- tokens that are lost

  /** How many of the first n actions lose a token. */
  function Lost(states: seq<System>, actions: seq<Action>, n: nat): nat
    requires n <= |actions| < |states|
  {
    if n == 0 then 0 else Lost(states, actions, n - 1) + if Loses(states[n - 1], actions[n - 1]) then 1 else 0
  }

  /** No thread holds a zone or owes a token. */
  predicate Quiet(s: System) {
    && (forall z :: 0 <= z < |s.zones| ==> s.zones[z].holder == Free)
    && (forall t :: 0 <= t < |s.owed| ==> s.owed[t] == 0)
  }

  /** Between two quiet states of a run the counter has moved with the number of partly written zones, and by one
      more for each token lost on the way: it is exact if and only if none was. */
  lemma TokensExactIff(states: seq<System>, actions: seq<Action>, n: nat, max: nat)
    requires Run(states, actions, max) && n <= |actions| && Quiet(states[0]) && Quiet(states[n])
    requires states[0].active == Count(states[0].zones, IsPart)
    ensures states[n].active == Count(states[n].zones, IsPart) + Lost(states, actions, n)
    ensures states[n].active == Count(states[n].zones, IsPart) <==> forall i :: 0 <= i < n ==> !Loses(states[i], actions[i])
  {
    RunSlack(states, actions, n, max);
    QuietSlack(states[0]);
    QuietSlack(states[n]);
    LostNone(states, actions, n);
  }

  lemma {:induction false} RunSlack(states: seq<System>, actions: seq<Action>, n: nat, max: nat)
    requires Run(states, actions, max) && n <= |actions|
    ensures Slack(states[n]) == Slack(states[0]) + Lost(states, actions, n)
  {
    hide Slack, Loses;
    if n > 0 {
      RunSlack(states, actions, n - 1, max);
      StepSlack(states[n - 1], actions[n - 1], states[n], max);
    }
  }

  lemma QuietSlack(s: System)
    requires Quiet(s)
    ensures Slack(s) == s.active - Count(s.zones, IsPart)
  {
    CountSame(s.zones, IsPart, Counted);
    SumNone(s.owed);
  }

  lemma {:induction false} LostNone(states: seq<System>, actions: seq<Action>, n: nat)
    requires n <= |actions| < |states|
    ensures Lost(states, actions, n) == 0 <==> forall i :: 0 <= i < n ==> !Loses(states[i], actions[i])
  {
    hide Loses;
    if n > 0 { LostNone(states, actions, n - 1); }
  }

  /** All tokens are gone and no zone has one: nobody can open a zone, or reuse one. */
  predicate Starved(s: System, max: nat) {
    && s.active >= max
    && (forall t :: 0 <= t < |s.owed| ==> s.owed[t] == 0)
    && (forall z :: 0 <= z < |s.zones| ==> !Counted(s.zones[z]))
  }

  /** There is no way out: zones that are reset stay empty, and no byte is written any more. */
  lemma {:induction false} StarvedStays(states: seq<System>, actions: seq<Action>, n: nat, max: nat)
    requires Run(states, actions, max) && n <= |actions| && Starved(states[0], max)
    ensures Starved(states[n], max)
    ensures n < |actions| ==> !actions[n].Append? && !actions[n].OpenUsed? && !actions[n].OpenEmpty?
  {
    if n > 0 {
      StarvedStays(states, actions, n - 1, max);
      assert Step(states[n - 1], actions[n - 1], states[n], max);
    }
    if n < |actions| { assert Step(states[n], actions[n], states[n + 1], max); }
  }

  /** A device with one active zone, one thread: it writes to zone 0 and closes it; then the collector moves
      something there that fills it. Zone 1 is empty, and can never be opened. */
  lemma StarvingRun() returns (states: seq<System>, actions: seq<Action>)
    ensures Run(states, actions, 1) && Quiet(states[0]) && Inv(states[0], 1)
    ensures states[0] == System([ZoneState(Empty, Free, false), ZoneState(Empty, Free, false)], 0, [0])
    ensures var end := states[|actions|];
      Starved(end, 1) && Quiet(end) && end.zones == [ZoneState(Full, Free, true), ZoneState(Empty, Free, false)]
  {
    hide Run, Step, Count, Sum;
    states, actions := FirstWrite();
    var e := ZoneState(Empty, Free, false);
    FillingSteps(e);
    CountNone([e, e], Counted);
    SumNone([0]);
    states, actions := Then(states, actions, Acquire(0, 0), System([ZoneState(Part, Scanning(0), true), e], 1, [0]), 1);
    states, actions := Then(states, actions, TakeMigrate(0, 0), System([ZoneState(Part, Migrating(0), true), e], 1, [0]), 1);
    states, actions := Then(states, actions, Append(0, 0, Full), System([ZoneState(Full, Migrating(0), true), e], 1, [0]), 1);
    states, actions := Then(states, actions, ReleaseMigrate(0, 0), System([ZoneState(Full, Free, true), e], 1, [0]), 1);
  }

  lemma FillingSteps(e: ZoneState)
    ensures Step(System([ZoneState(Part, Free, true), e], 1, [0]), Acquire(0, 0), System([ZoneState(Part, Scanning(0), true), e], 1, [0]), 1)
    ensures Step(System([ZoneState(Part, Scanning(0), true), e], 1, [0]), TakeMigrate(0, 0), System([ZoneState(Part, Migrating(0), true), e], 1, [0]), 1)
    ensures Step(System([ZoneState(Part, Migrating(0), true), e], 1, [0]), Append(0, 0, Full), System([ZoneState(Full, Migrating(0), true), e], 1, [0]), 1)
    ensures Step(System([ZoneState(Full, Migrating(0), true), e], 1, [0]), ReleaseMigrate(0, 0), System([ZoneState(Full, Free, true), e], 1, [0]), 1)
  {
  }

  lemma WritingSteps(e: ZoneState)
    requires e == ZoneState(Empty, Free, false)
    ensures Step(System([e, e], 0, [0]), GetActiveToken(0), System([e, e], 1, [1]), 1)
    ensures Step(System([e, e], 1, [1]), Acquire(0, 0), System([e.(holder := Scanning(0)), e], 1, [1]), 1)
    ensures Step(System([e.(holder := Scanning(0)), e], 1, [1]), OpenEmpty(0, 0), System([e.(holder := Writing(0)), e], 1, [0]), 1)
    ensures Step(System([e.(holder := Writing(0)), e], 1, [0]), Append(0, 0, Part), System([ZoneState(Part, Writing(0), false), e], 1, [0]), 1)
    ensures Step(System([ZoneState(Part, Writing(0), false), e], 1, [0]), SetLive(0, true), System([ZoneState(Part, Writing(0), true), e], 1, [0]), 1)
    ensures Step(System([ZoneState(Part, Writing(0), true), e], 1, [0]), Close(0, 0), System([ZoneState(Part, Free, true), e], 1, [0]), 1)
  {
  }

  lemma FirstWrite() returns (states: seq<System>, actions: seq<Action>)
    ensures Run(states, actions, 1)
    ensures states[0] == System([ZoneState(Empty, Free, false), ZoneState(Empty, Free, false)], 0, [0])
    ensures states[|actions|] == System([ZoneState(Part, Free, true), ZoneState(Empty, Free, false)], 1, [0])
  {
    hide Step;
    var e := ZoneState(Empty, Free, false);
    WritingSteps(e);
    states, actions := [System([e, e], 0, [0])], [];
    NoSteps(states[0], 1);
    hide Run;
    states, actions := Then(states, actions, GetActiveToken(0), System([e, e], 1, [1]), 1);
    states, actions := Then(states, actions, Acquire(0, 0), System([e.(holder := Scanning(0)), e], 1, [1]), 1);
    states, actions := Then(states, actions, OpenEmpty(0, 0), System([e.(holder := Writing(0)), e], 1, [0]), 1);
    states, actions := Then(states, actions, Append(0, 0, Part), System([ZoneState(Part, Writing(0), false), e], 1, [0]), 1);
    states, actions := Then(states, actions, SetLive(0, true), System([ZoneState(Part, Writing(0), true), e], 1, [0]), 1);
    states, actions := Then(states, actions, Close(0, 0), System([ZoneState(Part, Free, true), e], 1, [0]), 1);
  }

  lemma NoSteps(s: System, max: nat)
    ensures Run([s], [], max)
  {
  }

  lemma Then(states: seq<System>, actions: seq<Action>, a: Action, s: System, max: nat) returns (states': seq<System>, actions': seq<Action>)
    requires Run(states, actions, max) && Step(states[|actions|], a, s, max)
    ensures states' == states + [s] && actions' == actions + [a] && Run(states', actions', max)
    ensures states'[0] == states[0] && states'[|actions'|] == s
  {
    states', actions' := states + [s], actions + [a];
  }
}
