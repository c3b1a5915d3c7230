/** Open-zone tokens and the reserve for write-ahead logs: WaitForOpenIOZoneToken and PutOpenIOZoneToken
    (AquaZFS/fs/zbd_aquafs.cc) with their condition variable, for any number of threads. */
module OpenTokens {
  import opened Counting

  /** `wal`: the thread allocates for a write-ahead log. Asking threads are about to test the counter;
      sleeping ones will not until they are woken. */
  datatype Thread = Idle | Asking(wal: bool) | Sleeping(wal: bool) | Holding(wal: bool)

  datatype System = System(threads: seq<Thread>, open: int)

  datatype Action = Ask(t: nat, wal: bool) | Test(t: nat) | Put(t: nat) | Notify(t: nat)

  function IsHolding(x: Thread): bool { x.Holding? }
  function HoldsOther(x: Thread): bool { x.Holding? && !x.wal }
  function HoldsWal(x: Thread): bool { x.Holding? && x.wal }

  function Limit(max: nat, wal: bool): int { if wal then max else max - 1 }

  predicate Step(s: System, a: Action, s': System, max: nat) {
    match a
    case Ask(t, wal) =>
      t < |s.threads| && s.threads[t].Idle? && s' == s.(threads := s.threads[t := Asking(wal)])
    case Test(t) =>
      && t < |s.threads| && s.threads[t].Asking?
      && var wal := s.threads[t].wal;
         s' == if s.open < Limit(max, wal) then System(s.threads[t := Holding(wal)], s.open + 1)
               else s.(threads := s.threads[t := Sleeping(wal)])
    case Put(t) =>
      t < |s.threads| && s.threads[t].Holding? && s' == System(s.threads[t := Idle], s.open - 1)
    case Notify(t) =>
      t < |s.threads| && s.threads[t].Sleeping? && s' == s.(threads := s.threads[t := Asking(s.threads[t].wal)])
  }

  predicate Inv(s: System, max: nat) {
    && s.open == Count(s.threads, IsHolding) <= max
    && Count(s.threads, IsHolding) == Count(s.threads, HoldsWal) + Count(s.threads, HoldsOther)
    && Count(s.threads, HoldsOther) <= max - 1
  }

  lemma StepKeeps(s: System, a: Action, s': System, max: nat)
    requires Inv(s, max) && Step(s, a, s', max)
    ensures Inv(s', max)
  {
    hide Count;
    CountUpdate(s.threads, a.t, s'.threads[a.t], IsHolding);
    CountUpdate(s.threads, a.t, s'.threads[a.t], HoldsWal);
    CountUpdate(s.threads, a.t, s'.threads[a.t], HoldsOther);
    assert s'.threads == s.threads[a.t := s'.threads[a.t]];
  }

  predicate Run(states: seq<System>, actions: seq<Action>, max: nat) {
    && |states| == |actions| + 1
    && forall i :: 0 <= i < |actions| ==> Step(states[i], actions[i], states[i + 1], max)
  }

  /** In every state of every run the open zones are within the limit, and others than write-ahead logs leave
      one of them over; so a write-ahead log is put to sleep only while one holds a token. */
  lemma {:induction false} WalReserve(states: seq<System>, actions: seq<Action>, n: nat, max: nat)
    requires Run(states, actions, max) && n <= |actions| && Inv(states[0], max)
    ensures Inv(states[n], max)
    ensures n < |actions| && actions[n].Test? && states[n + 1].threads[actions[n].t] == Sleeping(true) ==>
      exists i :: 0 <= i < |states[n].threads| && states[n].threads[i] == Holding(true)
  {
    if n > 0 {
      WalReserve(states, actions, n - 1, max);
      StepKeeps(states[n - 1], actions[n - 1], states[n], max);
    }
    if n < |actions| && actions[n].Test? && states[n + 1].threads[actions[n].t] == Sleeping(true) {
      assert Step(states[n], actions[n], states[n + 1], max);
      SleepsForWal(states[n], max);
    }
  }

  lemma SleepsForWal(s: System, max: nat)
    requires Inv(s, max) && s.open >= max
    ensures exists i :: 0 <= i < |s.threads| && s.threads[i] == Holding(true)
  {
    CountSome(s.threads, HoldsWal);
  }

  // ---------------------------------------------------------------- notify_one

  /** This sleeper would get a token now. */
  predicate CanProceed(s: System, t: nat, max: nat)
    requires t < |s.threads| && s.threads[t].Sleeping?
  {
    s.open < Limit(max, s.threads[t].wal)
  }

  predicate SomeoneCan(s: System, max: nat) {
    exists t :: 0 <= t < |s.threads| && s.threads[t].Sleeping? && CanProceed(s, t, max)
  }

  /** notify_one picks thread t, which tests the counter. */
  ghost predicate Woken(s: System, t: nat, s': System, max: nat) {
    exists s1: System :: Step(s, Notify(t), s1, max) && Step(s1, Test(t), s', max)
  }

  /** The thread picked has a token, or all is as before the notification. */
  lemma WokenIs(s: System, t: nat, s': System, max: nat)
    ensures Woken(s, t, s', max) <==>
      && t < |s.threads| && s.threads[t].Sleeping?
      && s' == if CanProceed(s, t, max) then System(s.threads[t := Holding(s.threads[t].wal)], s.open + 1) else s
  {
    if t < |s.threads| && s.threads[t].Sleeping? {
      var s1 := s.(threads := s.threads[t := Asking(s.threads[t].wal)]);
      assert Step(s, Notify(t), s1, max);
      assert s.threads[t := Sleeping(s.threads[t].wal)] == s.threads;
      assert s1.threads[t := s.threads[t]] == s.threads;
      assert s1.threads[t := Holding(s.threads[t].wal)] == s.threads[t := Holding(s.threads[t].wal)];
      assert Step(s1, Test(t), if CanProceed(s, t, max) then System(s.threads[t := Holding(s.threads[t].wal)], s.open + 1) else s, max);
    }
  }

  /** When some sleeper can proceed, whichever sleeper a notification picks takes a token, if and only if two
      tokens are free or all sleepers allocate for logs. */
  lemma NotifyOneEnough(s: System, max: nat)
    requires SomeoneCan(s, max)
    ensures (forall t: nat, s': System :: Woken(s, t, s', max) ==> s'.open == s.open + 1) <==>
      s.open < max - 1 || forall t :: 0 <= t < |s.threads| && s.threads[t].Sleeping? ==> s.threads[t].wal
  {
    forall t: nat, s': System ensures Woken(s, t, s', max) ==>
      t < |s.threads| && s.threads[t].Sleeping? && (s'.open == s.open + 1 <==> CanProceed(s, t, max))
    {
      WokenIs(s, t, s', max);
    }
    if t :| 0 <= t < |s.threads| && s.threads[t].Sleeping? && !s.threads[t].wal && s.open >= max - 1 {
      WokenIs(s, t, s, max);
    } else {
      hide Woken;
    }
  }

  /** A lost wakeup, from the start: two tokens; threads 0 (other) and 1 (log) take them, 2 (log) and 3 (other)
      go to sleep, 1 gives its token back and the notification goes to 3, which goes back to sleep. A token
      is free for a log and thread 2, which wants one for a log, sleeps on: until another token is put back,
      for the notification that this one was due has been used up. */
  lemma WakeupLost() returns (states: seq<System>, actions: seq<Action>)
    ensures Run(states, actions, 2) && Inv(states[0], 2)
    ensures states[0] == System([Idle, Idle, Idle, Idle], 0)
    ensures var end := states[|actions|];
      end.threads == [Holding(false), Idle, Sleeping(true), Sleeping(false)] && CanProceed(end, 2, 2)
  {
    hide Count;
    actions := [Ask(0, false), Test(0), Ask(1, true), Test(1), Ask(2, true), Test(2), Ask(3, false), Test(3), Put(1), Notify(3), Test(3)];
    var i, n, w := Idle, Holding(false), Holding(true);
    states := [
      System([i, i, i, i], 0),
      System([Asking(false), i, i, i], 0),
      System([n, i, i, i], 1),
      System([n, Asking(true), i, i], 1),
      System([n, w, i, i], 2),
      System([n, w, Asking(true), i], 2),
      System([n, w, Sleeping(true), i], 2),
      System([n, w, Sleeping(true), Asking(false)], 2),
      System([n, w, Sleeping(true), Sleeping(false)], 2),
      System([n, i, Sleeping(true), Sleeping(false)], 1),
      System([n, i, Sleeping(true), Asking(false)], 1),
      System([n, i, Sleeping(true), Sleeping(false)], 1)
    ];
    CountNone(states[0].threads, IsHolding);
    CountNone(states[0].threads, HoldsWal);
    CountNone(states[0].threads, HoldsOther);
  }
}
