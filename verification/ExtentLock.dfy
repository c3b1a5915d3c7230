/** ReadLock and WriteLock of ZoneFile (AquaZFS/fs/io_aquafs.h): readers walk the extent list, ReplaceExtentList
    swaps it, any number of threads, one atomic operation at a time. */
module ExtentLock {
  import opened Counting

  /** Where a thread is. `list` is the version of the extent list a reader has begun with. A writer that is
      Waiting holds the mutex and spins until there are no readers. */
  datatype Thread =
    | Idle
    | Entering
    | Entered
    | Reading(list: nat)
    | Waiting
    | Replacing

  /** `list` names the current extent list. */
  datatype System = System(threads: seq<Thread>, mutex: bool, readers: int, list: nat)

  datatype Action =
    | ReadLock(t: nat)
    | CountReader(t: nat)
    | ReadUnlock(t: nat)
    | EndRead(t: nat)
    | WriteLock(t: nat)
    | SeeNoReaders(t: nat)
    | Replace(t: nat, list: nat)
    | WriteUnlock(t: nat)

  predicate Is(s: System, t: nat, x: Thread) { t < |s.threads| && s.threads[t] == x }

  function Go(s: System, t: nat, x: Thread): System
    requires t < |s.threads|
  {
    s.(threads := s.threads[t := x])
  }

  predicate Step(s: System, a: Action, s': System) {
    match a
    case ReadLock(t) => Is(s, t, Idle) && !s.mutex && s' == Go(s, t, Entering).(mutex := true)
    case CountReader(t) => Is(s, t, Entering) && s' == Go(s, t, Entered).(readers := s.readers + 1)
    case ReadUnlock(t) => Is(s, t, Entered) && s' == Go(s, t, Reading(s.list)).(mutex := false)
    case EndRead(t) => t < |s.threads| && s.threads[t].Reading? && s' == Go(s, t, Idle).(readers := s.readers - 1)
    case WriteLock(t) => Is(s, t, Idle) && !s.mutex && s' == Go(s, t, Waiting).(mutex := true)
    case SeeNoReaders(t) => Is(s, t, Waiting) && s.readers <= 0 && s' == Go(s, t, Replacing)
    case Replace(t, list) => Is(s, t, Replacing) && s' == s.(list := list)
    case WriteUnlock(t) => Is(s, t, Replacing) && s' == Go(s, t, Idle).(mutex := false)
  }

  function HasMutex(x: Thread): bool { x.Entering? || x.Entered? || x.Waiting? || x.Replacing? }
  function IsReader(x: Thread): bool { x.Entered? || x.Reading? }
  function IsReplacing(x: Thread): bool { x.Replacing? }

  predicate Inv(s: System) {
    && Count(s.threads, HasMutex) == (if s.mutex then 1 else 0)
    && s.readers == Count(s.threads, IsReader)
    && (Count(s.threads, IsReplacing) > 0 ==> s.readers == 0)
    && (forall t :: 0 <= t < |s.threads| && s.threads[t].Reading? ==> s.threads[t].list == s.list)
  }

  lemma CountsAfter(s: System, t: nat, s': System)
    requires t < |s.threads| && |s'.threads| == |s.threads| && s'.threads == s.threads[t := s'.threads[t]]
    ensures Count(s'.threads, HasMutex)
      == Count(s.threads, HasMutex) - (if HasMutex(s.threads[t]) then 1 else 0) + if HasMutex(s'.threads[t]) then 1 else 0
    ensures Count(s'.threads, IsReader)
      == Count(s.threads, IsReader) - (if IsReader(s.threads[t]) then 1 else 0) + if IsReader(s'.threads[t]) then 1 else 0
    ensures Count(s'.threads, IsReplacing)
      == Count(s.threads, IsReplacing) - (if IsReplacing(s.threads[t]) then 1 else 0) + if IsReplacing(s'.threads[t]) then 1 else 0
  {
    CountUpdate(s.threads, t, s'.threads[t], HasMutex);
    CountUpdate(s.threads, t, s'.threads[t], IsReader);
    CountUpdate(s.threads, t, s'.threads[t], IsReplacing);
  }

  /** Whoever replaces the list holds the mutex, so nobody else can be on the way in. */
  lemma Alone(s: System, t: nat, u: nat)
    requires Count(s.threads, HasMutex) <= 1 && t < |s.threads| && u < |s.threads| && t != u
    requires HasMutex(s.threads[t])
    ensures !HasMutex(s.threads[u])
  {
    CountUpdate(s.threads, t, Idle, HasMutex);
    if HasMutex(s.threads[u]) { CountAt(s.threads[t := Idle], u, HasMutex); }
  }

  lemma NoReplacer(s: System, t: nat)
    requires Inv(s) && t < |s.threads| && HasMutex(s.threads[t]) && !s.threads[t].Replacing?
    ensures Count(s.threads, IsReplacing) == 0
  {
    if Count(s.threads, IsReplacing) > 0 {
      CountSome(s.threads, IsReplacing);
      var u :| 0 <= u < |s.threads| && IsReplacing(s.threads[u]);
      Alone(s, t, u);
    }
  }

  lemma NoReader(s: System)
    requires Inv(s) && s.readers == 0
    ensures forall t :: 0 <= t < |s.threads| ==> !IsReader(s.threads[t])
  {
    forall t | 0 <= t < |s.threads| ensures !IsReader(s.threads[t]) {
      if IsReader(s.threads[t]) { CountAt(s.threads, t, IsReader); }
    }
  }

  lemma StepKeeps(s: System, a: Action, s': System)
    requires Inv(s) && Step(s, a, s')
    ensures Inv(s')
  {
    hide Count;
    CountsAfter(s, a.t, s');
    match a
    case CountReader(t) => NoReplacer(s, t);
    case Replace(t, list) =>
      CountAt(s.threads, t, IsReplacing);
      NoReader(s);
    case _ =>
  }

  predicate Run(states: seq<System>, actions: seq<Action>) {
    && |states| == |actions| + 1
    && forall i :: 0 <= i < |actions| ==> Step(states[i], actions[i], states[i + 1])
  }

  lemma {:induction false} RunKeeps(states: seq<System>, actions: seq<Action>, n: nat)
    requires Run(states, actions) && n <= |actions| && Inv(states[0])
    ensures Inv(states[n])
  {
    if n > 0 {
      RunKeeps(states, actions, n - 1);
      StepKeeps(states[n - 1], actions[n - 1], states[n]);
    }
  }

  /** While the list is being replaced nobody reads or can begin to, and a reader has one list in front of it
      from its first look to its last. */
  lemma OneListPerRead(states: seq<System>, actions: seq<Action>, n: nat, t: nat)
    requires Run(states, actions) && n <= |actions| && Inv(states[0]) && t < |states[n].threads|
    ensures states[n].threads[t].Reading? ==> states[n].threads[t].list == states[n].list
    ensures states[n].threads[t].Replacing? ==>
      && states[n].readers == 0
      && forall u :: 0 <= u < |states[n].threads| && u != t ==> states[n].threads[u].Idle?
  {
    RunKeeps(states, actions, n);
    var s := states[n];
    if s.threads[t].Replacing? {
      CountAt(s.threads, t, IsReplacing);
      NoReader(s);
      forall u | 0 <= u < |s.threads| && u != t ensures s.threads[u].Idle? {
        assert HasMutex(s.threads[t]);
        Alone(s, t, u);
      }
    }
  }
}
