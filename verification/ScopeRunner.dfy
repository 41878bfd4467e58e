/** `ScopeRunner`: handlers take shared locks on a counter, `stop` sets it to -1 for good once it is
    zero. Every load, compare-exchange and fetch-sub is one step; any number of activities interleave,
    and a weak compare-exchange may fail for no reason. */
module ScopeRunner {

  /** Where an activity stands; `expected` is its local variable. */
  datatype Pc =
    | Idle
    | Locking(expected: int)    // continue_lock: before the loop test
    | Refused                   // continue_lock returned null
    | Holding                   // continue_lock returned a lock
    | Released                  // the lock was destroyed
    | Stopping                  // stop: before the compare-exchange with expected == 0
    | StopFailed(expected: int) // stop: in the loop body
    | Stopped                   // stop returned

  /** The counter and the activities, any number of them. */
  datatype State = State(count: int, pcs: seq<Pc>)

  datatype Action = BeginLock | BeginStop | Go(spurious: bool)

  /** The next step of activity `t`. */
  function Next(s: State, t: nat, a: Action): State {
    if t >= |s.pcs| then s else
    match s.pcs[t]
    case Idle =>
      if a == BeginLock then s.(pcs := s.pcs[t := Locking(s.count)])
      else if a == BeginStop then s.(pcs := s.pcs[t := Stopping])
      else s
    case Locking(expected) =>
      if expected < 0 then s.(pcs := s.pcs[t := Refused])
      else if s.count == expected && a != Go(true) then State(expected + 1, s.pcs[t := Holding])
      else s.(pcs := s.pcs[t := Locking(s.count)])
    case Holding => State(s.count - 1, s.pcs[t := Released])
    case Stopping =>
      if s.count == 0 && a != Go(true) then State(-1, s.pcs[t := Stopped])
      else s.(pcs := s.pcs[t := StopFailed(s.count)])
    case StopFailed(expected) =>
      s.(pcs := s.pcs[t := if expected < 0 then Stopped else Stopping])
    case _ => s
  }

  /** The number of locks held. */
  function Held(pcs: seq<Pc>): nat {
    if pcs == [] then 0 else Held(pcs[..|pcs| - 1]) + if pcs[|pcs| - 1].Holding? then 1 else 0
  }

  lemma {:induction false} HeldAfterStep(pcs: seq<Pc>, t: nat, pc: Pc)
    requires t < |pcs|
    ensures Held(pcs[t := pc]) - (if pc.Holding? then 1 else 0) == Held(pcs) - (if pcs[t].Holding? then 1 else 0)
  {
    var last := |pcs| - 1;
    if t < last {
      HeldAfterStep(pcs[..last], t, pc);
      assert pcs[t := pc][..last] == pcs[..last][t := pc];
    } else {
      assert pcs[t := pc][..last] == pcs[..last];
    }
  }

  lemma {:induction false} NoneHeld(pcs: seq<Pc>)
    ensures Held(pcs) == 0 <==> forall t :: 0 <= t < |pcs| ==> !pcs[t].Holding?
  {
    if pcs != [] {
      var init := pcs[..|pcs| - 1];
      NoneHeld(init);
      assert forall t :: 0 <= t < |init| ==> init[t] == pcs[t];
    }
  }

  /** Activities that have seen the counter at -1. */
  predicate SawStop(pc: Pc) {
    pc == Stopped || pc == Refused || (pc.Locking? && pc.expected < 0) || (pc.StopFailed? && pc.expected < 0)
  }

  /** The counter is the number of locks held, or -1 with none held; who has seen -1 sees it rightly. */
  ghost predicate Inv(s: State) {
    && (s.count == Held(s.pcs) || (s.count == -1 && Held(s.pcs) == 0))
    && (forall t :: 0 <= t < |s.pcs| && SawStop(s.pcs[t]) ==> s.count == -1)
  }

  lemma NextKeepsInv(s: State, t: nat, a: Action)
    requires Inv(s)
    ensures Inv(Next(s, t, a))
    ensures s.count == -1 ==> Next(s, t, a).count == -1
  {
    if t < |s.pcs| {
      var s' := Next(s, t, a);
      assert s'.pcs == s.pcs || s'.pcs == s.pcs[t := s'.pcs[t]];
      HeldAfterStep(s.pcs, t, s'.pcs[t]);
      if s.pcs[t].Holding? {
        NoneHeld(s.pcs);
      }
    }
  }

  /** A schedule: which activity moves next, and how. */
  function Run(s: State, schedule: seq<(nat, Action)>): State {
    if schedule == [] then s
    else Next(Run(s, schedule[..|schedule| - 1]), schedule[|schedule| - 1].0, schedule[|schedule| - 1].1)
  }

  predicate Initial(s: State) {
    s.count == 0 && forall t :: 0 <= t < |s.pcs| ==> s.pcs[t] == Idle
  }

  /** Over every schedule of any number of activities: the counter counts the locks held or is -1
      with none held. */
  lemma {:induction false} RunKeepsInv(s: State, schedule: seq<(nat, Action)>)
    requires Initial(s) || Inv(s)
    ensures Inv(Run(s, schedule))
    ensures s.count == -1 ==> Run(s, schedule).count == -1
  {
    if schedule == [] {
      if Initial(s) {
        NoneHeld(s.pcs);
      }
    } else {
      hide Next;
      RunKeepsInv(s, schedule[..|schedule| - 1]);
      NextKeepsInv(Run(s, schedule[..|schedule| - 1]), schedule[|schedule| - 1].0, schedule[|schedule| - 1].1);
    }
  }

  /** Once any `stop` has returned, or any lock was refused, no lock is held in that state or in any
      later one; in particular none is granted again. */
  lemma NoLockAfterStop(s: State, schedule: seq<(nat, Action)>, t: nat, u: nat)
    requires Inv(s) && t < |s.pcs| && SawStop(s.pcs[t])
    ensures Run(s, schedule).count == -1 && Held(Run(s, schedule).pcs) == 0
    ensures u < |Run(s, schedule).pcs| ==> !Run(s, schedule).pcs[u].Holding?
  {
    RunKeepsInv(s, schedule);
    NoneHeld(Run(s, schedule).pcs);
  }

  /** `stop` returns at its next compare-exchange exactly when no lock is held, spurious failures
      aside; an attempt at the lock that finds the value it loaded takes it. */
  lemma Progress(s: State, t: nat)
    requires Inv(s) && t < |s.pcs|
    ensures s.pcs[t] == Stopping && s.count >= 0 ==> (Next(s, t, Go(false)).pcs[t] == Stopped <==> Held(s.pcs) == 0)
    ensures s.pcs[t] == Locking(s.count) && s.count >= 0 ==> Next(s, t, Go(false)).pcs[t] == Holding
  {
    NoneHeld(s.pcs);
  }

  /** An activity that wants a lock and is not disturbed has one after at most two steps, or is refused if
      the runner has been stopped. */
  lemma AloneLocks(s: State, t: nat)
    requires Inv(s) && t < |s.pcs| && s.pcs[t].Locking?
    ensures var s1 := Next(s, t, Go(false));
            var end := if s1.pcs[t].Locking? then Next(s1, t, Go(false)) else s1;
            if s.count >= 0 then end.pcs[t] == Holding && end.count == s.count + 1
            else end.pcs[t] == Refused && end.count == -1
  {
    NoneHeld(s.pcs);
  }

  /** One that stops the runner returns after at most three steps, if no lock is held. */
  lemma AloneStops(s: State, t: nat)
    requires Inv(s) && t < |s.pcs| && Held(s.pcs) == 0 && (s.pcs[t] == Stopping || s.pcs[t].StopFailed?)
    ensures var s1 := Next(s, t, Go(false));
            var s2 := Next(s1, t, Go(false));
            var s3 := Next(s2, t, Go(false));
            s3.pcs[t] == Stopped && s3.count == -1
  {
  }
}
