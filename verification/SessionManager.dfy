/** `Simple::SessionManager`: sessions under randomly drawn handles. */
module SessionManager {
  import opened Wrappers

  /** The handles `gen_handle` can draw: 0 to `max` inclusive, one more than there may be sessions. */
  function Handles(max: nat): (r: set<nat>)
    ensures forall h: nat :: h in r <==> h <= max
    ensures |r| == max + 1
  {
    if max == 0 then {0} else Handles(max - 1) + {max}
  }

  /** When the capacity guard passes, at least two handles are unused. */
  lemma UnusedHandles(used: set<nat>, max: nat)
    requires used <= Handles(max) && |used| < max
    ensures |Handles(max) - used| == max + 1 - |used| >= 2
  {
    assert Handles(max) == used + (Handles(max) - used);
  }

  /** So a draw that ends the loop is always possible, and never forced. */
  lemma TwoChoices(used: set<nat>, max: nat) returns (a: nat, b: nat)
    requires used <= Handles(max) && |used| < max
    ensures a != b && a <= max && b <= max && a !in used && b !in used
  {
    UnusedHandles(used, max);
    var unused := Handles(max) - used;
    a :| a in unused;
    assert |unused - {a}| == |unused| - 1;
    b :| b in unused - {a};
  }

  predicate InRange<Session>(sessions: map<nat, Session>, max: nat) {
    forall h :: h in sessions ==> h <= max
  }

  /** The first draw that is not in use ends the draw loop. */
  function FirstUnused<Session>(draws: seq<nat>, sessions: map<nat, Session>): Option<nat> {
    if draws == [] then None
    else if draws[0] !in sessions then Some(draws[0])
    else FirstUnused(draws[1..], sessions)
  }

  /** The loop ends on every draw sequence that contains an unused handle, and on no other. */
  lemma {:induction false} LoopEnds<Session>(draws: seq<nat>, sessions: map<nat, Session>)
    ensures FirstUnused(draws, sessions).Some? <==> exists d :: d in draws && d !in sessions
    ensures FirstUnused(draws, sessions).Some? ==>
              FirstUnused(draws, sessions).value in draws && FirstUnused(draws, sessions).value !in sessions
  {
    if draws != [] {
      LoopEnds(draws[1..], sessions);
      assert draws == [draws[0]] + draws[1..];
    }
  }

  /** The handle is the first draw that is not in use. */
  lemma {:induction false} EarlierDrawsAreUsed<Session>(draws: seq<nat>, sessions: map<nat, Session>, k: nat)
    requires k < |draws| && draws[k] !in sessions && forall j :: 0 <= j < k ==> draws[j] in sessions
    ensures FirstUnused(draws, sessions) == Some(draws[k])
  {
    if k > 0 {
      assert forall j :: 0 <= j < k - 1 ==> draws[1..][j] == draws[j + 1];
      EarlierDrawsAreUsed(draws[1..], sessions, k - 1);
    }
  }

  class SessionManager<Session> {
    var sessions: map<nat, Session>
    const maxSessions: nat

    ghost predicate Valid()
      reads this
    {
      InRange(sessions, maxSessions) && |sessions| <= maxSessions
    }

    constructor (maxSessions: nat)
      ensures Valid() && sessions == map[] && this.maxSessions == maxSessions
    {
      this.maxSessions := maxSessions;
      sessions := map[];
    }

    /** Throws (`None`) iff the manager is full; else stores the session under the first draw that is
        not in use and leaves the other sessions alone. */
    method Create(session: Session, draws: seq<nat>) returns (handle: Option<nat>)
      requires Valid()
      requires forall d :: d in draws ==> d <= maxSessions
      requires |sessions| < maxSessions ==> FirstUnused(draws, sessions).Some?
      modifies this
      ensures Valid()
      ensures handle == if |old(sessions)| >= maxSessions then None else FirstUnused(draws, old(sessions))
      ensures handle.Some? ==> handle.value !in old(sessions) && handle.value <= maxSessions
      ensures sessions == if handle == None then old(sessions) else old(sessions)[handle.value := session]
    {
      if |sessions| >= maxSessions {
        return None;
      }
      LoopEnds(draws, sessions);
      var k := 0;
      while draws[k] in sessions
        invariant 0 <= k < |draws| && FirstUnused(draws[k..], sessions) == FirstUnused(draws, sessions)
        decreases |draws| - k
      {
        assert draws[k..][1..] == draws[k + 1..];
        k := k + 1;
      }
      var sessHandle := draws[k];
      sessions := sessions[sessHandle := session];
      handle := Some(sessHandle);
    }

    /** `get`: throws (`None`) iff there is no such session. */
    method Get(handle: nat) returns (session: Option<Session>)
      ensures session == if handle in sessions then Some(sessions[handle]) else None
    {
      if |sessions| == 0 {
        return None;
      }
      session := if handle in sessions then Some(sessions[handle]) else None;
    }

    /** `remove`: throws (false) iff there is no such session. */
    method Remove(handle: nat) returns (ok: bool)
      requires Valid()
      modifies this
      ensures Valid()
      ensures ok <==> handle in old(sessions)
      ensures sessions == old(sessions) - {handle}
    {
      ok := handle in sessions;
      if ok {
        RemovedSize(sessions, handle);
        sessions := sessions - {handle};
      } else {
        assert sessions - {handle} == sessions;
      }
    }
  }

  // ---------- over every run ----------

  datatype Op<Session> = Create(drawn: nat, session: Session) | Remove(handle: nat)

  function Apply<Session>(s: map<nat, Session>, max: nat, op: Op<Session>): map<nat, Session> {
    match op
    case Create(h, session) => if |s| >= max || h in s || h > max then s else s[h := session]
    case Remove(h) => s - {h}
  }

  function Run<Session>(s: map<nat, Session>, max: nat, ops: seq<Op<Session>>): map<nat, Session>
    decreases ops
  {
    if ops == [] then s else Run(Apply(s, max, ops[0]), max, ops[1..])
  }

  lemma RemovedSize<Session>(s: map<nat, Session>, handle: nat)
    ensures |s - {handle}| <= |s|
  {
    var t := s - {handle};
    assert t.Keys == s.Keys - {handle};
    assert |t| == |t.Keys| && |s| == |s.Keys|;
  }

  /** The limit is never exceeded, and every handle stays in range. */
  lemma {:induction false} LimitHolds<Session>(s: map<nat, Session>, max: nat, ops: seq<Op<Session>>)
    requires |s| <= max && InRange(s, max)
    ensures |Run(s, max, ops)| <= max && InRange(Run(s, max, ops), max)
    decreases ops
  {
    if ops != [] {
      var t := Apply(s, max, ops[0]);
      if ops[0].Remove? {
        RemovedSize(s, ops[0].handle);
      }
      LimitHolds(t, max, ops[1..]);
    }
  }
}
