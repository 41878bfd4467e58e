/** The client's connection pool: connections are taken, released, pruned and replaced by concurrent
    requests. Each mutex section is one step, and so is each access to `in_use` outside of one.
    Event streams, which release a connection while still reading from it, are not covered. */
module ConnectionPool {
  import opened Wrappers

  // ---------- pruning ----------

  /** The connections met when the pool is iterated in this order. */
  function Members(order: seq<nat>): set<nat> {
    set c | c in order
  }

  /** What the pruning loop may leave of the pool, whatever its iteration order: the connection of a
      failed request goes, those in use stay, and of the idle ones one. */
  ghost predicate Pruned(pool: set<nat>, busy: set<nat>, failed: Option<nat>, kept: set<nat>) {
    var rest := if failed == None then pool else pool - {failed.value};
    && kept <= rest
    && rest * busy <= kept
    && |kept - busy| == Min(1, |rest - busy|)
  }

  /** The loop of the request callback over the pool in its iteration order. */
  method Prune(order: seq<nat>, busy: set<nat>, failed: Option<nat>) returns (kept: set<nat>)
    requires forall i, j :: 0 <= i < j < |order| ==> order[i] != order[j]
    ensures Pruned(Members(order), busy, failed, kept)
  {
    PruneBegins(order, busy, failed);
    hide Pruned, PrunedSoFar, Unfailed;
    kept := {};
    var unusedConnections := 0;
    for i := 0 to |order|
      invariant PrunedSoFar(Unfailed(order[..i], failed), busy, kept, unusedConnections)
    {
      UnfailedStep(order, i, failed);
      KeepStep(Unfailed(order[..i], failed), busy, kept, unusedConnections, order[i]);
      if failed == Some(order[i]) {
        // erased
      } else if order[i] in busy {
        kept := kept + {order[i]};
      } else {
        unusedConnections := unusedConnections + 1;
        if unusedConnections > 1 {
          // erased
        } else {
          kept := kept + {order[i]};
        }
      }
    }
    assert order[..|order|] == order;
    PruneEnds(order, busy, failed, kept, unusedConnections);
  }

  lemma PruneBegins(order: seq<nat>, busy: set<nat>, failed: Option<nat>)
    ensures PrunedSoFar(Unfailed(order[..0], failed), busy, {}, 0)
  {
    assert Unfailed(order[..0], failed) == {};
  }

  lemma PruneEnds(order: seq<nat>, busy: set<nat>, failed: Option<nat>, kept: set<nat>, unused: nat)
    requires PrunedSoFar(Unfailed(order, failed), busy, kept, unused)
    ensures Pruned(Members(order), busy, failed, kept)
  {
  }

  ghost predicate PrunedSoFar(seen: set<nat>, busy: set<nat>, kept: set<nat>, unused: nat) {
    kept <= seen && seen * busy <= kept && unused == |seen - busy| && |kept - busy| == Min(1, unused)
  }

  lemma KeepStep(seen: set<nat>, busy: set<nat>, kept: set<nat>, unused: nat, c: nat)
    requires PrunedSoFar(seen, busy, kept, unused) && c !in seen
    ensures c in busy ==> PrunedSoFar(seen + {c}, busy, kept + {c}, unused)
    ensures c !in busy && unused > 0 ==> PrunedSoFar(seen + {c}, busy, kept, unused + 1)
    ensures c !in busy && unused == 0 ==> PrunedSoFar(seen + {c}, busy, kept + {c}, 1)
  {
    if c in busy {
      assert (seen + {c}) - busy == seen - busy && (kept + {c}) - busy == kept - busy;
    } else {
      assert (seen + {c}) - busy == (seen - busy) + {c} && (kept + {c}) - busy == (kept - busy) + {c};
    }
  }

  ghost function Unfailed(order: seq<nat>, failed: Option<nat>): set<nat> {
    var pool := Members(order);
    if failed == None then pool else pool - {failed.value}
  }

  lemma UnfailedStep(order: seq<nat>, i: nat, failed: Option<nat>)
    requires i < |order| && forall i, j :: 0 <= i < j < |order| ==> order[i] != order[j]
    ensures order[i] !in Unfailed(order[..i], failed)
    ensures Unfailed(order[..i + 1], failed)
         == if failed == Some(order[i]) then Unfailed(order[..i], failed) else Unfailed(order[..i], failed) + {order[i]}
  {
    assert order[..i + 1] == order[..i] + [order[i]];
    assert order[i] !in order[..i];
    hide Pruned;
    assert forall c :: c in order[..i + 1] <==> c in order[..i] || c == order[i];
  }

  // ---------- the protocol ----------

  datatype Phase =
    | Writing
    | Reading                    // reading the response header
    | Content                    // reading content
    | Pruning(failed: bool)      // in the final callback: in_use is reset, the pool not yet pruned
    | Finished

  datatype Request = Request(conn: nat, phase: Phase, reconnects: nat)

  predicate Unfinished(r: Request) {
    r.phase.Writing? || r.phase.Reading? || r.phase.Content?
  }

  /** `busy` is the connections with `in_use` set, `mayReconnect` those with `attempt_reconnect`; the
      connections created so far are 0 to `created` - 1. */
  datatype State = State(pool: set<nat>, busy: set<nat>, mayReconnect: set<nat>, created: nat, requests: map<nat, Request>)

  datatype Step =
    | Begin(r: nat, idle: Option<nat>)   // get_connection; `idle` is the first idle one found
    | Written(r: nat)
    | HeadRead(r: nat)
    | Fail(r: nat, retry: bool)          // an error; `retry`: while writing or reading the header, and not by abort
    | Complete(r: nat)                   // the last callback without an error
    | Part(r: nat, kept: set<nat>)       // a callback for a part of the content: prunes only
    | UntilClose(r: nat)                 // content delimited by the end of the connection: leaves the pool
    | EndPrune(r: nat, kept: set<nat>)
    | StopClient

  predicate In(s: State, r: nat, phase: Phase) {
    r in s.requests && s.requests[r].phase == phase
  }

  ghost predicate Enabled(s: State, step: Step) {
    match step
    case Begin(r, idle) =>
      && r !in s.requests
      && (idle == None ==> s.pool - s.busy == {})
      && (idle.Some? ==> idle.value in s.pool && idle.value !in s.busy)
    case Written(r) => In(s, r, Writing)
    case HeadRead(r) => In(s, r, Reading)
    case Fail(r, retry) => r in s.requests && Unfinished(s.requests[r]) && (retry ==> !s.requests[r].phase.Content?)
    case Complete(r) => In(s, r, Content)
    case Part(r, kept) => In(s, r, Content) && Pruned(s.pool, s.busy, None, kept)
    case UntilClose(r) => In(s, r, Content)
    case EndPrune(r, kept) =>
      && r in s.requests && s.requests[r].phase.Pruning?
      && Pruned(s.pool, s.busy, if s.requests[r].phase.failed then Some(s.requests[r].conn) else None, kept)
    case StopClient => true
  }

  function Move(s: State, r: nat, phase: Phase): State
    requires r in s.requests
  {
    s.(requests := s.requests[r := s.requests[r].(phase := phase)])
  }

  /** The first lines of the final callback. */
  function Release(s: State, r: nat, failed: bool): State
    requires r in s.requests
  {
    Move(s, r, Pruning(failed)).(busy := s.busy - {s.requests[r].conn})
  }

  function Apply(s: State, step: Step): State
    requires Enabled(s, step)
  {
    match step
    case Begin(r, idle) =>
      var c := if idle == None then s.created else idle.value;
      State(s.pool + {c}, s.busy + {c}, s.mayReconnect + {c}, if idle == None then s.created + 1 else s.created,
            s.requests[r := Request(c, Writing, 0)])
    case Written(r) => Move(s, r, Reading)
    case HeadRead(r) => Move(s, r, Content).(mayReconnect := s.mayReconnect + {s.requests[r].conn})
    case Fail(r, retry) =>
      var c := s.requests[r].conn;
      if retry && c in s.mayReconnect && c in s.pool then
        State(s.pool - {c} + {s.created}, s.busy + {s.created}, s.mayReconnect - {s.created}, s.created + 1,
              s.requests[r := Request(s.created, Writing, s.requests[r].reconnects + 1)])
      else Release(s, r, true)
    case Complete(r) => Release(s, r, false)
    case Part(r, kept) => s.(pool := kept)
    case UntilClose(r) => s.(pool := s.pool - {s.requests[r].conn})
    case EndPrune(r, kept) => Move(s, r, Finished).(pool := kept)
    case StopClient => s.(pool := {})
  }

  // ---------- the invariant ----------

  /** An unfinished request has a busy connection of its own. */
  ghost predicate Owned(s: State) {
    && (forall r :: r in s.requests && Unfinished(s.requests[r]) ==> s.requests[r].conn in s.busy)
    && (forall r, q :: r in s.requests && q in s.requests && r != q && Unfinished(s.requests[r]) && Unfinished(s.requests[q]) ==>
          s.requests[r].conn != s.requests[q].conn)
  }

  ghost predicate OwnedBy(s: State, c: nat, r: nat) {
    r in s.requests && Unfinished(s.requests[r]) && s.requests[r].conn == c
  }

  /** A busy connection of the pool belongs to an unfinished request. */
  ghost predicate BusyIsOwned(s: State) {
    forall c :: c in s.busy && c in s.pool ==> exists r :: OwnedBy(s, c, r)
  }

  /** Connections in use anywhere have been created. */
  ghost predicate Known(s: State) {
    && (forall c :: c in s.pool || c in s.busy || c in s.mayReconnect ==> c < s.created)
    && (forall r :: r in s.requests ==> s.requests[r].conn < s.created)
  }

  ghost function Pending(s: State): set<nat> {
    set r | r in s.requests && s.requests[r].phase.Pruning?
  }

  /** One idle connection in the pool, and one more for each callback that has yet to prune. */
  ghost predicate FewIdle(s: State) {
    |s.pool - s.busy| <= 1 + |Pending(s)|
  }

  /** A request reconnects at most once: afterwards its connection forbids it until the header is read,
      and then it is past reconnecting. */
  ghost predicate ReconnectOnce(s: State) {
    forall r :: r in s.requests ==>
      && s.requests[r].reconnects <= 1
      && ((s.requests[r].phase.Writing? || s.requests[r].phase.Reading?) && s.requests[r].reconnects == 1 ==>
            s.requests[r].conn !in s.mayReconnect)
  }

  ghost predicate Inv(s: State) {
    Owned(s) && BusyIsOwned(s) && Known(s) && FewIdle(s) && ReconnectOnce(s)
  }

  // ---------- every step keeps it ----------

  /** Only request `r` changes, and it does not start or end a prune. */
  ghost predicate SamePrunes(s: State, t: State, r: nat) {
    && t.requests.Keys == s.requests.Keys + {r}
    && (forall q :: q in s.requests && q != r ==> t.requests[q] == s.requests[q])
    && !t.requests[r].phase.Pruning?
    && (r in s.requests ==> !s.requests[r].phase.Pruning?)
  }

  lemma FewIdleStays(s: State, t: State, r: nat)
    requires FewIdle(s) && SamePrunes(s, t, r) && t.pool - t.busy <= s.pool - s.busy
    ensures FewIdle(t)
  {
    SubsetSize(t.pool - t.busy, s.pool - s.busy);
    assert Pending(t) == Pending(s);
  }

  /** Busy pooled connections stay owned if the new ones belong to `r` and no other owner changes. */
  lemma OwnersStay(s: State, t: State, r: nat)
    requires BusyIsOwned(s) && r in t.requests && Unfinished(t.requests[r])
    requires forall q :: q in s.requests && q != r ==> q in t.requests && t.requests[q] == s.requests[q]
    requires forall c :: c in t.busy && c in t.pool && c != t.requests[r].conn ==>
               c in s.busy && c in s.pool && !OwnedBy(s, c, r)
    ensures BusyIsOwned(t)
  {
    forall c | c in t.busy && c in t.pool ensures exists q :: OwnedBy(t, c, q) {
      if c == t.requests[r].conn {
        assert OwnedBy(t, c, r);
      } else {
        var q :| OwnedBy(s, c, q);
        assert OwnedBy(t, c, q);
      }
    }
  }

  lemma BeginOwned(s: State, r: nat, idle: Option<nat>)
    requires Owned(s) && Known(s) && ReconnectOnce(s) && Enabled(s, Begin(r, idle))
    ensures var t := Apply(s, Begin(r, idle)); Owned(t) && Known(t) && ReconnectOnce(t)
  {
    var t := Apply(s, Begin(r, idle));
    assert forall q :: q in s.requests ==> q != r && t.requests[q] == s.requests[q];
    assert forall q :: q in s.requests && Unfinished(s.requests[q]) ==> s.requests[q].conn != t.requests[r].conn;
  }

  /** `t` is `s` with a new request `r` on connection `c`, which is idle in the pool or new. */
  ghost predicate Begun(s: State, t: State, r: nat, c: nat) {
    && r !in s.requests && t.requests == s.requests[r := Request(c, Writing, 0)]
    && t.pool == s.pool + {c} && t.busy == s.busy + {c}
  }

  lemma BeginBegins(s: State, r: nat, idle: Option<nat>)
    requires Enabled(s, Begin(r, idle))
    ensures Begun(s, Apply(s, Begin(r, idle)), r, if idle == None then s.created else idle.value)
  {
  }

  lemma BegunKeepsPool(s: State, t: State, r: nat, c: nat)
    requires FewIdle(s) && BusyIsOwned(s) && Begun(s, t, r, c)
    ensures FewIdle(t) && BusyIsOwned(t)
  {
    hide FewIdle, BusyIsOwned;
    FewIdleStays(s, t, r);
    OwnersStay(s, t, r);
  }

  lemma BeginKeepsInv(s: State, r: nat, idle: Option<nat>)
    requires Inv(s) && Enabled(s, Begin(r, idle))
    ensures Inv(Apply(s, Begin(r, idle)))
  {
    hide Apply, Enabled, Owned, Known, ReconnectOnce, FewIdle, BusyIsOwned, Begun;
    BeginOwned(s, r, idle);
    BeginBegins(s, r, idle);
    BegunKeepsPool(s, Apply(s, Begin(r, idle)), r, if idle == None then s.created else idle.value);
  }

  /** A step of an unfinished request that leaves it unfinished with its connection. */
  lemma MoveKeepsInv(s: State, r: nat, phase: Phase)
    requires Inv(s) && r in s.requests && Unfinished(s.requests[r])
    requires (s.requests[r].phase == Writing && phase == Reading) || phase == Content
    ensures Inv(Move(s, r, phase))
  {
    var t := Move(s, r, phase);
    assert Pending(t) == Pending(s);
    forall c | c in t.busy && c in t.pool ensures exists q :: OwnedBy(t, c, q) {
      var q :| OwnedBy(s, c, q);
      assert OwnedBy(t, c, q);
    }
  }

  /** Setting `attempt_reconnect` on the connection of a request that is past the header. */
  lemma MayReconnectKeepsInv(s: State, r: nat)
    requires Inv(s) && In(s, r, Content)
    ensures Inv(s.(mayReconnect := s.mayReconnect + {s.requests[r].conn}))
  {
    var t := s.(mayReconnect := s.mayReconnect + {s.requests[r].conn});
    assert Pending(t) == Pending(s);
    forall c | c in t.busy && c in t.pool ensures exists q :: OwnedBy(t, c, q) {
      var q :| OwnedBy(s, c, q);
      assert OwnedBy(t, c, q);
    }
  }

  lemma ReleaseIdle(s: State, r: nat, failed: bool)
    requires FewIdle(s) && r in s.requests && Unfinished(s.requests[r])
    ensures FewIdle(Release(s, r, failed))
  {
    var t := Release(s, r, failed);
    var c := s.requests[r].conn;
    SubsetSize(t.pool - t.busy, (s.pool - s.busy) + {c});
    assert Pending(t) == Pending(s) + {r} && r !in Pending(s);
  }

  lemma ReleaseOwned(s: State, r: nat, failed: bool)
    requires Owned(s) && Known(s) && ReconnectOnce(s) && r in s.requests && Unfinished(s.requests[r])
    ensures var t := Release(s, r, failed); Owned(t) && Known(t) && ReconnectOnce(t)
  {
    var t := Release(s, r, failed);
    assert forall q :: q in s.requests && q != r ==> t.requests[q] == s.requests[q];
  }

  lemma ReleaseBusy(s: State, r: nat, failed: bool)
    requires BusyIsOwned(s) && r in s.requests && Unfinished(s.requests[r])
    ensures BusyIsOwned(Release(s, r, failed))
  {
    var t := Release(s, r, failed);
    forall d | d in t.busy && d in t.pool ensures exists q :: OwnedBy(t, d, q) {
      var q :| OwnedBy(s, d, q);
      assert q != r;
      assert OwnedBy(t, d, q);
    }
  }

  lemma ReleaseKeepsInv(s: State, r: nat, failed: bool)
    requires Inv(s) && r in s.requests && Unfinished(s.requests[r])
    ensures Inv(Release(s, r, failed))
  {
    hide Release, Owned, Known, ReconnectOnce, FewIdle, BusyIsOwned;
    ReleaseOwned(s, r, failed);
    ReleaseBusy(s, r, failed);
    ReleaseIdle(s, r, failed);
  }

  ghost predicate MayRetry(s: State, r: nat) {
    && r in s.requests && (s.requests[r].phase.Writing? || s.requests[r].phase.Reading?)
    && s.requests[r].conn in s.mayReconnect && s.requests[r].conn in s.pool
  }

  lemma ReconnectOwned(s: State, r: nat)
    requires Owned(s) && Known(s) && ReconnectOnce(s) && MayRetry(s, r)
    ensures var t := Apply(s, Fail(r, true)); Owned(t) && Known(t) && ReconnectOnce(t)
  {
    var t := Apply(s, Fail(r, true));
    assert forall q :: q in s.requests && q != r ==> t.requests[q] == s.requests[q] && s.requests[q].conn < s.created;
  }

  lemma ReconnectPool(s: State, r: nat)
    requires FewIdle(s) && BusyIsOwned(s) && Known(s) && MayRetry(s, r)
    ensures var t := Apply(s, Fail(r, true)); FewIdle(t) && BusyIsOwned(t)
  {
    var t := Apply(s, Fail(r, true));
    hide FewIdle, BusyIsOwned;
    FewIdleStays(s, t, r);
    OwnersStay(s, t, r);
  }

  lemma ReconnectKeepsInv(s: State, r: nat)
    requires Inv(s) && MayRetry(s, r)
    ensures Inv(Apply(s, Fail(r, true)))
  {
    hide Apply, Owned, Known, ReconnectOnce, FewIdle, BusyIsOwned;
    ReconnectOwned(s, r);
    ReconnectPool(s, r);
  }

  /** Taking connections out of the pool. */
  lemma ShrinkKeepsInv(s: State, pool: set<nat>)
    requires Inv(s) && pool <= s.pool
    ensures Inv(s.(pool := pool))
  {
    var t := s.(pool := pool);
    assert t.pool - t.busy <= s.pool - s.busy;
    SubsetSize(t.pool - t.busy, s.pool - s.busy);
    assert Pending(t) == Pending(s);
    forall c | c in t.busy && c in t.pool ensures exists q :: OwnedBy(t, c, q) {
      var q :| OwnedBy(s, c, q);
      assert OwnedBy(t, c, q);
    }
  }

  lemma EndPruneKeepsInv(s: State, r: nat, kept: set<nat>)
    requires Inv(s) && Enabled(s, EndPrune(r, kept))
    ensures Inv(Apply(s, EndPrune(r, kept)))
  {
    var t := Apply(s, EndPrune(r, kept));
    assert |t.pool - t.busy| <= 1;
    forall c | c in t.busy && c in t.pool ensures exists q :: OwnedBy(t, c, q) {
      var q :| OwnedBy(s, c, q);
      assert q != r;
      assert OwnedBy(t, c, q);
    }
  }

  lemma ApplyKeepsInv(s: State, step: Step)
    requires Inv(s) && Enabled(s, step)
    ensures Inv(Apply(s, step))
  {
    match step
    case Begin(r, idle) =>
      hide Inv, Apply;
      BeginKeepsInv(s, r, idle);
    case Written(r) =>
      hide Inv;
      MoveKeepsInv(s, r, Reading);
    case HeadRead(r) =>
      hide Inv;
      MoveKeepsInv(s, r, Content);
      MayReconnectKeepsInv(Move(s, r, Content), r);
    case Fail(r, retry) =>
      hide Inv;
      if retry && s.requests[r].conn in s.mayReconnect && s.requests[r].conn in s.pool {
        ReconnectKeepsInv(s, r);
      } else {
        ReleaseKeepsInv(s, r, true);
      }
    case Complete(r) =>
      hide Inv;
      ReleaseKeepsInv(s, r, false);
    case Part(r, kept) =>
      hide Inv;
      ShrinkKeepsInv(s, kept);
    case UntilClose(r) =>
      hide Inv;
      ShrinkKeepsInv(s, s.pool - {s.requests[r].conn});
    case EndPrune(r, kept) =>
      hide Inv, Apply;
      EndPruneKeepsInv(s, r, kept);
    case StopClient =>
      hide Inv;
      ShrinkKeepsInv(s, {});
  }

  const START := State({}, {}, {}, 0, map[])

  ghost predicate IsRun(states: seq<State>, steps: seq<Step>) {
    && |states| == |steps| + 1 && states[0] == START
    && forall i :: 0 <= i < |steps| ==> Enabled(states[i], steps[i]) && states[i + 1] == Apply(states[i], steps[i])
  }

  lemma {:induction false} RunKeepsInv(states: seq<State>, steps: seq<Step>, i: nat)
    requires IsRun(states, steps) && i <= |steps|
    ensures Inv(states[i])
  {
    if i == 0 {
      StartInv();
    } else {
      hide Inv, Apply, Enabled;
      RunKeepsInv(states, steps, i - 1);
      ApplyKeepsInv(states[i - 1], steps[i - 1]);
      assert states[i - 1 + 1] == Apply(states[i - 1], steps[i - 1]);
    }
  }

  lemma StartInv()
    ensures Inv(START)
  {
    assert START.pool - START.busy == {};
  }

  /** Over every interleaving: two unfinished requests never share a connection, and a connection of
      the pool that is in use belongs to exactly one of them. */
  lemma NoSharing(states: seq<State>, steps: seq<Step>, i: nat)
    requires IsRun(states, steps) && i <= |steps|
    ensures forall c, r, q :: OwnedBy(states[i], c, r) && OwnedBy(states[i], c, q) ==> r == q
    ensures forall c :: c in states[i].pool && c in states[i].busy ==> exists r :: OwnedBy(states[i], c, r)
  {
    RunKeepsInv(states, steps, i);
  }

  /** When no callback is between releasing its connection and pruning, at most one pooled connection
      is idle; and no request has reconnected more than once. */
  lemma IdleAndReconnects(states: seq<State>, steps: seq<Step>, i: nat, r: nat)
    requires IsRun(states, steps) && i <= |steps|
    ensures (forall q :: q in states[i].requests ==> !states[i].requests[q].phase.Pruning?) ==>
              |states[i].pool - states[i].busy| <= 1
    ensures r in states[i].requests ==> states[i].requests[r].reconnects <= 1
  {
    RunKeepsInv(states, steps, i);
    if forall q :: q in states[i].requests ==> !states[i].requests[q].phase.Pruning? {
      assert Pending(states[i]) == {};
    }
  }

  // ---------- when a request reconnects ----------

  /** An unfinished request may reconnect unless it has done so and waits for the header again. */
  ghost predicate RetryOpen(s: State) {
    forall r :: r in s.requests && Unfinished(s.requests[r]) ==>
      (s.requests[r].conn in s.mayReconnect <==> s.requests[r].reconnects == 0 || s.requests[r].phase == Content)
  }

  lemma StepKeepsRetryOpen(s: State, step: Step)
    requires Inv(s) && Enabled(s, step) && RetryOpen(s)
    ensures RetryOpen(Apply(s, step))
  {
    hide FewIdle, BusyIsOwned, Pruned;
    var t := Apply(s, step);
    forall r | r in t.requests && Unfinished(t.requests[r])
      ensures t.requests[r].conn in t.mayReconnect <==> t.requests[r].reconnects == 0 || t.requests[r].phase == Content
    {
      if r in s.requests && t.requests[r] == s.requests[r] {
        assert s.requests[r].conn in s.busy && s.requests[r].conn < s.created;
      }
    }
  }

  lemma {:induction false} RunKeepsRetryOpen(states: seq<State>, steps: seq<Step>, i: nat)
    requires IsRun(states, steps) && i <= |steps|
    ensures RetryOpen(states[i])
  {
    hide Inv, Apply, Enabled;
    if i == 0 {
      assert START.requests == map[];
    } else {
      RunKeepsInv(states, steps, i - 1);
      RunKeepsRetryOpen(states, steps, i - 1);
      StepKeepsRetryOpen(states[i - 1], steps[i - 1]);
      assert states[i - 1 + 1] == Apply(states[i - 1], steps[i - 1]);
    }
  }

  /** Over every run: an error while writing or reading the header, other than by abort, makes a request
      start over on a new pooled connection if and only if it has not done so before and its connection is
      still pooled. Otherwise, and on every other error, it ends. */
  lemma FailReconnectsIff(states: seq<State>, steps: seq<Step>, i: nat, r: nat, retry: bool)
    requires IsRun(states, steps) && i <= |steps| && Enabled(states[i], Fail(r, retry))
    ensures var s, t := states[i], Apply(states[i], Fail(r, retry));
            if retry && s.requests[r].reconnects == 0 && s.requests[r].conn in s.pool then
              && t.requests[r] == Request(s.created, Writing, 1) && s.created in t.pool && s.created in t.busy
              && s.created !in s.pool && s.requests[r].conn !in t.pool
              && (forall q :: q in s.requests ==> s.requests[q].conn != s.created)
            else
              t.requests[r] == s.requests[r].(phase := Pruning(true)) && t.pool == s.pool && s.requests[r].conn !in t.busy
  {
    RunKeepsInv(states, steps, i);
    RunKeepsRetryOpen(states, steps, i);
    hide FewIdle, BusyIsOwned;
  }

  lemma SomePrune(pool: set<nat>, busy: set<nat>, failed: Option<nat>) returns (kept: set<nat>)
    ensures Pruned(pool, busy, failed, kept)
  {
    var rest := if failed == None then pool else pool - {failed.value};
    if c :| c in rest - busy {
      kept := rest * busy + {c};
      assert kept - busy == {c};
      assert |rest - busy| >= 1 by {
        SubsetSize({c}, rest - busy);
      }
    } else {
      kept := rest;
      assert rest - busy == {};
    }
  }

  /** A request without an error goes through all its steps, and when it has completed its connection is
      pooled and idle, for the next request. */
  lemma RequestCompletes(s: State, r: nat, idle: Option<nat>) returns (kept: set<nat>)
    requires Inv(s) && Enabled(s, Begin(r, idle))
    ensures var s1 := Apply(s, Begin(r, idle));
            Enabled(s1, Written(r)) && var s2 := Apply(s1, Written(r));
            Enabled(s2, HeadRead(r)) && var s3 := Apply(s2, HeadRead(r));
            Enabled(s3, Complete(r)) && var s4 := Apply(s3, Complete(r));
            var c := s4.requests[r].conn;
            && (idle.Some? ==> c == idle.value) && (idle == None ==> c == s.created)
            && c in s1.pool && c in s1.busy && c in s4.pool && c !in s4.busy
            && Enabled(s4, EndPrune(r, kept)) && Apply(s4, EndPrune(r, kept)).requests[r] == Request(c, Finished, 0)
  {
    hide Pruned, Inv;
    var c := if idle == None then s.created else idle.value;
    var s4 := Apply(Apply(Apply(Apply(s, Begin(r, idle)), Written(r)), HeadRead(r)), Complete(r));
    kept := SomePrune(s4.pool, s4.busy, None);
  }

  // ---------- a connection pruned from under its request ----------

  /** The connection of an unfinished request that has left the pool. */
  predicate Lost(s: State, r: nat, c: nat) {
    r in s.requests && Unfinished(s.requests[r]) && s.requests[r].conn == c && c !in s.pool
  }

  predicate Pooled(s: State, r: nat) {
    r in s.requests && Unfinished(s.requests[r]) && s.requests[r].conn in s.pool
  }

  /** Steps that take the connection of request `r` out of the pool. */
  predicate Unpools(s: State, step: Step, r: nat)
    requires r in s.requests
  {
    match step
    case StopClient => true
    case UntilClose(q) => q == r
    case EndPrune(q, _) => q in s.requests && s.requests[q].phase == Pruning(true) && s.requests[q].conn == s.requests[r].conn
    case _ => false
  }

  /** The connection of an unfinished request leaves the pool exactly by stopping the client, by its own
      response being delimited by the end of the connection, or by the prune of a failed request that had
      the connection before. */
  lemma LeavesPoolIff(s: State, step: Step, r: nat)
    requires Inv(s) && Enabled(s, step) && Pooled(s, r)
    ensures var t := Apply(s, step); r in t.requests && (t.requests[r].conn !in t.pool <==> Unpools(s, step, r))
  {
    hide FewIdle, BusyIsOwned, ReconnectOnce;
    var c := s.requests[r].conn;
    assert c in s.busy && c < s.created;
    if step.Fail? && step.r != r {
      assert Unfinished(s.requests[step.r]) && s.requests[step.r].conn != c;
    }
  }

  /** Over every run, a request whose connection is found outside the pool has met such a step. */
  lemma {:induction false} LostByAStep(states: seq<State>, steps: seq<Step>, i: nat, j: nat, r: nat) returns (k: nat)
    requires IsRun(states, steps) && i <= j <= |steps| && Pooled(states[i], r)
    requires r in states[j].requests && Unfinished(states[j].requests[r]) && !Pooled(states[j], r)
    ensures i <= k < j && Pooled(states[k], r) && Unpools(states[k], steps[k], r)
    decreases j - i
  {
    RunKeepsInv(states, steps, i);
    hide Inv, Apply, Enabled, Unpools;
    assert i < j;
    LeavesPoolIff(states[i], steps[i], r);
    assert states[i + 1] == Apply(states[i], steps[i]);
    if Unpools(states[i], steps[i], r) {
      k := i;
    } else {
      StaysUnfinished(states, steps, i + 1, j, r);
      k := LostByAStep(states, steps, i + 1, j, r);
    }
  }

  /** A request that has ended does not come back. */
  lemma {:induction false} StaysUnfinished(states: seq<State>, steps: seq<Step>, i: nat, j: nat, r: nat)
    requires IsRun(states, steps) && i <= j <= |steps| && r in states[i].requests
    requires r in states[j].requests && Unfinished(states[j].requests[r])
    ensures Unfinished(states[i].requests[r])
    decreases j - i
  {
    hide Inv;
    if i < j {
      assert states[i + 1] == Apply(states[i], steps[i]);
      EndedStays(states[i], steps[i], r);
      StaysUnfinished(states, steps, i + 1, j, r);
    }
  }

  lemma EndedStays(s: State, step: Step, r: nat)
    requires Enabled(s, step) && r in s.requests
    ensures r in Apply(s, step).requests
    ensures !Unfinished(s.requests[r]) ==>
              !Unfinished(Apply(s, step).requests[r]) && Apply(s, step).requests[r].reconnects == s.requests[r].reconnects
  {
  }

  lemma LostStep(s: State, step: Step, r: nat, c: nat)
    requires Inv(s) && Enabled(s, step) && Lost(s, r, c)
    ensures var t := Apply(s, step);
            && r in t.requests && t.requests[r].reconnects == s.requests[r].reconnects
            && (Unfinished(t.requests[r]) ==> Lost(t, r, c))
  {
    assert c < s.created;
  }

  /** The request has its connection outside the pool, or has ended; it has reconnected `n` times. */
  predicate Stuck(s: State, r: nat, c: nat, n: nat) {
    r in s.requests && s.requests[r].reconnects == n && (Lost(s, r, c) || !Unfinished(s.requests[r]))
  }

  lemma StuckStep(s: State, step: Step, t: State, r: nat, c: nat, n: nat)
    requires Inv(s) && Enabled(s, step) && t == Apply(s, step) && Stuck(s, r, c, n)
    ensures Stuck(t, r, c, n)
  {
    hide Inv, Apply, Enabled;
    if Lost(s, r, c) {
      LostStep(s, step, r, c);
    } else {
      EndedStays(s, step, r);
    }
  }

  lemma StuckNext(states: seq<State>, steps: seq<Step>, i: nat, r: nat, c: nat, n: nat)
    requires IsRun(states, steps) && i < |steps| && Stuck(states[i], r, c, n)
    ensures Stuck(states[i + 1], r, c, n)
  {
    RunKeepsInv(states, steps, i);
    hide Inv, Apply, Enabled, Stuck;
    StuckStep(states[i], steps[i], states[i + 1], r, c, n);
  }

  /** Once its connection has left the pool, a request never reconnects: it ends with that connection. */
  lemma {:induction false} LostNeverReconnects(states: seq<State>, steps: seq<Step>, i: nat, j: nat, r: nat, c: nat, n: nat)
    requires IsRun(states, steps) && i <= j <= |steps| && Stuck(states[i], r, c, n)
    ensures Stuck(states[j], r, c, n)
    decreases j - i
  {
    hide Inv, Apply, Enabled, Stuck;
    if i < j {
      StuckNext(states, steps, i, r, c, n);
      LostNeverReconnects(states, steps, i + 1, j, r, c, n);
    }
  }

  /** It happens: a failed request resets `in_use`, another one takes the connection, and the pruning
      loop of the first removes it from the pool. */
  lemma PrunedFromUnderneath(r: nat, q: nat) returns (states: seq<State>, steps: seq<Step>)
    requires r != q
    ensures IsRun(states, steps) && steps == [Begin(r, None), Fail(r, false), Begin(q, Some(0)), EndPrune(r, {})]
    ensures Lost(states[4], q, 0)
  {
    steps := [Begin(r, None), Fail(r, false), Begin(q, Some(0)), EndPrune(r, {})];
    var s1 := State({0}, {0}, {0}, 1, map[r := Request(0, Writing, 0)]);
    var s2 := State({0}, {}, {0}, 1, map[r := Request(0, Pruning(true), 0)]);
    var s3 := State({0}, {0}, {0}, 1, map[r := Request(0, Pruning(true), 0), q := Request(0, Writing, 0)]);
    var s4 := State({}, {0}, {0}, 1, map[r := Request(0, Finished, 0), q := Request(0, Writing, 0)]);
    states := [START, s1, s2, s3, s4];
    assert Enabled(START, steps[0]) && Apply(START, steps[0]) == s1;
    assert Enabled(s1, steps[1]) && Apply(s1, steps[1]) == s2;
    assert Enabled(s2, steps[2]) && Apply(s2, steps[2]) == s3;
    LastPrune(s3, r, s4);
  }

  lemma LastPrune(s: State, r: nat, t: State)
    requires s.pool == {0} && s.busy == {0} && r in s.requests && s.requests[r] == Request(0, Pruning(true), 0)
    requires t == s.(pool := {}, requests := s.requests[r := Request(0, Finished, 0)])
    ensures Enabled(s, EndPrune(r, {})) && Apply(s, EndPrune(r, {})) == t
  {
    assert {0} - {0} == {};
  }

  // ---------- the mutex sections over the client's fields ----------

  class Client {
    var connections: set<nat>
    var inUse: set<nat>
    var attemptReconnect: set<nat>
    var created: nat

    /** The client's part of a state, together with the requests there are. */
    ghost function With(requests: map<nat, Request>): State
      reads this
    {
      State(connections, inUse, attemptReconnect, created, requests)
    }

    constructor ()
      ensures With(map[]) == START
    {
      connections, inUse, attemptReconnect, created := {}, {}, {}, 0;
    }

    method CreateConnection() returns (c: nat)
      modifies this`created
      ensures c == old(created) && created == old(created) + 1
    {
      c := created;
      created := created + 1;
    }

    /** `get_connection` with the pool in its iteration order: the first connection that is not in use,
        or a new one. */
    method GetConnection(order: seq<nat>, ghost requests: map<nat, Request>, ghost r: nat)
        returns (connection: nat, ghost idle: Option<nat>)
      requires connections == Members(order)
      requires r !in requests
      modifies this
      ensures Enabled(old(With(requests)), Begin(r, idle))
      ensures With(requests[r := Request(connection, Writing, 0)]) == Apply(old(With(requests)), Begin(r, idle))
      ensures idle.Some? ==> exists k :: 0 <= k < |order| && order[k] == connection && forall j :: 0 <= j < k ==> order[j] in old(inUse)
    {
      var found: Option<nat> := None;
      var k := 0;
      while k < |order| && found == None
        invariant 0 <= k <= |order|
        invariant found == None ==> forall j :: 0 <= j < k ==> order[j] in inUse
        invariant found.Some? ==> k < |order| && order[k] == found.value && order[k] !in inUse && forall j :: 0 <= j < k ==> order[j] in inUse
        decreases |order| - k, found == None
      {
        if order[k] !in inUse {
          found := Some(order[k]);
        } else {
          k := k + 1;
        }
      }
      idle := found;
      if found == None {
        assert connections - inUse == {};
        connection := CreateConnection();
        connections := connections + {connection};
      } else {
        connection := found.value;
        assert connections + {connection} == connections;
      }
      attemptReconnect := attemptReconnect + {connection};
      inUse := inUse + {connection};
    }

    /** `reconnect`: replaces the connection in the pool by a new one that may not be replaced again;
        `None` if it has left the pool, in which case the request fails. */
    method Reconnect(connection: nat, ghost requests: map<nat, Request>, ghost r: nat) returns (replacement: Option<nat>)
      requires connection in attemptReconnect
      requires r in requests && requests[r].conn == connection && (requests[r].phase.Writing? || requests[r].phase.Reading?)
      modifies this
      ensures replacement.Some? <==> connection in old(connections)
      ensures replacement == None ==> unchanged(this)
      ensures replacement.Some? ==>
                With(requests[r := Request(replacement.value, Writing, requests[r].reconnects + 1)])
                == Apply(old(With(requests)), Fail(r, true))
    {
      replacement := None;
      if connection in connections {
        connections := connections - {connection};
        var another := CreateConnection();
        attemptReconnect := attemptReconnect - {another};
        inUse := inUse + {another};
        connections := connections + {another};
        replacement := Some(another);
      }
    }

    /** The part of the final callback under the mutex, after `in_use` has been reset. */
    method FinishCallback(order: seq<nat>, connection: nat, failed: bool, ghost requests: map<nat, Request>, ghost r: nat)
      requires connections == Members(order)
      requires forall i, j :: 0 <= i < j < |order| ==> order[i] != order[j]
      requires r in requests && requests[r].conn == connection && requests[r].phase == Pruning(failed)
      modifies this
      ensures Enabled(old(With(requests)), EndPrune(r, connections))
      ensures With(requests[r := requests[r].(phase := Finished)]) == Apply(old(With(requests)), EndPrune(r, connections))
    {
      hide Pruned;
      var kept := Prune(order, inUse, if failed then Some(connection) else None);
      connections := kept;
    }
  }
}
