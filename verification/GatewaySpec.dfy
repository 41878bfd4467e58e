/** The observation registry as a state machine: the sessions, the static map from handles to timer
    slots, and the timer signal, whose callbacks capture a handle each. HTTP handlers and the visits
    of one timer emission interleave. */
module GatewaySpec {
  import opened Wrappers
  import Sampling
  import Sig = SignalSpec

  const MAX_SESSIONS := 10000

  /** Where the timer thread is: between emissions, or about to look at cell `p` with `left` calls
      still to make. */
  datatype Timer = Waiting | Emitting(p: int, left: nat)

  datatype Gateway = Gateway(
    sessions: map<nat, Sampling.Observation>,
    callbacks: map<nat, int>,
    signal: Sig.State<nat>,
    timer: Timer)

  /** Handles, slots and live callbacks agree: each live callback is the one registered for the handle
      it captured, each registered slot is live, and every session has its callback. */
  ghost predicate Agree(g: Gateway) {
    && g.signal.Inv()
    && (forall h :: h in g.callbacks ==> g.callbacks[h] in g.signal.live && g.signal.live[g.callbacks[h]] == h)
    && (forall p :: p in g.signal.live ==> g.signal.live[p] in g.callbacks && g.callbacks[g.signal.live[p]] == p)
    && (forall h :: h in g.sessions ==> h in g.callbacks)
  }

  // ---------- the steps ----------

  datatype Outcome = Done | NotFound | Exception

  /** add-new-observable behind its validation, with the handle that `create` draws. */
  function Add(g: Gateway, handle: nat, o: Sampling.Observation): (Gateway, Outcome)
    requires g.signal.free != [] && handle !in g.sessions
  {
    if |g.sessions| >= MAX_SESSIONS then (g, Exception)
    else
      var created := g.(sessions := g.sessions[handle := o]);
      var (signal, slot) := Sig.Connect(g.signal, handle);
      if slot == None then (created, Exception)
      else (created.(signal := signal, callbacks := g.callbacks[handle := slot.value]), Done)
  }

  function Update(g: Gateway, handle: nat, e: Sampling.Event): (Gateway, Outcome) {
    if handle !in g.sessions then (g, NotFound)
    else (g.(sessions := g.sessions[handle := Sampling.Apply(g.sessions[handle], e)]), Done)
  }

  function Remove(g: Gateway, handle: nat): (Gateway, Outcome) {
    if handle !in g.sessions then (g, NotFound) else (g.(sessions := g.sessions - {handle}), Done)
  }

  /** The callback of the live slot `p`: samples its session, or retires itself through the slot
      registered for its handle. `observable_callbacks[handle]` makes a null entry where there is
      none; `Exception` is an exception that leaves the callback and the timer thread with it. */
  function Visit(g: Gateway, p: int, e: Sampling.Event): (Gateway, Outcome)
    requires g.signal.free != [] && p in g.signal.live
  {
    var h := g.signal.live[p];
    if h in g.sessions then Update(g, h, e)
    else
      var registered := if h in g.callbacks then g.callbacks else g.callbacks[h := 0];
      var (signal, ok) := Sig.Disconnect(g.signal, registered[h]);
      if !ok then (g.(callbacks := registered), Exception)
      else (g.(signal := signal, callbacks := g.callbacks - {h}), Done)
  }

  /** One step of `emit`: start an emission, look at one cell, or finish. */
  function Tick(g: Gateway, e: Sampling.Event): (Gateway, Outcome)
    requires g.signal.free != []
  {
    match g.timer
    case Waiting => (g.(timer := Emitting(g.signal.lo, |g.signal.live|)), Done)
    case Emitting(p, left) =>
      if left == 0 || p >= g.signal.lo + g.signal.cells then (g.(timer := Waiting), Done)
      else if p in g.signal.live then
        var (g', outcome) := Visit(g, p, e);
        (g'.(timer := Emitting(p + 1, left - 1)), outcome)
      else (g.(timer := Emitting(p + 1, left)), Done)
  }

  // ---------- agreement ----------

  /** Adding a session keeps the agreement exactly if a slot was free and the handle had no callback
      left from before, or neither. */
  lemma AddKeepsAgreement(g: Gateway, handle: nat, o: Sampling.Observation)
    requires Agree(g) && handle !in g.sessions && |g.sessions| < MAX_SESSIONS
    ensures Agree(Add(g, handle, o).0) <==> (g.signal.Full() <==> handle in g.callbacks)
    ensures Add(g, handle, o).1 == Done <==> !g.signal.Full()
  {
    var g' := Add(g, handle, o).0;
    Sig.ConnectKeepsInv(g.signal, handle);
    if !g.signal.Full() {
      assert g.signal.InBuffer(g.signal.free[0]);
      if handle in g.callbacks {
        var stale := g.callbacks[handle];
        assert stale in g'.signal.live && g'.signal.live[stale] == handle && g'.callbacks[handle] != stale;
      }
    }
  }

  /** The limit on sessions is never what stops an add: the timer's slots run out first. */
  lemma SlotsRunOutFirst(g: Gateway)
    requires Agree(g) && g.signal.cells <= MAX_SESSIONS
    ensures |g.sessions| < MAX_SESSIONS
  {
    AgreementIsBijection(g);
    InjectiveSize(g.callbacks);
    assert g.sessions.Keys <= g.callbacks.Keys;
    SubsetSize(g.sessions.Keys, g.callbacks.Keys);
    assert |g.sessions| == |g.sessions.Keys| && |g.callbacks| == |g.callbacks.Keys|;
    assert |g.signal.live| == |g.signal.live.Keys|;
  }

  lemma {:induction false} InjectiveSize(m: map<nat, int>)
    requires forall h, k :: h in m && k in m && h != k ==> m[h] != m[k]
    ensures |m.Keys| == |m.Values|
    decreases |m|
  {
    if m == map[] {
      assert m.Values == {};
    } else {
      var h :| h in m;
      var rest := m - {h};
      assert rest.Keys == m.Keys - {h};
      assert |rest| == |rest.Keys| && |m| == |m.Keys|;
      InjectiveSize(rest);
      forall v | v in m.Values ensures v in rest.Values + {m[h]} {
        var k :| k in m && m[k] == v;
        assert k != h ==> k in rest && rest[k] == v;
      }
      assert m.Values == rest.Values + {m[h]};
      assert m[h] !in rest.Values;
    }
  }

  lemma RemoveKeepsAgreement(g: Gateway, handle: nat)
    requires Agree(g)
    ensures Agree(Remove(g, handle).0)
  {
  }

  /** Under agreement no callback throws out of the timer, and the agreement is kept. */
  lemma VisitKeepsAgreement(g: Gateway, p: int, e: Sampling.Event)
    requires Agree(g) && p in g.signal.live
    ensures Agree(Visit(g, p, e).0) && Visit(g, p, e).1 == Done
    ensures Visit(g, p, e).0.sessions.Keys == g.sessions.Keys
    ensures var g' := Visit(g, p, e).0;
            if g.signal.live[p] in g.sessions then g'.signal == g.signal && g'.callbacks == g.callbacks
            else g'.signal.live == g.signal.live - {p} && g'.callbacks == g.callbacks - {g.signal.live[p]}
                 && g'.signal.lo == g.signal.lo && g'.signal.cells == g.signal.cells
  {
    Sig.DisconnectKeepsInv(g.signal, p);
  }

  lemma TickKeepsAgreement(g: Gateway, e: Sampling.Event)
    requires Agree(g)
    ensures Agree(Tick(g, e).0) && Tick(g, e).1 == Done
    ensures Tick(g, e).0.sessions.Keys == g.sessions.Keys
  {
    match g.timer
    case Waiting =>
    case Emitting(p, left) =>
      if left > 0 && p in g.signal.live {
        hide Visit;
        VisitKeepsAgreement(g, p, e);
      }
  }

  // ---------- every interleaving ----------

  datatype Step =
    | DoAdd(handle: nat, o: Sampling.Observation)
    | DoUpdate(handle: nat, e: Sampling.Event)
    | DoRemove(handle: nat)
    | DoTick(e: Sampling.Event)

  /** What the agreement asks of an added session: a fresh handle whose old callback has retired, and
      a free slot. */
  predicate Allowed(g: Gateway, step: Step) {
    step.DoAdd? ==> step.handle !in g.sessions && step.handle !in g.callbacks && !g.signal.Full() && |g.sessions| < MAX_SESSIONS
  }

  /** What `create` guarantees of its own accord. */
  predicate Possible(g: Gateway, step: Step) {
    step.DoAdd? ==> step.handle !in g.sessions
  }

  function Apply(g: Gateway, step: Step): (Gateway, Outcome)
    requires g.signal.free != [] && Possible(g, step)
  {
    match step
    case DoAdd(h, o) => Add(g, h, o)
    case DoUpdate(h, e) => Update(g, h, e)
    case DoRemove(h) => Remove(g, h)
    case DoTick(e) => Tick(g, e)
  }

  lemma ApplyKeepsAgreement(g: Gateway, step: Step)
    requires Agree(g) && Allowed(g, step)
    ensures Agree(Apply(g, step).0) && Apply(g, step).1 != Exception
  {
    hide Add, Remove, Tick;
    match step
    case DoAdd(h, o) => AddKeepsAgreement(g, h, o);
    case DoUpdate(h, e) =>
    case DoRemove(h) => RemoveKeepsAgreement(g, h); RemoveOutcome(g, h);
    case DoTick(e) => TickKeepsAgreement(g, e);
  }

  lemma RemoveOutcome(g: Gateway, handle: nat)
    ensures Remove(g, handle).1 != Exception
  {
  }

  /** A run: the states before and after each step. */
  ghost predicate IsRun(states: seq<Gateway>, steps: seq<Step>) {
    && |states| == |steps| + 1
    && forall i :: 0 <= i < |steps| ==>
         states[i].signal.free != [] && Allowed(states[i], steps[i]) && states[i + 1] == Apply(states[i], steps[i]).0
  }

  /** Over every interleaving of adds, updates, removals and timer steps the registry agrees, and no
      exception escapes. */
  lemma {:induction false} RunKeepsAgreement(states: seq<Gateway>, steps: seq<Step>, i: nat)
    requires IsRun(states, steps) && Agree(states[0]) && i <= |steps|
    ensures Agree(states[i])
    ensures i < |steps| ==> Apply(states[i], steps[i]).1 != Exception
  {
    hide Agree;
    if i > 0 {
      RunKeepsAgreement(states, steps, i - 1);
      ApplyKeepsAgreement(states[i - 1], steps[i - 1]);
      assert states[i - 1 + 1] == Apply(states[i - 1], steps[i - 1]).0;
    }
    if i < |steps| {
      AgreeHasFree(states[i]);
      ApplyKeepsAgreement(states[i], steps[i]);
    }
  }

  lemma AgreeHasFree(g: Gateway)
    requires Agree(g)
    ensures g.signal.free != []
  {
  }

  /** Agreement is a bijection between the registered handles and the live slots. */
  lemma AgreementIsBijection(g: Gateway)
    requires Agree(g)
    ensures g.callbacks.Values == g.signal.live.Keys
    ensures forall h, k :: h in g.callbacks && k in g.callbacks && h != k ==> g.callbacks[h] != g.callbacks[k]
    ensures forall h :: h in g.sessions ==> h in g.callbacks && g.signal.live[g.callbacks[h]] == h
  {
    forall p | p in g.signal.live ensures p in g.callbacks.Values {
      assert g.callbacks[g.signal.live[p]] == p;
    }
  }

  // ---------- retirement ----------

  /** The callbacks of the handles `gone` that are still registered lie ahead of the scan, and the
      scan has calls left for every live cell ahead. */
  ghost predicate Sweeping(g: Gateway, gone: set<nat>) {
    && Agree(g)
    && (forall h :: h in gone ==> h !in g.sessions)
    && match g.timer
       case Waiting => forall h :: h in gone ==> h !in g.callbacks
       case Emitting(p, left) =>
         && |Sig.LiveFrom(g.signal, p)| <= left
         && (forall h :: h in gone && h in g.callbacks ==> p <= g.callbacks[h])
  }

  lemma SweepBegins(g: Gateway, gone: set<nat>, e: Sampling.Event)
    requires Agree(g) && g.timer == Waiting && forall h :: h in gone ==> h !in g.sessions
    ensures Sweeping(Tick(g, e).0, gone)
  {
    assert Sig.LiveFrom(g.signal, g.signal.lo) == g.signal.live.Keys;
    assert |g.signal.live| == |g.signal.live.Keys|;
    assert forall p :: p in g.signal.live ==> g.signal.InBuffer(p);
  }

  lemma SweepContinues(g: Gateway, gone: set<nat>, e: Sampling.Event)
    requires Sweeping(g, gone) && g.timer.Emitting?
    ensures Sweeping(Tick(g, e).0, gone)
  {
    var p, left := g.timer.p, g.timer.left;
    if left == 0 || p >= g.signal.lo + g.signal.cells {
      SweepEnds(g, gone, e);
    } else if p in g.signal.live {
      SweepVisits(g, gone, e);
    } else {
      assert Sig.LiveFrom(g.signal, p + 1) == Sig.LiveFrom(g.signal, p);
    }
  }

  lemma SweepEnds(g: Gateway, gone: set<nat>, e: Sampling.Event)
    requires Sweeping(g, gone) && g.timer.Emitting?
    requires g.timer.left == 0 || g.timer.p >= g.signal.lo + g.signal.cells
    ensures Sweeping(Tick(g, e).0, gone)
  {
    var from := Sig.LiveFrom(g.signal, g.timer.p);
    assert g.timer.left == 0 ==> from == {};
    assert forall q :: q in g.signal.live ==> g.signal.InBuffer(q);
    assert forall h :: h in gone && h in g.callbacks ==> g.callbacks[h] in from;
  }

  lemma SweepVisits(g: Gateway, gone: set<nat>, e: Sampling.Event)
    requires Sweeping(g, gone) && g.timer.Emitting? && g.timer.left > 0
    requires g.timer.p < g.signal.lo + g.signal.cells && g.timer.p in g.signal.live
    ensures Sweeping(Tick(g, e).0, gone)
  {
    hide Visit, Tick;
    var p := g.timer.p;
    VisitKeepsAgreement(g, p, e);
    FewerAhead(g.signal, Visit(g, p, e).0.signal, p);
    TickVisits(g, e);
  }

  lemma FewerAhead(s: Sig.State<nat>, t: Sig.State<nat>, p: int)
    requires p in s.live && t.live.Keys <= s.live.Keys
    ensures |Sig.LiveFrom(t, p + 1)| <= |Sig.LiveFrom(s, p)| - 1
  {
    var from := Sig.LiveFrom(s, p);
    assert Sig.LiveFrom(t, p + 1) <= from - {p} && p in from;
    SubsetSize(Sig.LiveFrom(t, p + 1), from - {p});
  }

  lemma TickVisits(g: Gateway, e: Sampling.Event)
    requires Agree(g) && g.timer.Emitting? && g.timer.left > 0
    requires g.timer.p < g.signal.lo + g.signal.cells && g.timer.p in g.signal.live
    ensures Tick(g, e).0 == Visit(g, g.timer.p, e).0.(timer := Emitting(g.timer.p + 1, g.timer.left - 1))
  {
  }

  lemma SweepSurvives(g: Gateway, gone: set<nat>, step: Step)
    requires Sweeping(g, gone) && (step.DoUpdate? || step.DoRemove?)
    ensures Allowed(g, step) && Sweeping(Apply(g, step).0, gone)
  {
  }

  /** Every handle removed before an emission began has lost its callback when the emission ends,
      whatever updates and removals happen during it, if nothing is added meanwhile. */
  lemma {:induction false} RemovedCallbacksRetire(states: seq<Gateway>, steps: seq<Step>, gone: set<nat>)
    requires IsRun(states, steps) && |steps| > 0
    requires Agree(states[0]) && states[0].timer == Waiting && steps[0].DoTick?
    requires forall h :: h in gone ==> h !in states[0].sessions
    requires forall i :: 1 <= i < |steps| ==> !steps[i].DoAdd?
    requires forall i :: 1 <= i < |steps| ==> states[i].timer.Emitting?
    ensures Sweeping(states[|steps|], gone)
    ensures states[|steps|].timer == Waiting ==> forall h :: h in gone ==> h !in states[|steps|].callbacks
  {
    var n := |steps| - 1;
    if n == 0 {
      SweepBegins(states[0], gone, steps[0].e);
      assert states[0 + 1] == Apply(states[0], steps[0]).0;
    } else {
      var shorter := steps[..n];
      assert forall i :: 0 <= i < n ==> shorter[i] == steps[i];
      assert forall i :: 0 <= i <= n ==> states[..n + 1][i] == states[i];
      RemovedCallbacksRetire(states[..n + 1], shorter, gone);
      assert states[n + 1] == Apply(states[n], steps[n]).0;
      if steps[n].DoTick? {
        SweepContinues(states[n], gone, steps[n].e);
      } else {
        SweepSurvives(states[n], gone, steps[n]);
      }
    }
  }

  /** After one full emission without adds or removals, the registered handles are the sessions. */
  lemma FullTickAligns(states: seq<Gateway>, steps: seq<Step>)
    requires IsRun(states, steps) && |steps| > 0
    requires Agree(states[0]) && states[0].timer == Waiting && states[|steps|].timer == Waiting
    requires forall i :: 0 <= i < |steps| ==> steps[i].DoTick? || steps[i].DoUpdate?
    requires steps[0].DoTick? && forall i :: 1 <= i < |steps| ==> states[i].timer.Emitting?
    ensures states[|steps|].callbacks.Keys == states[|steps|].sessions.Keys == states[0].sessions.Keys
  {
    var gone := states[0].callbacks.Keys - states[0].sessions.Keys;
    RemovedCallbacksRetire(states, steps, gone);
    SessionsStay(states, steps, |steps|);
  }

  lemma {:induction false} SessionsStay(states: seq<Gateway>, steps: seq<Step>, n: nat)
    requires IsRun(states, steps) && Agree(states[0]) && n <= |steps|
    requires forall i :: 0 <= i < |steps| ==> steps[i].DoTick? || steps[i].DoUpdate?
    ensures states[n].sessions.Keys == states[0].sessions.Keys
    ensures states[n].callbacks.Keys <= states[0].callbacks.Keys
  {
    if n > 0 {
      SessionsStay(states, steps, n - 1);
      RunKeepsAgreement(states, steps, n - 1);
      assert states[n - 1 + 1] == Apply(states[n - 1], steps[n - 1]).0;
      if steps[n - 1].DoTick? {
        TickShrinks(states[n - 1], steps[n - 1].e);
      }
    }
  }

  lemma TickShrinks(g: Gateway, e: Sampling.Event)
    requires Agree(g)
    ensures Tick(g, e).0.sessions.Keys == g.sessions.Keys
    ensures Tick(g, e).0.callbacks.Keys <= g.callbacks.Keys
  {
    match g.timer
    case Waiting =>
    case Emitting(p, left) =>
      if left > 0 && p in g.signal.live {
        VisitKeepsAgreement(g, p, e);
      }
  }

  // ---------- the emission is emit ----------

  /** The rest of an emission that nothing interrupts; `es` gives the clock and device for each cell. */
  function Sweep(g: Gateway, es: int -> Sampling.Event): Gateway
    requires g.signal.free != [] && g.timer.Emitting?
    decreases g.signal.lo + g.signal.cells - g.timer.p, g.timer.left
  {
    var p, left := g.timer.p, g.timer.left;
    TickShape(g, es(p));
    var next := Tick(g, es(p)).0;
    if left == 0 || p >= g.signal.lo + g.signal.cells then next else Sweep(next, es)
  }

  lemma TickShape(g: Gateway, e: Sampling.Event)
    requires g.signal.free != [] && g.timer.Emitting?
    ensures var t := Tick(g, e).0;
            && t.signal.free != [] && t.signal.lo == g.signal.lo && t.signal.cells == g.signal.cells
            && t.timer == if g.timer.left == 0 || g.timer.p >= g.signal.lo + g.signal.cells then Waiting
                          else Emitting(g.timer.p + 1, if g.timer.p in g.signal.live then g.timer.left - 1 else g.timer.left)
  {
  }

  /** What the callbacks do to the signal: the one in slot `q` drops `q` if its session is gone. */
  ghost predicate Retires(g: Gateway, react: Sig.Reaction<nat>) {
    forall k, q :: q in g.signal.live ==>
      react(k, g.signal.live[q]) == if g.signal.live[q] in g.sessions then [] else [Sig.Drop(q)]
  }

  lemma VisitReacts(g: Gateway, p: int, e: Sampling.Event, react: Sig.Reaction<nat>, k: nat)
    requires Agree(g) && Retires(g, react) && p in g.signal.live
    ensures Visit(g, p, e).0.signal == Sig.Run(g.signal, react(k, g.signal.live[p]))
    ensures Retires(Visit(g, p, e).0, react)
  {
    VisitKeepsAgreement(g, p, e);
    var ops := react(k, g.signal.live[p]);
    if ops != [] {
      assert ops[1..] == [];
      assert Sig.Run(Sig.Apply(g.signal, ops[0]), ops[1..]) == Sig.Apply(g.signal, ops[0]);
    }
  }

  /** An uninterrupted emission of the registry, step by step, does to the signal what one call of
      `emit` does with these callbacks. */
  lemma {:induction false} SweepIsEmit(g: Gateway, es: int -> Sampling.Event, react: Sig.Reaction<nat>, k: nat)
    requires Agree(g) && g.timer.Emitting? && Retires(g, react)
    ensures Sweep(g, es).signal == Sig.Scan(g.signal, g.timer.p, g.timer.left, k, react).end
    ensures Sweep(g, es).timer == Waiting
    decreases g.signal.lo + g.signal.cells - g.timer.p, g.timer.left
  {
    var p, left := g.timer.p, g.timer.left;
    TickShape(g, es(p));
    if left > 0 && p < g.signal.lo + g.signal.cells {
      TickKeepsAgreement(g, es(p));
      hide Visit, Agree;
      var next := Tick(g, es(p)).0;
      if p in g.signal.live {
        TickVisits(g, es(p));
        VisitReacts(g, p, es(p), react, k);
        SweepIsEmit(next, es, react, k + 1);
      } else {
        SweepIsEmit(next, es, react, k);
      }
    }
  }

  /** Such an emission samples each session exactly once if the scan has its callback ahead, with the
      event of its cell, and otherwise leaves it alone. */
  lemma {:induction false} SweepSamplesEach(g: Gateway, es: int -> Sampling.Event, h: nat)
    requires Agree(g) && g.timer.Emitting? && |Sig.LiveFrom(g.signal, g.timer.p)| <= g.timer.left && h in g.sessions
    ensures var after := Sweep(g, es);
            && after.sessions.Keys == g.sessions.Keys
            && after.sessions[h] == if g.callbacks[h] >= g.timer.p then Sampling.Apply(g.sessions[h], es(g.callbacks[h])) else g.sessions[h]
    decreases g.signal.lo + g.signal.cells - g.timer.p, g.timer.left
  {
    var p, left := g.timer.p, g.timer.left;
    TickShape(g, es(p));
    Ahead(g, h);
    if left > 0 && p < g.signal.lo + g.signal.cells {
      var next := Tick(g, es(p)).0;
      TickKeepsAgreement(g, es(p));
      TickOnSession(g, es(p), h);
      TickLeavesAhead(g, es(p));
      hide Agree, Tick, Sig.LiveFrom;
      SweepSamplesEach(next, es, h);
    }
  }

  /** The callback of a session is a live cell, ahead of the scan or behind it. */
  lemma Ahead(g: Gateway, h: nat)
    requires Agree(g) && g.timer.Emitting? && |Sig.LiveFrom(g.signal, g.timer.p)| <= g.timer.left && h in g.sessions
    ensures g.timer.left == 0 || g.timer.p >= g.signal.lo + g.signal.cells ==> g.callbacks[h] < g.timer.p
  {
    assert g.signal.InBuffer(g.callbacks[h]);
    assert g.callbacks[h] >= g.timer.p ==> g.callbacks[h] in Sig.LiveFrom(g.signal, g.timer.p);
  }

  lemma TickLeavesAhead(g: Gateway, e: Sampling.Event)
    requires Agree(g) && g.timer.Emitting? && g.timer.left > 0 && g.timer.p < g.signal.lo + g.signal.cells
    requires |Sig.LiveFrom(g.signal, g.timer.p)| <= g.timer.left
    ensures var t := Tick(g, e).0; t.timer.Emitting? && |Sig.LiveFrom(t.signal, t.timer.p)| <= t.timer.left
  {
    var p := g.timer.p;
    if p in g.signal.live {
      VisitKeepsAgreement(g, p, e);
      FewerAhead(g.signal, Visit(g, p, e).0.signal, p);
      hide Visit;
    } else {
      assert Sig.LiveFrom(g.signal, p + 1) == Sig.LiveFrom(g.signal, p);
    }
  }

  /** What one step of an emission does to a session and to its callback. */
  lemma TickOnSession(g: Gateway, e: Sampling.Event, h: nat)
    requires Agree(g) && g.timer.Emitting? && g.timer.left > 0 && g.timer.p < g.signal.lo + g.signal.cells && h in g.sessions
    ensures var t := Tick(g, e).0;
            && t.sessions.Keys == g.sessions.Keys && h in t.callbacks && h in g.callbacks && t.callbacks[h] == g.callbacks[h]
            && t.sessions[h] == if g.callbacks[h] == g.timer.p then Sampling.Apply(g.sessions[h], e) else g.sessions[h]
  {
    hide Sampling.Apply;
  }

  // ---------- what happens to a session ----------

  /** The timer is about to call the callback that captured `h`. */
  predicate Calls(g: Gateway, h: nat) {
    && g.timer.Emitting? && g.timer.left > 0 && g.timer.p < g.signal.lo + g.signal.cells
    && g.timer.p in g.signal.live && g.signal.live[g.timer.p] == h
  }

  /** What a step has for the session `h`. */
  function EventFor(g: Gateway, step: Step, h: nat): seq<Sampling.Event> {
    match step
    case DoUpdate(k, e) => if k == h then [e] else []
    case DoTick(e) => if Calls(g, h) then [e] else []
    case _ => []
  }

  function EventsFor(states: seq<Gateway>, steps: seq<Step>, h: nat, i: nat, j: nat): seq<Sampling.Event>
    requires i <= j <= |steps| && |states| == |steps| + 1
    decreases j
  {
    if i == j then [] else EventsFor(states, steps, h, i, j - 1) + EventFor(states[j - 1], steps[j - 1], h)
  }

  lemma StepOnSession(g: Gateway, step: Step, h: nat)
    requires g.signal.free != [] && Possible(g, step) && h in g.sessions && h in Apply(g, step).0.sessions
    ensures var events, after := EventFor(g, step, h), Apply(g, step).0.sessions[h];
            after == if events == [] then g.sessions[h] else Sampling.Apply(g.sessions[h], events[0])
  {
    hide Sampling.Apply;
  }

  /** Over every run, whatever else is added, removed and sampled in between: a session is what its own
      updates and the calls of callbacks for its handle have made of it, one after the other. */
  lemma {:induction false} SessionIsItsOwnRun(states: seq<Gateway>, steps: seq<Step>, h: nat, i: nat, j: nat)
    requires IsFreeRun(states, steps) && i <= j <= |steps| && forall k :: i <= k <= j ==> h in states[k].sessions
    ensures states[j].sessions[h] == Sampling.Run(states[i].sessions[h], EventsFor(states, steps, h, i, j))
    decreases j
  {
    hide Apply, Calls, Sampling.Apply;
    if i < j {
      SessionIsItsOwnRun(states, steps, h, i, j - 1);
      assert states[j - 1 + 1] == Apply(states[j - 1], steps[j - 1]).0;
      StepOnSession(states[j - 1], steps[j - 1], h);
      var events, more := EventsFor(states, steps, h, i, j - 1), EventFor(states[j - 1], steps[j - 1], h);
      if more == [] {
        assert events + more == events;
      } else {
        assert more == [more[0]];
        OneMore(states[i].sessions[h], events, more[0]);
      }
    }
  }

  lemma OneMore(o: Sampling.Observation, events: seq<Sampling.Event>, e: Sampling.Event)
    ensures Sampling.Run(o, events + [e]) == Sampling.Apply(Sampling.Run(o, events), e)
  {
    hide Sampling.Apply;
    assert (events + [e])[..|events|] == events;
  }

  lemma TickKeepsKeys(g: Gateway, e: Sampling.Event)
    requires g.signal.free != []
    ensures Tick(g, e).0.sessions.Keys == g.sessions.Keys
  {
    hide Visit;
    match g.timer
    case Waiting =>
    case Emitting(p, left) =>
      if p in g.signal.live {
        VisitKeepsKeys(g, p, e);
      }
  }

  lemma VisitKeepsKeys(g: Gateway, p: int, e: Sampling.Event)
    requires g.signal.free != [] && p in g.signal.live
    ensures Visit(g, p, e).0.sessions.Keys == g.sessions.Keys
  {
    hide Sampling.Apply;
  }

  lemma AddChanges(g: Gateway, h: nat, o: Sampling.Observation)
    requires g.signal.free != [] && h !in g.sessions
    ensures var t := Add(g, h, o).0;
            if |g.sessions| >= 10000 then t == g else t.sessions == g.sessions[h := o]
  {
  }

  /** Only adding and removing changes which sessions there are; an added one is as asked for. */
  lemma SessionsChangeOnlyBy(g: Gateway, step: Step)
    requires g.signal.free != [] && Possible(g, step)
    ensures var t := Apply(g, step).0;
            match step
            case DoAdd(h, o) => if |g.sessions| >= 10000 then t == g else t.sessions == g.sessions[h := o]
            case DoRemove(h) => t.sessions == g.sessions - {h}
            case _ => t.sessions.Keys == g.sessions.Keys
    ensures step.DoUpdate? || step.DoRemove? ==> Apply(g, step).1 == if step.handle in g.sessions then Done else NotFound
  {
    hide Sampling.Apply, Add, Tick;
    match step
    case DoAdd(h, o) => AddChanges(g, h, o);
    case DoUpdate(h, e) => assert h in g.sessions ==> Update(g, h, e).0.sessions.Keys == g.sessions.Keys;
    case DoRemove(h) => assert h !in g.sessions ==> g.sessions - {h} == g.sessions;
    case DoTick(e) => TickKeepsKeys(g, e);
  }

  // ---------- why the hypotheses are needed ----------

  /** A run in which a handle may be drawn again while its old callback is still connected. */
  ghost predicate IsFreeRun(states: seq<Gateway>, steps: seq<Step>) {
    && |states| == |steps| + 1
    && forall i :: 0 <= i < |steps| ==>
         states[i].signal.free != [] && Possible(states[i], steps[i]) && states[i + 1] == Apply(states[i], steps[i]).0
  }

  /** The states of the run below, for a signal with the free cells `f`. */
  function Issued(f: seq<int>, cells: nat, h: nat, o: Sampling.Observation, i: nat): Gateway
    requires |f| >= 3 && i <= 8
  {
    var lo := f[0];
    var none := Sig.State(lo, cells, f, map[]);
    var one := Sig.State(lo, cells, f[1..], map[lo := h]);
    var two := Sig.State(lo, cells, f[1..][1..], map[lo := h, f[1] := h]);
    var stale := Sig.State(lo, cells, [f[2], f[1]] + f[3..], map[lo := h]);
    if i == 0 then Gateway(map[], map[], none, Waiting)
    else if i == 1 then Gateway(map[h := o], map[h := lo], one, Waiting)
    else if i == 2 then Gateway(map[], map[h := lo], one, Waiting)
    else if i == 3 then Gateway(map[], map[h := lo], one, Emitting(lo, 1))
    else if i == 4 then Gateway(map[h := o], map[h := f[1]], two, Emitting(lo, 1))
    else if i == 5 then Gateway(map[], map[h := f[1]], two, Emitting(lo, 1))
    else if i == 6 then Gateway(map[], map[], stale, Emitting(lo + 1, 0))
    else if i == 7 then Gateway(map[], map[], stale, Waiting)
    else Gateway(map[], map[], stale, Emitting(lo, 1))
  }

  /** A handle drawn again before its old callback has retired ends in an exception on the timer
      thread, whatever the capacity: both callbacks capture the handle, the old one retires the slot of
      the new one, and the next emission finds no slot registered for the old one. */
  lemma ReissuedHandle(signal: Sig.State<nat>, h: nat, o: Sampling.Observation, e: Sampling.Event)
      returns (states: seq<Gateway>, steps: seq<Step>)
    requires signal.Inv() && signal.live == map[] && signal.cells >= 3 && signal.lo > 0 && signal.free[0] == signal.lo
    ensures steps == [DoAdd(h, o), DoRemove(h), DoTick(e), DoAdd(h, o), DoRemove(h), DoTick(e), DoTick(e), DoTick(e)]
    ensures IsFreeRun(states, steps) && states[0] == Gateway(map[], map[], signal, Waiting) && Agree(states[0])
    ensures states[8].signal.free != [] && Apply(states[8], DoTick(e)).1 == Exception
    ensures Apply(states[8], DoTick(e)).0.callbacks == map[h := 0]
  {
    var f := signal.free;
    assert |signal.live| == 0;
    steps := [DoAdd(h, o), DoRemove(h), DoTick(e), DoAdd(h, o), DoRemove(h), DoTick(e), DoTick(e), DoTick(e)];
    states := seq(9, i requires 0 <= i < 9 => Issued(f, signal.cells, h, o, i));
    forall i | 0 <= i < 8
      ensures states[i].signal.free != [] && Possible(states[i], steps[i]) && states[i + 1] == Apply(states[i], steps[i]).0
    {
      IssueStep(f, signal.cells, h, o, e, i);
    }
    LastVisit(f, signal.cells, h, o, e);
  }

  lemma IssueStep(f: seq<int>, cells: nat, h: nat, o: Sampling.Observation, e: Sampling.Event, i: nat)
    requires |f| >= 3 && cells >= 3 && f[0] != f[1] && i < 8
    ensures var steps := [DoAdd(h, o), DoRemove(h), DoTick(e), DoAdd(h, o), DoRemove(h), DoTick(e), DoTick(e), DoTick(e)];
            var g := Issued(f, cells, h, o, i);
            g.signal.free != [] && Possible(g, steps[i]) && Apply(g, steps[i]).0 == Issued(f, cells, h, o, i + 1)
  {
    hide Issued, Add, Remove, Tick;
    if i == 0 || i == 3 {
      AddStep(f, cells, h, o, i);
    } else if i == 1 || i == 4 {
      RemoveStep(f, cells, h, o, i);
    } else if i == 5 {
      OldCallbackRetiresNewSlot(f, cells, h, o, e);
    } else {
      TickStep(f, cells, h, o, e, i);
    }
  }

  lemma AddStep(f: seq<int>, cells: nat, h: nat, o: Sampling.Observation, i: nat)
    requires |f| >= 3 && (i == 0 || i == 3)
    ensures var g := Issued(f, cells, h, o, i);
            g.signal.free != [] && h !in g.sessions && Add(g, h, o).0 == Issued(f, cells, h, o, i + 1)
  {
  }

  lemma RemoveStep(f: seq<int>, cells: nat, h: nat, o: Sampling.Observation, i: nat)
    requires |f| >= 3 && (i == 1 || i == 4)
    ensures Issued(f, cells, h, o, i).signal.free != [] && Remove(Issued(f, cells, h, o, i), h).0 == Issued(f, cells, h, o, i + 1)
  {
    assert map[h := o] - {h} == map[];
  }

  lemma TickStep(f: seq<int>, cells: nat, h: nat, o: Sampling.Observation, e: Sampling.Event, i: nat)
    requires |f| >= 3 && (i == 2 || i == 6 || i == 7)
    ensures Issued(f, cells, h, o, i).signal.free != [] && Tick(Issued(f, cells, h, o, i), e).0 == Issued(f, cells, h, o, i + 1)
  {
  }

  lemma OldCallbackRetiresNewSlot(f: seq<int>, cells: nat, h: nat, o: Sampling.Observation, e: Sampling.Event)
    requires |f| >= 3 && cells >= 3 && f[0] != f[1]
    ensures Issued(f, cells, h, o, 5).signal.free != [] && Tick(Issued(f, cells, h, o, 5), e).0 == Issued(f, cells, h, o, 6)
  {
    assert map[h := f[1]] - {h} == map[];
    assert map[f[0] := h, f[1] := h] - {f[1]} == map[f[0] := h];
    assert f[1..][1..][0] == f[2] && f[1..][1..][1..] == f[3..];
  }

  lemma LastVisit(f: seq<int>, cells: nat, h: nat, o: Sampling.Observation, e: Sampling.Event)
    requires |f| >= 3 && cells >= 3 && f[0] > 0
    ensures Issued(f, cells, h, o, 8).signal.free != [] && Tick(Issued(f, cells, h, o, 8), e).1 == Exception
    ensures Tick(Issued(f, cells, h, o, 8), e).0.callbacks == map[h := 0]
  {
  }
}
