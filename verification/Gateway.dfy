/** The HTTP handlers and the timer callback of the gateway over the actual session manager and
    signal objects. Each method is one atomic step. A reference into the session map is an object that
    is written back to it. */
module Gateway {
  import opened Wrappers
  import Sampling
  import S = Signal
  import M = SessionManager
  import Spec = GatewaySpec

  /** What a validated add-new-observable request asks for. */
  datatype AddRequest = AddRequest(paramLocation: string, deviceName: string, paramName: string, interval: nat)

  class Gateway {
    const observables: M.SessionManager<Sampling.Observation>
    const timer: S.Signal<nat>
    var observableCallbacks: map<nat, int>
    var emission: Spec.Timer   // the local variables of emit on the timer thread

    ghost predicate Valid()
      reads this, observables, timer, timer.cells
    {
      timer.Valid() && observables.Valid() && observables.maxSessions == Spec.MAX_SESSIONS
    }

    ghost function View(): Spec.Gateway
      reads this, observables, timer
    {
      Spec.Gateway(observables.sessions, observableCallbacks, timer.view, emission)
    }

    constructor (observables: M.SessionManager<Sampling.Observation>, timer: S.Signal<nat>)
      requires observables.Valid() && observables.maxSessions == Spec.MAX_SESSIONS && timer.Valid()
      ensures Valid() && this.observables == observables && this.timer == timer
      ensures View() == Spec.Gateway(observables.sessions, map[], timer.view, Spec.Waiting)
    {
      this.observables := observables;
      this.timer := timer;
      observableCallbacks := map[];
      emission := Spec.Waiting;
    }

    /** add-new-observable: creates the session, fills it in, connects its callback. */
    method AddNewObservable(request: AddRequest, now: int, draws: seq<nat>) returns (handle: nat, outcome: Spec.Outcome)
      requires Valid()
      requires forall d :: d in draws ==> d <= observables.maxSessions
      requires |observables.sessions| < observables.maxSessions ==> M.FirstUnused(draws, observables.sessions).Some?
      modifies this, observables, timer, timer.cells
      ensures Valid()
      ensures |old(observables.sessions)| >= Spec.MAX_SESSIONS ==> View() == old(View()) && outcome == Spec.Exception
      ensures |old(observables.sessions)| < Spec.MAX_SESSIONS ==>
                && handle !in old(observables.sessions)
                && (View(), outcome) == Spec.Add(old(View()), handle,
                     Sampling.Observation([], now, request.paramLocation, request.deviceName, request.paramName, request.interval))
    {
      handle := 0;
      var created := observables.Create(Sampling.Observation([], now, "", "", "", 0), draws);
      if created == None {
        return handle, Spec.Exception;
      }
      handle := created.value;
      FillIn(handle, request);
      assert observables.sessions == old(observables.sessions)[handle := Sampling.Observation(
        [], now, request.paramLocation, request.deviceName, request.paramName, request.interval)];
      var slot := timer.Connect(handle);
      if slot == None {
        return handle, Spec.Exception;
      }
      observableCallbacks := observableCallbacks[handle := slot.value];
      outcome := Spec.Done;
    }

    /** The assignments through `getObservables().get(handle)`. */
    method FillIn(handle: nat, request: AddRequest)
      requires observables.Valid() && handle in observables.sessions
      modifies observables
      ensures observables.Valid()
      ensures observables.sessions == old(observables.sessions)[handle := old(observables.sessions)[handle].(
                paramLocation := request.paramLocation, deviceName := request.deviceName,
                paramName := request.paramName, interval := request.interval)]
    {
      Assign(handle, observables.sessions[handle].(paramLocation := request.paramLocation));
      Assign(handle, observables.sessions[handle].(deviceName := request.deviceName));
      Assign(handle, observables.sessions[handle].(paramName := request.paramName));
      Assign(handle, observables.sessions[handle].(interval := request.interval));
    }

    method Assign(handle: nat, o: Sampling.Observation)
      requires observables.Valid() && handle in observables.sessions
      modifies observables
      ensures observables.Valid() && observables.sessions == old(observables.sessions)[handle := o]
    {
      ghost var before := observables.sessions;
      observables.sessions := observables.sessions[handle := o];
      assert observables.sessions.Keys == before.Keys;
      assert |before| == |before.Keys| && |observables.sessions| == |observables.sessions.Keys|;
    }

    /** update-observable. */
    method UpdateObservable(handle: nat, paramLocation: string, deviceName: string, paramName: string)
        returns (outcome: Spec.Outcome)
      requires Valid()
      modifies observables
      ensures Valid()
      ensures (View(), outcome)
           == Spec.Update(old(View()), handle, Sampling.Update(paramLocation, deviceName, paramName))
    {
      var o := observables.Get(handle);
      if o == None {
        return Spec.NotFound;
      }
      var observable := new Sampling.Observable.Of(o.value);
      observable.OnUpdate(paramLocation, deviceName, paramName);
      Assign(handle, observable.View());
      outcome := Spec.Done;
    }

    /** remove-observable: only the session goes; its callback retires on a later emission. */
    method RemoveObservable(handle: nat) returns (outcome: Spec.Outcome)
      requires Valid()
      modifies observables
      ensures Valid()
      ensures (View(), outcome) == Spec.Remove(old(View()), handle)
    {
      var ok := observables.Remove(handle);
      if !ok {
        assert observables.sessions == old(observables.sessions);
        return Spec.NotFound;
      }
      outcome := Spec.Done;
    }

    /** The timer callback that captured `handle` and is connected in `slot`. */
    method TimerCallback(handle: nat, e: Sampling.Event, ghost slot: int) returns (outcome: Spec.Outcome)
      requires Valid() && e.Fire? && slot in timer.view.live && timer.view.live[slot] == handle
      modifies this`observableCallbacks, observables, timer, timer.cells
      ensures Valid()
      ensures (View(), outcome) == Spec.Visit(old(View()), slot, e)
    {
      var o := observables.Get(handle);
      if o.Some? {
        var observable := new Sampling.Observable.Of(o.value);
        observable.OnTimer(e.check, e.stamp, e.done, e.fetched);
        Assign(handle, observable.View());
        outcome := Spec.Done;
      } else {
        if handle !in observableCallbacks {
          observableCallbacks := observableCallbacks[handle := 0];
        }
        var ok := timer.Disconnect(observableCallbacks[handle]);
        if !ok {
          return Spec.Exception;
        }
        observableCallbacks := observableCallbacks - {handle};
        outcome := Spec.Done;
      }
    }

    /** One step of the emission on the timer thread: begin, look at one cell, or end. */
    method TimerStep(e: Sampling.Event) returns (outcome: Spec.Outcome)
      requires Valid() && e.Fire?
      requires emission.Emitting? ==> emission.p >= timer.base
      modifies this, observables, timer, timer.cells
      ensures Valid() && (emission.Emitting? ==> emission.p >= timer.base)
      ensures (View(), outcome) == Spec.Tick(old(View()), e)
    {
      outcome := Spec.Done;
      match emission {
        case Waiting =>
          emission := Spec.Emitting(timer.base, timer.size);
        case Emitting(p, left) =>
          if left != 0 && p < timer.base + timer.cells.Length {
            var callback := timer.IsLive(p);
            if callback.Some? {
              outcome := TimerCallback(callback.value, e, p);
              emission := Spec.Emitting(p + 1, left - 1);
            } else {
              emission := Spec.Emitting(p + 1, left);
            }
          } else {
            emission := Spec.Waiting;
          }
      }
    }
  }
}
