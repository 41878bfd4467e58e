/** An observable's value history and the timer callback that samples it. Times are clock ticks. */
module Sampling {
  import opened Wrappers
  import opened Text

  const SECOND := 1_000_000_000
  const CAPACITY := 50

  datatype Sample = Sample(time: int, value: real)

  datatype Observation = Observation(values: seq<Sample>, latestObservation: int, paramLocation: string,
                                     deviceName: string, paramName: string, interval: nat)

  /** Whole seconds of a duration: `duration_cast` drops the fraction, towards zero. */
  function WholeSeconds(ticks: int): int {
    if ticks >= 0 then ticks / SECOND else -((-ticks) / SECOND)
  }

  /** `secs >= observable.interval`: the signed count is converted to `size_t` first. */
  predicate Due(o: Observation, now: int) {
    WholeSeconds(now - o.latestObservation) % ULONG_LIMIT >= o.interval
  }

  /** `push_back` on a circular buffer: the oldest value makes room when the buffer is full. */
  function PushBack(values: seq<Sample>, s: Sample): seq<Sample> {
    (if |values| == CAPACITY then values[1..] else values) + [s]
  }

  /** One call of the timer callback. It reads the clock when it checks, when it stores the value and
      when it is done; `fetched` is what the device answered, if it answered. */
  datatype Event =
    | Fire(check: int, stamp: int, done: int, fetched: Option<real>)
    | Update(paramLocation: string, deviceName: string, paramName: string)

  function NewSample(e: Event): Sample
    requires e.Fire?
  {
    Sample(e.stamp, if e.fetched == None then 0.0 else e.fetched.value)
  }

  function Apply(o: Observation, e: Event): Observation {
    match e
    case Fire(check, stamp, done, fetched) =>
      if Due(o, check) then o.(values := PushBack(o.values, NewSample(e)), latestObservation := done) else o
    case Update(location, device, param) =>
      o.(values := if o.paramLocation != location then [] else o.values,
         paramLocation := location, deviceName := device, paramName := param)
  }

  class Observable {
    var values: seq<Sample>
    var latestObservation: int
    var paramLocation: string
    var deviceName: string
    var paramName: string
    var interval: nat

    function View(): Observation
      reads this
    {
      Observation(values, latestObservation, paramLocation, deviceName, paramName, interval)
    }

    constructor (now: int, paramLocation: string, deviceName: string, paramName: string, interval: nat)
      ensures View() == Observation([], now, paramLocation, deviceName, paramName, interval)
    {
      values := [];
      latestObservation := now;
      this.paramLocation, this.deviceName, this.paramName, this.interval := paramLocation, deviceName, paramName, interval;
    }

    constructor Of(o: Observation)
      ensures View() == o
    {
      values, latestObservation, interval := o.values, o.latestObservation, o.interval;
      paramLocation, deviceName, paramName := o.paramLocation, o.deviceName, o.paramName;
    }

    method AddValue(value: real, now: int)
      modifies this
      ensures View() == old(View()).(values := PushBack(old(values), Sample(now, value)))
    {
      if |values| == CAPACITY {
        values := values[1..];
      }
      values := values + [Sample(now, value)];
    }

    method ClearValues()
      modifies this
      ensures View() == old(View()).(values := [])
    {
      values := [];
    }

    /** The body of the timer callback for a session that exists. */
    method OnTimer(check: int, stamp: int, done: int, fetched: Option<real>)
      modifies this
      ensures View() == Apply(old(View()), Fire(check, stamp, done, fetched))
    {
      var secs := WholeSeconds(check - latestObservation);
      if secs % ULONG_LIMIT >= interval {
        var value := 0.0;
        if fetched.Some? {
          value := fetched.value;
        }
        AddValue(value, stamp);
        latestObservation := done;
      }
    }

    /** The body of update-observable for a session that exists. */
    method OnUpdate(location: string, device: string, param: string)
      modifies this
      ensures View() == Apply(old(View()), Update(location, device, param))
    {
      if paramLocation != location {
        paramLocation := location;
        ClearValues();
      }
      deviceName := device;
      paramName := param;
    }
  }

  // ---------- over every run ----------

  function Run(o: Observation, events: seq<Event>): Observation {
    if events == [] then o else Apply(Run(o, events[..|events| - 1]), events[|events| - 1])
  }

  /** What an event does, field by field. */
  lemma Effect(o: Observation, e: Event)
    ensures var t := Apply(o, e);
            match e
            case Fire(check, stamp, done, fetched) =>
              && t.interval == o.interval && t.paramLocation == o.paramLocation && t.deviceName == o.deviceName && t.paramName == o.paramName
              && if !Due(o, check) then t.values == o.values && t.latestObservation == o.latestObservation
                 else
                   && t.latestObservation == done && |t.values| == Min(|o.values| + 1, 50)
                   && t.values[..|t.values| - 1] == o.values[|o.values| - (|t.values| - 1)..]
                   && t.values[|t.values| - 1].time == stamp
                   && (fetched == None ==> t.values[|t.values| - 1].value == 0.0)
                   && (forall v :: fetched == Some(v) ==> t.values[|t.values| - 1].value == v)
            case Update(location, device, param) =>
              && t.interval == o.interval && t.latestObservation == o.latestObservation
              && t.paramLocation == location && t.deviceName == device && t.paramName == param
              && t.values == if location == o.paramLocation then o.values else []
    requires |o.values| <= 50
  {
  }

  /** The `i`-th event takes a sample. */
  predicate Takes(o: Observation, events: seq<Event>, i: nat)
    requires i < |events|
  {
    events[i].Fire? && Due(Run(o, events[..i]), events[i].check)
  }

  /** The `i`-th event changes the parameter location. */
  predicate Moves(o: Observation, events: seq<Event>, i: nat)
    requires i < |events|
  {
    events[i].Update? && events[i].paramLocation != Run(o, events[..i]).paramLocation
  }

  /** It takes a sample, and the location has not changed since. */
  ghost predicate Counts(o: Observation, events: seq<Event>, i: nat)
    requires i < |events|
  {
    Takes(o, events, i) && forall j: nat :: i < j < |events| ==> !Moves(o, events, j)
  }

  /** `taken` is the positions of the events that count, in order. */
  ghost predicate SinceChange(o: Observation, events: seq<Event>, taken: seq<nat>) {
    && Increasing(taken)
    && (forall i: nat :: i in taken <==> i < |events| && Counts(o, events, i))
  }

  /** `s` is the sample of the `i`-th event: the time it read and what the device answered, or 0. */
  ghost predicate SampledAt(s: Sample, events: seq<Event>, i: nat) {
    && i < |events| && events[i].Fire? && s.time == events[i].stamp
    && match events[i].fetched { case None => s.value == 0.0 case Some(v) => s.value == v }
  }

  lemma RunStep(o: Observation, events: seq<Event>, i: nat)
    requires events != [] && i < |events| - 1
    ensures var before := events[..|events| - 1];
            Takes(o, events, i) == Takes(o, before, i) && Moves(o, events, i) == Moves(o, before, i)
  {
    assert events[..|events| - 1][..i] == events[..i];
  }

  /** Which events count after one more. */
  lemma CountsStep(o: Observation, events: seq<Event>, i: nat)
    requires i < |events|
    ensures var last := |events| - 1;
            Counts(o, events, i) <==>
              if i == last then Takes(o, events, last) else Counts(o, events[..last], i) && !Moves(o, events, last)
  {
    hide Takes, Moves;
    var last := |events| - 1;
    if i < last {
      RunStep(o, events, i);
      forall j: nat | i < j < last ensures Moves(o, events, j) == Moves(o, events[..last], j) {
        RunStep(o, events, j);
      }
    }
  }

  lemma NotBoth(o: Observation, events: seq<Event>, i: nat)
    requires i < |events|
    ensures !(Takes(o, events, i) && Moves(o, events, i))
  {
  }

  /** The positions that count are none where the location moves, else those from before and the last one
      if it takes a sample. */
  ghost function Extended(o: Observation, events: seq<Event>, before: seq<nat>): seq<nat>
    requires events != []
  {
    var last := |events| - 1;
    if Moves(o, events, last) then [] else before + if Takes(o, events, last) then [last] else []
  }

  lemma Extends(o: Observation, events: seq<Event>, before: seq<nat>)
    requires events != [] && SinceChange(o, events[..|events| - 1], before)
    ensures SinceChange(o, events, Extended(o, events, before))
  {
    var last, taken := |events| - 1, Extended(o, events, before);
    NotBoth(o, events, last);
    assert forall k :: 0 <= k < |before| ==> before[k] in before;
    hide Takes, Moves;
    forall i: nat ensures i in taken <==> i < |events| && Counts(o, events, i) {
      if i < |events| {
        CountsStep(o, events, i);
      }
      hide Counts;
      assert i in before <==> i < last && Counts(o, events[..last], i);
    }
  }

  lemma TakenBefore(o: Observation, events: seq<Event>, taken: seq<nat>, before: seq<nat>)
    requires events != [] && SinceChange(o, events, taken) && SinceChange(o, events[..|events| - 1], before)
    ensures taken == Extended(o, events, before)
  {
    Extends(o, events, before);
    hide Extended, Counts;
    SameOrder(taken, Extended(o, events, before));
  }

  ghost predicate Increasing(s: seq<nat>) {
    forall a, b :: 0 <= a < b < |s| ==> s[a] < s[b]
  }

  lemma FrontOf(s: seq<nat>)
    requires s != [] && Increasing(s)
    ensures var m := |s| - 1;
            && Increasing(s[..m]) && s == s[..m] + [s[m]] && s[m] in s
            && (forall i :: i in s ==> i <= s[m]) && (forall i: nat :: i in s[..m] <==> i in s && i != s[m])
  {
    var m := |s| - 1;
    assert s == s[..m] + [s[m]];
  }

  /** An increasing sequence is fixed by its members. */
  lemma {:induction false} SameOrder(s: seq<nat>, t: seq<nat>)
    requires Increasing(s) && Increasing(t) && forall i: nat :: i in s <==> i in t
    ensures s == t
    decreases |s|
  {
    assert (s != [] ==> s[0] in t) && (t != [] ==> t[0] in s);
    if s != [] {
      FrontOf(s);
      FrontOf(t);
      hide Increasing;
      SameOrder(s[..|s| - 1], t[..|t| - 1]);
    }
  }

  /** There always are such positions. */
  lemma {:induction false} AllSince(o: Observation, events: seq<Event>) returns (taken: seq<nat>)
    ensures SinceChange(o, events, taken)
  {
    if events == [] {
      taken := [];
    } else {
      var before := AllSince(o, events[..|events| - 1]);
      Extends(o, events, before);
      taken := Extended(o, events, before);
    }
  }

  lemma NothingTaken(o: Observation, taken: seq<nat>)
    requires SinceChange(o, [], taken)
    ensures taken == []
  {
    SameOrder(taken, []);
  }

  /** `values` is the samples of the events at the positions `at`, in order. */
  ghost predicate Matches(values: seq<Sample>, events: seq<Event>, at: seq<nat>) {
    |values| == |at| && forall k :: 0 <= k < |values| ==> SampledAt(values[k], events, at[k])
  }

  /** The last fifty of them. */
  ghost predicate Recent(values: seq<Sample>, events: seq<Event>, taken: seq<nat>) {
    |values| == Min(|taken|, 50) && Matches(values, events, taken[|taken| - |values|..])
  }

  /** The history is the last fifty samples taken since the location changed, in order, each with the time
      and the value of its event. */
  lemma {:induction false} HistoryIsRecentSamples(o: Observation, events: seq<Event>, taken: seq<nat>)
    requires o.values == [] && SinceChange(o, events, taken)
    ensures Recent(Run(o, events).values, events, taken)
  {
    if events == [] {
      NothingTaken(o, taken);
    } else {
      var last := |events| - 1;
      var before := AllSince(o, events[..last]);
      TakenBefore(o, events, taken, before);
      HistoryIsRecentSamples(o, events[..last], before);
      hide SinceChange, Due;
      RecentStep(Run(o, events[..last]), events, before, taken);
    }
  }

  lemma RecentStep(s: Observation, events: seq<Event>, before: seq<nat>, taken: seq<nat>)
    requires events != [] && Recent(s.values, events[..|events| - 1], before)
    requires var last := |events| - 1;
             var e := events[last];
             taken == if e.Update? && e.paramLocation != s.paramLocation then []
                      else before + if e.Fire? && Due(s, e.check) then [last] else []
    ensures Recent(Apply(s, events[|events| - 1]).values, events, taken)
  {
    var e := events[|events| - 1];
    Effect(s, e);
    RecentKept(s.values, events, before);
    hide Due, Apply, Recent;
    if e.Fire? && Due(s, e.check) {
      RecentPushed(s.values, Apply(s, e).values, events, before);
    } else if e.Update? && e.paramLocation != s.paramLocation {
      RecentNone(events);
    } else {
      assert before + [] == before;
    }
  }

  lemma RecentNone(events: seq<Event>)
    ensures Recent([], events, [])
  {
  }

  lemma RecentKept(values: seq<Sample>, events: seq<Event>, taken: seq<nat>)
    requires events != [] && Recent(values, events[..|events| - 1], taken)
    ensures Recent(values, events, taken)
  {
    var at := taken[|taken| - |values|..];
    forall k | 0 <= k < |values| ensures SampledAt(values[k], events, at[k]) {
      assert SampledAt(values[k], events[..|events| - 1], at[k]);
    }
  }

  lemma RecentPushed(before: seq<Sample>, after: seq<Sample>, events: seq<Event>, taken: seq<nat>)
    requires events != [] && Recent(before, events, taken)
    requires |after| == Min(|before| + 1, 50) && after[..|after| - 1] == before[|before| - (|after| - 1)..]
    requires SampledAt(after[|after| - 1], events, |events| - 1)
    ensures Recent(after, events, taken + [|events| - 1])
  {
    var at, drop, last := taken[|taken| - |before|..], |before| - (|after| - 1), |events| - 1;
    MatchesPushed(before[drop..], after[|after| - 1], events, at[drop..], last);
    assert after == after[..|after| - 1] + [after[|after| - 1]];
    TailPushed(taken, |taken| - |before| + drop, last);
    assert at[drop..] == taken[|taken| - |before| + drop..];
  }

  lemma TailPushed(taken: seq<nat>, i: nat, last: nat)
    requires i <= |taken|
    ensures (taken + [last])[i..] == taken[i..] + [last]
  {
  }

  lemma MatchesPushed(values: seq<Sample>, s: Sample, events: seq<Event>, at: seq<nat>, i: nat)
    requires Matches(values, events, at) && SampledAt(s, events, i)
    ensures Matches(values + [s], events, at + [i])
  {
    hide SampledAt;
  }

  /** The names are those of the latest update, the interval stays, and the latest observation is where
      the last sample was done. */
  lemma {:induction false} NamesAreLatest(o: Observation, events: seq<Event>, i: nat)
    requires i < |events| && forall j :: i < j < |events| ==> !(events[j].Update?)
    requires events[i].Update?
    ensures var t := Run(o, events);
            && t.paramLocation == events[i].paramLocation && t.deviceName == events[i].deviceName && t.paramName == events[i].paramName
            && t.interval == o.interval
  {
    hide Due;
    var last := |events| - 1;
    IntervalStays(o, events[..last]);
    if i < last {
      NamesAreLatest(o, events[..last], i);
    }
  }

  lemma {:induction false} IntervalStays(o: Observation, events: seq<Event>)
    ensures Run(o, events).interval == o.interval
  {
    hide Due;
    if events != [] {
      IntervalStays(o, events[..|events| - 1]);
    }
  }

  lemma {:induction false} LatestIsDone(o: Observation, events: seq<Event>, i: nat)
    requires i < |events| && Takes(o, events, i) && forall j :: i < j < |events| ==> !Takes(o, events, j)
    ensures Run(o, events).latestObservation == events[i].done
  {
    hide Due;
    var last := |events| - 1;
    if i < last {
      RunStep(o, events, i);
      forall j | i < j < last ensures !Takes(o, events[..last], j) {
        RunStep(o, events, j);
      }
      assert !Takes(o, events, last);
      LatestIsDone(o, events[..last], i);
    }
  }

  /** Under a clock that does not run backwards, a sample is due exactly when the interval has passed. */
  lemma DueWhenElapsed(o: Observation, now: int)
    requires o.latestObservation <= now && now - o.latestObservation < ULONG_LIMIT
    ensures Due(o, now) <==> now - o.latestObservation >= o.interval * 1_000_000_000
  {
  }

  /** The clock reads of a run, in order, none before `start`. */
  predicate ClockRuns(events: seq<Event>, start: int) {
    events == [] ||
    var before, e := events[..|events| - 1], events[|events| - 1];
    && ClockRuns(before, start)
    && (e.Fire? ==> ClockAt(before, start) <= e.check <= e.stamp <= e.done < start + ULONG_LIMIT)
  }

  function ClockAt(events: seq<Event>, start: int): int {
    if events == [] then start
    else if events[|events| - 1].Fire? then events[|events| - 1].done
    else ClockAt(events[..|events| - 1], start)
  }

  lemma {:induction false} ClockRunsBefore(events: seq<Event>, start: int, n: nat)
    requires ClockRuns(events, start) && n <= |events|
    ensures ClockRuns(events[..n], start)
  {
    if n < |events| {
      var before := events[..|events| - 1];
      ClockRunsBefore(before, start, n);
      assert before[..n] == events[..n];
    } else {
      assert events[..n] == events;
    }
  }

  lemma {:induction false} LatestGrows(o: Observation, events: seq<Event>)
    requires ClockRuns(events, o.latestObservation)
    ensures Run(o, events).interval == o.interval
    ensures o.latestObservation <= Run(o, events).latestObservation <= ClockAt(events, o.latestObservation)
    ensures ClockAt(events, o.latestObservation) < o.latestObservation + ULONG_LIMIT
    ensures forall i: nat :: i < |events| && Takes(o, events, i) ==> events[i].stamp <= Run(o, events).latestObservation
  {
    hide Due;
    if events != [] {
      var last := |events| - 1;
      LatestGrows(o, events[..last]);
      forall i: nat | i < last && Takes(o, events, i) ensures events[i].stamp <= Run(o, events[..last]).latestObservation {
        RunStep(o, events, i);
        assert events[..last][i] == events[i];
      }
    }
  }

  /** Any two samples of a run are at least `interval` seconds apart, changes of the parameter location in
      between or not, and so is the first from the start. */
  lemma SamplesAreSpaced(o: Observation, events: seq<Event>, i: nat, j: nat)
    requires ClockRuns(events, o.latestObservation) && j < |events| && Takes(o, events, j)
    ensures events[j].stamp - o.latestObservation >= o.interval * 1_000_000_000
    ensures i < j && Takes(o, events, i) ==> events[j].stamp - events[i].stamp >= o.interval * 1_000_000_000
  {
    hide Due, Run;
    ClockRunsBefore(events, o.latestObservation, j + 1);
    ClockRunsBefore(events, o.latestObservation, j);
    assert events[..j + 1][..j] == events[..j] && events[..j + 1][j] == events[j];
    LatestGrows(o, events[..j]);
    DueWhenElapsed(Run(o, events[..j]), events[j].check);
    if i < j && Takes(o, events, i) {
      assert events[..j][i] == events[i] && events[..j][..i] == events[..i];
    }
  }

  /** With a clock set back by a second or more, the conversion to `size_t` makes a sample due at once;
      by less, it counts as no time. */
  lemma ClockSetBack(o: Observation, now: int)
    requires 0 < o.latestObservation - now < 1_000_000_000 * ULONG_LIMIT
    ensures var back := o.latestObservation - now;
            Due(o, now) <==> o.interval <= if back < 1_000_000_000 then 0 else 0x1_0000_0000_0000_0000 - back / 1_000_000_000
  {
    var k := (o.latestObservation - now) / SECOND;
    assert WholeSeconds(now - o.latestObservation) == -k;
    assert k > 0 ==> (-k) % ULONG_LIMIT == ULONG_LIMIT - k;
  }
}
