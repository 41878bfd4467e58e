/** The slot allocator of `Simple::Signal` as a value, and what holds of it over every run.
    A slot is named by the address of its cell: `lo <= slot < lo + cells`. */
module SignalSpec {
  import opened Wrappers

  datatype State<F> = State(lo: int, cells: nat, free: seq<int>, live: map<int, F>)
  {
    predicate InBuffer(p: int) {
      lo <= p < lo + cells
    }

    /** The free list holds distinct cells and at least one; the live slots are the other cells. */
    ghost predicate Inv() {
      && free != []
      && (forall i, j :: 0 <= i < j < |free| ==> free[i] != free[j])
      && (forall i :: 0 <= i < |free| ==> InBuffer(free[i]) && free[i] !in live)
      && (forall p :: p in live ==> InBuffer(p))
      && |free| + |live| == cells
    }

    predicate Full() {
      |free| == 1
    }
  }

  ghost function Initial<F(!new)>(lo: int, limit: nat): (s: State<F>)
    ensures s.Inv() && s.lo == lo && s.cells == limit + 1 && s.live == map[]
    ensures |s.free| == limit + 1 && forall i :: 0 <= i <= limit ==> s.free[i] == lo + i
  {
    State(lo, limit + 1, seq(limit + 1, i requires 0 <= i => lo + i), map[])
  }

  /** `connect`: takes the head of the free list unless it is the last free cell. */
  function Connect<F>(s: State<F>, f: F): (State<F>, Option<int>)
    requires s.free != []
  {
    if s.Full() then (s, None)
    else (s.(free := s.free[1..], live := s.live[s.free[0] := f]), Some(s.free[0]))
  }

  /** `disconnect`: the freed cell goes behind the head of the free list; false when it throws. */
  function Disconnect<F>(s: State<F>, slot: int): (State<F>, bool)
    requires s.free != []
  {
    if slot !in s.live then (s, false)
    else (s.(free := [s.free[0], slot] + s.free[1..], live := s.live - {slot}), true)
  }

  // ---------- the allocator invariant over every run ----------

  lemma ConnectKeepsInv<F(!new)>(s: State<F>, f: F)
    requires s.Inv()
    ensures Connect(s, f).0.Inv()
  {
    if !s.Full() {
      assert forall i :: 0 <= i < |s.free[1..]| ==> s.free[1..][i] == s.free[i + 1];
    }
  }

  lemma DisconnectKeepsInv<F(!new)>(s: State<F>, slot: int)
    requires s.Inv()
    ensures Disconnect(s, slot).0.Inv()
  {
    if slot in s.live {
      var t := Disconnect(s, slot).0;
      assert forall i :: 2 <= i < |t.free| ==> t.free[i] == s.free[i - 1];
      assert t.live.Keys == s.live.Keys - {slot};
      assert |t.live| == |t.live.Keys| && |s.live| == |s.live.Keys|;
    }
  }

  function Interval(lo: int, n: nat): (r: set<int>)
    ensures forall p :: p in r <==> lo <= p < lo + n
    ensures |r| == n
  {
    if n == 0 then {} else Interval(lo, n - 1) + {lo + n - 1}
  }

  lemma {:induction false} DistinctCount(s: seq<int>)
    requires forall i, j :: 0 <= i < j < |s| ==> s[i] != s[j]
    ensures |set p | p in s| == |s|
  {
    if s != [] {
      DistinctCount(s[1..]);
      assert (set p | p in s) == (set p | p in s[1..]) + {s[0]};
    } else {
      assert (set p | p in s) == {};
    }
  }

  lemma SubsetOfSameSize(a: set<int>, b: set<int>)
    requires a <= b && |a| == |b|
    ensures a == b
  {
    assert b == a + (b - a);
  }

  /** Every cell of the buffer is either on the free list or live. */
  lemma Partition<F(!new)>(s: State<F>, p: int)
    requires s.Inv() && s.InBuffer(p)
    ensures p in s.live <==> !exists i :: 0 <= i < |s.free| && s.free[i] == p
  {
    var fs := set q | q in s.free;
    CoversBuffer(s, fs);
    assert p in fs + s.live.Keys;
  }

  lemma CoversBuffer<F(!new)>(s: State<F>, fs: set<int>)
    requires s.Inv() && fs == set q | q in s.free
    ensures fs + s.live.Keys == Interval(s.lo, s.cells) && fs !! s.live.Keys
  {
    assert |fs + s.live.Keys| == |s.free| + |s.live.Keys| by {
      DistinctCount(s.free);
      assert fs !! s.live.Keys;
    }
    assert |s.live.Keys| == |s.live|;
    SubsetOfSameSize(fs + s.live.Keys, Interval(s.lo, s.cells));
  }

  /** `connect` throws exactly when all but one of the cells, `upper_limit` of them, are live. */
  lemma ConnectThrowsWhenFull<F(!new)>(s: State<F>, f: F)
    requires s.Inv()
    ensures Connect(s, f).1 == None <==> |s.live| == s.cells - 1
    ensures Connect(s, f).1 == None ==> Connect(s, f).0 == s
    ensures Connect(s, f).1.Some? ==> Connect(s, f).1.value !in s.live && s.InBuffer(Connect(s, f).1.value)
  {
    assert s.InBuffer(s.free[0]);
  }

  datatype Op<F> = Join(f: F) | Drop(slot: int)

  function Apply<F>(s: State<F>, op: Op<F>): (t: State<F>)
    requires s.free != []
    ensures t.free != []
  {
    match op
    case Join(f) => Connect(s, f).0
    case Drop(slot) => Disconnect(s, slot).0
  }

  function Run<F>(s: State<F>, ops: seq<Op<F>>): (t: State<F>)
    requires s.free != []
    ensures t.free != []
    decreases ops
  {
    if ops == [] then s else Run(Apply(s, ops[0]), ops[1..])
  }

  /** Over every run from the constructor: the free list is duplicate-free, it and the live slots
      partition the buffer, and the sizes add up. */
  lemma {:induction false} RunKeepsInv<F(!new)>(s: State<F>, ops: seq<Op<F>>)
    requires s.Inv()
    ensures Run(s, ops).Inv() && Run(s, ops).lo == s.lo && Run(s, ops).cells == s.cells
    decreases ops
  {
    if ops != [] {
      match ops[0] {
        case Join(f) => ConnectKeepsInv(s, f);
        case Drop(slot) => DisconnectKeepsInv(s, slot);
      }
      RunKeepsInv(Apply(s, ops[0]), ops[1..]);
    }
  }

  /** A slot just freed is not handed out by the next `connect`, but by the one after it. */
  lemma FreedSlotIsReusedSecond<F(!new)>(s: State<F>, slot: int, f: F, g: F)
    requires s.Inv() && slot in s.live
    ensures var s1 := Disconnect(s, slot).0;
            var (s2, first) := Connect(s1, f);
            first.Some? && first.value != slot
            && (if s.Full() then Connect(s2, g).1 == None else Connect(s2, g).1 == Some(slot))
  {
    DisconnectKeepsInv(s, slot);
    assert s.free[0] !in s.live;
  }

  /** No run that leaves a freed slot alone brings it back: `disconnect` on it keeps throwing and
      changing nothing until a `connect` returns that very slot. */
  lemma {:induction false} DisconnectTwice<F(!new)>(s: State<F>, slot: int, ops: seq<Op<F>>)
    requires s.Inv() && slot !in s.live
    requires forall k :: 0 <= k < |ops| && ops[k].Join? ==> Connect(Run(s, ops[..k]), ops[k].f).1 != Some(slot)
    ensures Disconnect(Run(s, ops), slot) == (Run(s, ops), false)
    decreases ops
  {
    if ops != [] {
      var t := Apply(s, ops[0]);
      assert ops[..0] == [];
      RunKeepsInv(s, [ops[0]]);
      assert Run(s, [ops[0]]) == Run(t, []) by { assert [ops[0]][1..] == []; }
      forall k | 0 <= k < |ops| - 1 && ops[1..][k].Join?
        ensures Connect(Run(t, ops[1..][..k]), ops[1..][k].f).1 != Some(slot)
      {
        assert ops[..k + 1][1..] == ops[1..][..k];
        assert Run(s, ops[..k + 1]) == Run(t, ops[1..][..k]);
      }
      DisconnectTwice(t, slot, ops[1..]);
    }
  }

  // ---------- emit ----------

  /** What the k-th callback of one emission does to the signal: the slots it disconnects and the
      callbacks it connects, in order. */
  type Reaction<!F> = (nat, F) -> seq<Op<F>>

  datatype Call<F> = Call(slot: int, f: F)
  datatype Emission<F> = Emission(end: State<F>, calls: seq<Call<F>>)

  ghost predicate DropsOnly<F(!new)>(react: Reaction<F>) {
    forall k, f :: AllDrops(react(k, f))
  }

  /** The loop of `emit` from cell `p` on: it stops after `left` calls. */
  function Scan<F>(s: State<F>, p: int, left: nat, k: nat, react: Reaction<F>): (e: Emission<F>)
    requires s.free != []
    ensures e.end.free != []
    decreases s.lo + s.cells - p
  {
    if left == 0 || p >= s.lo + s.cells then Emission(s, [])
    else if p in s.live then
      RunShape(s, react(k, s.live[p]));
      var rest := Scan(Run(s, react(k, s.live[p])), p + 1, left - 1, k + 1, react);
      Emission(rest.end, [Call(p, s.live[p])] + rest.calls)
    else Scan(s, p + 1, left, k, react)
  }

  lemma {:induction false} RunShape<F>(s: State<F>, ops: seq<Op<F>>)
    requires s.free != []
    ensures Run(s, ops).lo == s.lo && Run(s, ops).cells == s.cells
    decreases ops
  {
    if ops != [] {
      RunShape(Apply(s, ops[0]), ops[1..]);
    }
  }

  /** The same scan without the early exit: every cell of the buffer is looked at. */
  function FullScan<F>(s: State<F>, p: int, k: nat, react: Reaction<F>): (e: Emission<F>)
    requires s.free != []
    ensures e.end.free != []
    decreases s.lo + s.cells - p
  {
    if p >= s.lo + s.cells then Emission(s, [])
    else if p in s.live then
      RunShape(s, react(k, s.live[p]));
      var rest := FullScan(Run(s, react(k, s.live[p])), p + 1, k + 1, react);
      Emission(rest.end, [Call(p, s.live[p])] + rest.calls)
    else FullScan(s, p + 1, k, react)
  }

  function LiveFrom<F>(s: State<F>, p: int): set<int> {
    set q | q in s.live && p <= q
  }

  ghost predicate AllDrops<F(!new)>(ops: seq<Op<F>>) {
    forall op :: op in ops ==> op.Drop?
  }

  /** `t` is `s` without the slots that `ops` drops. */
  ghost predicate Without<F(!new)>(s: State<F>, ops: seq<Op<F>>, t: State<F>) {
    && t.Inv() && t.lo == s.lo && t.cells == s.cells
    && (forall q :: q in t.live <==> q in s.live && Drop(q) !in ops)
    && (forall q :: q in t.live ==> t.live[q] == s.live[q])
  }

  lemma {:induction false} DropsShrink<F(!new)>(s: State<F>, ops: seq<Op<F>>)
    requires s.Inv() && AllDrops(ops)
    ensures Without(s, ops, Run(s, ops))
    decreases ops
  {
    if ops != [] {
      assert ops == [ops[0]] + ops[1..];
      DisconnectKeepsInv(s, ops[0].slot);
      DropsShrink(Apply(s, ops[0]), ops[1..]);
    }
  }

  lemma {:induction false} NoCallNoChange<F(!new)>(s: State<F>, p: int, k: nat, react: Reaction<F>)
    requires s.free != [] && FullScan(s, p, k, react).calls == []
    ensures FullScan(s, p, k, react) == Emission(s, [])
    decreases s.lo + s.cells - p
  {
    if p < s.lo + s.cells && p !in s.live {
      NoCallNoChange(s, p + 1, k, react);
    }
  }

  /** Whatever the callbacks do, connecting included, the early exit makes no difference if and only if
      a scan of every cell makes no more than `left` calls. */
  lemma {:induction false} EarlyExitIff<F(!new)>(s: State<F>, p: int, left: nat, k: nat, react: Reaction<F>)
    requires s.free != []
    ensures Scan(s, p, left, k, react) == FullScan(s, p, k, react) <==> |FullScan(s, p, k, react).calls| <= left
    decreases s.lo + s.cells - p
  {
    var full := FullScan(s, p, k, react);
    if p >= s.lo + s.cells {
    } else if left == 0 {
      if full.calls == [] {
        NoCallNoChange(s, p, k, react);
      }
    } else if p in s.live {
      var t := Run(s, react(k, s.live[p]));
      RunShape(s, react(k, s.live[p]));
      EarlyExitIff(t, p + 1, left - 1, k + 1, react);
      var rest, fullRest := Scan(t, p + 1, left - 1, k + 1, react), FullScan(t, p + 1, k + 1, react);
      var c := Call(p, s.live[p]);
      assert ([c] + rest.calls)[1..] == rest.calls && ([c] + fullRest.calls)[1..] == fullRest.calls;
    } else {
      EarlyExitIff(s, p + 1, left, k, react);
    }
  }

  /** One emission: it is a scan of every cell if and only if such a scan makes no more calls than there
      are live slots at its start. */
  lemma EmitIsFullScanIff<F(!new)>(s: State<F>, react: Reaction<F>)
    requires s.Inv()
    ensures Scan(s, s.lo, |s.live|, 0, react) == FullScan(s, s.lo, 0, react)
       <==> |FullScan(s, s.lo, 0, react).calls| <= |s.live|
  {
    EarlyExitIff(s, s.lo, |s.live|, 0, react);
  }

  lemma LiveFromStep<F(!new)>(s: State<F>, p: int)
    ensures p in s.live ==> |LiveFrom(s, p)| == |LiveFrom(s, p + 1)| + 1
    ensures p !in s.live ==> LiveFrom(s, p) == LiveFrom(s, p + 1)
  {
    if p in s.live {
      assert LiveFrom(s, p) == LiveFrom(s, p + 1) + {p};
    }
  }

  lemma LiveFromShrinks<F(!new)>(s: State<F>, t: State<F>, p: int)
    requires forall q :: q in t.live ==> q in s.live
    ensures |LiveFrom(t, p)| <= |LiveFrom(s, p)|
  {
    SubsetSize(LiveFrom(t, p), LiveFrom(s, p));
  }

  lemma DropsFrom<F(!new)>(s: State<F>, p: int, k: nat, react: Reaction<F>)
    requires s.Inv() && DropsOnly(react) && p in s.live
    ensures var t := Run(s, react(k, s.live[p]));
            t.Inv() && t.lo == s.lo && t.cells == s.cells && |LiveFrom(t, p + 1)| <= |LiveFrom(s, p + 1)|
  {
    hide LiveFrom;
    var ops := react(k, s.live[p]);
    assert AllDrops(ops);
    DropsShrink(s, ops);
    LiveFromShrinks(s, Run(s, ops), p + 1);
  }

  /** When callbacks only disconnect, the early exit on `left` skips nothing. */
  lemma {:induction false} EarlyExitSkipsNothing<F(!new)>(s: State<F>, p: int, left: nat, k: nat, react: Reaction<F>)
    requires s.Inv() && DropsOnly(react)
    requires |LiveFrom(s, p)| <= left
    ensures Scan(s, p, left, k, react) == FullScan(s, p, k, react)
    decreases s.lo + s.cells - p
  {
    LiveFromStep(s, p);
    hide LiveFrom, Run, DropsOnly;
    if p < s.lo + s.cells {
      if p in s.live {
        DropsFrom(s, p, k, react);
        EarlyExitSkipsNothing(Run(s, react(k, s.live[p])), p + 1, left - 1, k + 1, react);
      } else {
        EarlyExitSkipsNothing(s, p + 1, left, k, react);
      }
    }
  }

  /** Slot `q` is disconnected by one of the first `n` calls. */
  ghost predicate DroppedBy<F>(calls: seq<Call<F>>, k: nat, react: Reaction<F>, n: int, q: int) {
    exists m :: 0 <= m < n && m < |calls| && Drop(q) in react(k + m, calls[m].f)
  }

  ghost predicate Called<F>(calls: seq<Call<F>>, q: int) {
    exists m :: 0 <= m < |calls| && calls[m].slot == q
  }

  /** Calls made by a scan over `s` from `p`: in address order, hence each slot at most once, each
      call the callback that was connected there when the scan began, and none of them dropped
      by an earlier call. */
  ghost predicate Orderly<F>(s: State<F>, p: int, k: nat, react: Reaction<F>, calls: seq<Call<F>>) {
    && (forall m :: 0 <= m < |calls| ==> p <= calls[m].slot && calls[m].slot in s.live && s.live[calls[m].slot] == calls[m].f)
    && (forall m, n :: 0 <= m < n < |calls| ==> calls[m].slot < calls[n].slot)
    && (forall n :: 0 <= n < |calls| ==> !DroppedBy(calls, k, react, n, calls[n].slot))
  }

  /** A live slot is not called only if a call made before it was reached has dropped it. */
  ghost predicate Complete<F>(s: State<F>, p: int, k: nat, react: Reaction<F>, calls: seq<Call<F>>) {
    forall q :: q in s.live && p <= q && !Called(calls, q) ==>
      exists m :: 0 <= m < |calls| && calls[m].slot < q && Drop(q) in react(k + m, calls[m].f)
  }

  /** What a scan leaves live. */
  ghost predicate Survivors<F(!new)>(s: State<F>, k: nat, react: Reaction<F>, e: Emission<F>) {
    && e.end.Inv()
    && (forall q :: q in e.end.live <==> q in s.live && !DroppedBy(e.calls, k, react, |e.calls|, q))
  }

  ghost predicate Faithful<F(!new)>(s: State<F>, p: int, k: nat, react: Reaction<F>, e: Emission<F>) {
    Orderly(s, p, k, react, e.calls) && Complete(s, p, k, react, e.calls) && Survivors(s, k, react, e)
  }

  lemma SkipStep<F(!new)>(s: State<F>, p: int, k: nat, react: Reaction<F>, e: Emission<F>)
    requires p !in s.live && Faithful(s, p + 1, k, react, e)
    ensures Faithful(s, p, k, react, e)
  {
    hide Survivors, DroppedBy, Called;
    forall q | q in s.live && p <= q && !Called(e.calls, q)
      ensures exists m :: 0 <= m < |e.calls| && e.calls[m].slot < q && Drop(q) in react(k + m, e.calls[m].f)
    {
      assert p + 1 <= q;
    }
  }

  lemma CallStep<F(!new)>(s: State<F>, t: State<F>, p: int, k: nat, react: Reaction<F>, rest: Emission<F>)
    requires p in s.live && Without(s, react(k, s.live[p]), t)
    requires Faithful(t, p + 1, k + 1, react, rest)
    ensures Faithful(s, p, k, react, Emission(rest.end, [Call(p, s.live[p])] + rest.calls))
  {
    OrderlyStep(s, t, p, k, react, rest.calls);
    CompleteStep(s, t, p, k, react, rest.calls);
    SurvivorsStep(s, t, p, k, react, rest);
  }

  lemma {:induction false} FullScanCalls<F(!new)>(s: State<F>, p: int, k: nat, react: Reaction<F>)
    requires s.Inv() && DropsOnly(react)
    ensures var e := FullScan(s, p, k, react);
            Faithful(s, p, k, react, e)
    decreases s.lo + s.cells - p
  {
    if p >= s.lo + s.cells {
    } else if p !in s.live {
      FullScanCalls(s, p + 1, k, react);
      SkipStep(s, p, k, react, FullScan(s, p + 1, k, react));
    } else {
      var t := Run(s, react(k, s.live[p]));
      assert AllDrops(react(k, s.live[p]));
      DropsShrink(s, react(k, s.live[p]));
      var rest := FullScan(t, p + 1, k + 1, react);
      FullScanCalls(t, p + 1, k + 1, react);
      CallStep(s, t, p, k, react, rest);
    }
  }

  lemma DroppedByStep<F(!new)>(c: Call<F>, rest: seq<Call<F>>, k: nat, react: Reaction<F>, n: nat, q: int)
    requires n <= |rest|
    ensures DroppedBy([c] + rest, k, react, n + 1, q) <==> Drop(q) in react(k, c.f) || DroppedBy(rest, k + 1, react, n, q)
  {
    var calls := [c] + rest;
    if DroppedBy(calls, k, react, n + 1, q) && Drop(q) !in react(k, c.f) {
      var m :| 0 <= m < n + 1 && m < |calls| && Drop(q) in react(k + m, calls[m].f);
      assert m > 0 && calls[m] == rest[m - 1] && k + m == k + 1 + (m - 1);
      assert Drop(q) in react(k + 1 + (m - 1), rest[m - 1].f);
    }
    if DroppedBy(rest, k + 1, react, n, q) {
      var m :| 0 <= m < n && m < |rest| && Drop(q) in react(k + 1 + m, rest[m].f);
      assert calls[m + 1] == rest[m];
      assert Drop(q) in react(k + (m + 1), calls[m + 1].f);
    }
    if Drop(q) in react(k, c.f) {
      assert calls[0] == c && Drop(q) in react(k + 0, calls[0].f);
    }
  }

  lemma OrderlyStep<F(!new)>(s: State<F>, t: State<F>, p: int, k: nat, react: Reaction<F>, rest: seq<Call<F>>)
    requires p in s.live && Without(s, react(k, s.live[p]), t)
    requires Orderly(t, p + 1, k + 1, react, rest)
    ensures Orderly(s, p, k, react, [Call(p, s.live[p])] + rest)
  {
    var c := Call(p, s.live[p]);
    var calls := [c] + rest;
    forall n | 0 <= n < |calls| ensures !DroppedBy(calls, k, react, n, calls[n].slot) {
      if n > 0 {
        assert calls[n] == rest[n - 1];
        assert !DroppedBy(rest, k + 1, react, n - 1, rest[n - 1].slot);
        DroppedByStep(c, rest, k, react, n - 1, calls[n].slot);
      }
    }
  }

  lemma CompleteStep<F(!new)>(s: State<F>, t: State<F>, p: int, k: nat, react: Reaction<F>, rest: seq<Call<F>>)
    requires p in s.live && Without(s, react(k, s.live[p]), t)
    requires Complete(t, p + 1, k + 1, react, rest)
    ensures Complete(s, p, k, react, [Call(p, s.live[p])] + rest)
  {
    var c := Call(p, s.live[p]);
    var calls := [c] + rest;
    forall q | q in s.live && p <= q && !Called(calls, q)
      ensures exists m :: 0 <= m < |calls| && calls[m].slot < q && Drop(q) in react(k + m, calls[m].f)
    {
      assert calls[0] == c;
      if Drop(q) in react(k, c.f) {
        assert calls[0].slot < q && Drop(q) in react(k + 0, calls[0].f);
      } else {
        assert forall m :: 0 <= m < |rest| ==> calls[m + 1] == rest[m];
        assert !Called(rest, q);
        var m :| 0 <= m < |rest| && rest[m].slot < q && Drop(q) in react(k + 1 + m, rest[m].f);
        assert calls[m + 1] == rest[m] && k + (m + 1) == k + 1 + m;
        assert Drop(q) in react(k + (m + 1), calls[m + 1].f);
      }
    }
  }

  lemma SurvivorsStep<F(!new)>(s: State<F>, t: State<F>, p: int, k: nat, react: Reaction<F>, rest: Emission<F>)
    requires p in s.live && Without(s, react(k, s.live[p]), t)
    requires Survivors(t, k + 1, react, rest)
    ensures Survivors(s, k, react, Emission(rest.end, [Call(p, s.live[p])] + rest.calls))
  {
    var c := Call(p, s.live[p]);
    var calls := [c] + rest.calls;
    forall q ensures q in rest.end.live <==> q in s.live && !DroppedBy(calls, k, react, |calls|, q) {
      DroppedByStep(c, rest.calls, k, react, |rest.calls|, q);
    }
  }

  /** One emission in which nothing connects: exactly the slots live at its start and not dropped
      by an earlier call of the same emission are called, once each, in address order. */
  lemma EmitCallsEveryLiveSlotOnce<F(!new)>(s: State<F>, react: Reaction<F>)
    requires s.Inv() && DropsOnly(react)
    ensures var e := Scan(s, s.lo, |s.live|, 0, react);
            Faithful(s, s.lo, 0, react, e)
  {
    assert LiveFrom(s, s.lo) == s.live.Keys;
    EarlyExitSkipsNothing(s, s.lo, |s.live|, 0, react);
    FullScanCalls(s, s.lo, 0, react);
  }

  lemma {:induction false} StaysConnected<F(!new)>(s: State<F>, ops: seq<Op<F>>, slot: int)
    requires s.Inv() && slot in s.live && Drop(slot) !in ops
    ensures slot in Run(s, ops).live && Run(s, ops).live[slot] == s.live[slot]
    decreases ops
  {
    if ops != [] {
      assert ops == [ops[0]] + ops[1..];
      match ops[0] {
        case Join(f) => ConnectKeepsInv(s, f);
        case Drop(q) => DisconnectKeepsInv(s, q);
      }
      StaysConnected(Apply(s, ops[0]), ops[1..], slot);
    }
  }

  /** A callback is called from the `connect` that returned its slot to a `disconnect` of that slot: by
      every emission after any run in between, once. */
  lemma ConnectedIsCalled<F(!new)>(s: State<F>, f: F, slot: int, ops: seq<Op<F>>, react: Reaction<F>)
    requires s.Inv() && Connect(s, f).1 == Some(slot) && Drop(slot) !in ops
    requires DropsOnly(react) && forall k: nat, g: F :: Drop(slot) !in react(k, g)
    ensures var t := Run(Connect(s, f).0, ops);
            var calls := Scan(t, t.lo, |t.live|, 0, react).calls;
            && Call(slot, f) in calls
            && forall m, n :: 0 <= m < n < |calls| ==> calls[m].slot != calls[n].slot
  {
    ConnectKeepsInv(s, f);
    var t1 := Connect(s, f).0;
    StaysConnected(t1, ops, slot);
    RunKeepsInv(t1, ops);
    var t := Run(t1, ops);
    hide Run, Scan;
    EmitCallsEveryLiveSlotOnce(t, react);
    var calls := Scan(t, t.lo, |t.live|, 0, react).calls;
    assert t.InBuffer(slot);
    assert Called(calls, slot);
    var m :| 0 <= m < |calls| && calls[m].slot == slot;
    assert calls[m] == Call(slot, f);
  }

  /** The hypothesis that nothing connects is needed: a callback that connects into a free cell
      ahead of it uses up the count, and a slot that is live throughout is never called. */
  lemma ConnectDuringEmitSkipsALiveSlot() returns (s: State<bool>, react: Reaction<bool>, q: int)
    ensures s.Inv() && q in s.live
    ensures var e := Scan(s, s.lo, |s.live|, 0, react); q in e.end.live && !Called(e.calls, q)
  {
    s := State(1, 4, [2, 4], map[1 := true, 3 := false]);
    var t := State(1, 4, [4], map[1 := true, 3 := false, 2 := false]);
    react := (k, f) => if f then [Join(false)] else [];
    q := 3;
    TwoLive(s);
    TwoCalls(s, t, react);
  }

  lemma TwoLive(s: State<bool>)
    requires s == State(1, 4, [2, 4], map[1 := true, 3 := false])
    ensures s.Inv() && |s.live| == 2
  {
    assert |s.live| == |{1, 3}| by {
      assert s.live.Keys == {1, 3};
    }
    assert s.free[0] in s.free && s.free[1] in s.free;
    assert forall p :: p in s.free <==> p == 2 || p == 4;
    assert forall p :: p in s.live <==> p == 1 || p == 3;
  }

  lemma JoinsOne(s: State<bool>, t: State<bool>)
    requires s == State(1, 4, [2, 4], map[1 := true, 3 := false])
    requires t == State(1, 4, [4], map[1 := true, 3 := false, 2 := false])
    ensures Run(s, [Join(false)]) == t
  {
    assert s.free[1..] == [4];
    assert Apply(s, Join(false)) == t;
    assert [Join(false)][1..] == [];
    assert Run(t, []) == t;
  }

  lemma TwoCalls(s: State<bool>, t: State<bool>, react: Reaction<bool>)
    requires s == State(1, 4, [2, 4], map[1 := true, 3 := false])
    requires t == State(1, 4, [4], map[1 := true, 3 := false, 2 := false])
    requires react(0, true) == [Join(false)] && react(1, false) == []
    ensures Scan(s, 1, 2, 0, react) == Emission(t, [Call(1, true), Call(2, false)])
  {
    JoinsOne(s, t);
    assert Run(t, []) == t;
    assert Scan(t, 3, 0, 2, react) == Emission(t, []);
    assert Scan(t, 2, 1, 1, react) == Emission(t, [Call(2, false)]);
  }
}
