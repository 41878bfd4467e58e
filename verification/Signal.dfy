/** `Simple::Signal`: a fixed buffer of pointer-sized cells whose free cells hold the address of the
    next free cell (null in the last one) and whose live cells hold the address of a callback object
    allocated elsewhere. Pointers are integers, null is 0; `heap` is the callback objects that the
    signal has allocated and not yet deleted. */
module Signal {
  import opened Wrappers
  import opened SignalSpec

  // ---------- how the cells represent an allocator state ----------

  /** The buffer as a memory: what each of its addresses holds. */
  type Memory = map<int, int>

  ghost predicate Covers<F>(s: State<F>, mem: Memory) {
    forall p :: p in mem <==> s.lo <= p < s.lo + s.cells
  }

  /** The k-th free cell holds the address of the next one, and the last one null. */
  ghost predicate Linked(free: seq<int>, mem: Memory, k: nat)
    requires k < |free|
  {
    free[k] in mem && mem[free[k]] == if k == |free| - 1 then 0 else free[k + 1]
  }

  /** Following `freeBeg` through the cells walks `s.free`, which ends in a null cell. */
  ghost predicate FreeListIn<F(!new)>(s: State<F>, mem: Memory, freeBeg: int) {
    && s.Inv() && Covers(s, mem)
    && freeBeg == s.free[0]
    && (forall k :: 0 <= k < |s.free| ==> Linked(s.free, mem, k))
  }

  /** Live cells hold pairwise different out-of-buffer addresses of exactly the allocated callbacks. */
  ghost predicate LiveCellsIn<F(!new)>(s: State<F>, mem: Memory, heap: map<int, F>) {
    && s.Inv() && Covers(s, mem)
    && (forall p :: p in s.live ==>
          mem[p] != 0 && !s.InBuffer(mem[p]) && mem[p] in heap && heap[mem[p]] == s.live[p])
    && (forall p, q :: p in s.live && q in s.live && p != q ==> mem[p] != mem[q])
    && |heap| == |s.live|
  }

  ghost predicate Represents<F(!new)>(s: State<F>, mem: Memory, freeBeg: int, heap: map<int, F>) {
    s.lo > 0 && FreeListIn(s, mem, freeBeg) && LiveCellsIn(s, mem, heap)
  }

  /** The in-buffer test tells free cells from live ones. */
  lemma CellIsLive<F(!new)>(s: State<F>, mem: Memory, freeBeg: int, heap: map<int, F>, p: int)
    requires Represents(s, mem, freeBeg, heap) && s.InBuffer(p)
    ensures p in mem
    ensures p in s.live <==> mem[p] != 0 && !s.InBuffer(mem[p])
  {
    Partition(s, p);
    if p !in s.live {
      var k :| 0 <= k < |s.free| && s.free[k] == p;
      assert Linked(s.free, mem, k);
    }
  }

  /** One free cell is left exactly when the head of the free list holds null. */
  lemma HeadIsLast<F(!new)>(s: State<F>, mem: Memory, freeBeg: int, heap: map<int, F>)
    requires Represents(s, mem, freeBeg, heap)
    ensures s.InBuffer(freeBeg) && freeBeg != 0 && freeBeg in mem && freeBeg !in s.live
    ensures mem[freeBeg] == 0 <==> s.Full()
  {
    assert s.InBuffer(s.free[0]) && Linked(s.free, mem, 0);
    if !s.Full() {
      assert s.InBuffer(s.free[1]);
    }
  }

  lemma ConnectedFreeList<F(!new)>(s: State<F>, mem: Memory, freeBeg: int, w: int, f: F)
    requires FreeListIn(s, mem, freeBeg) && !s.Full()
    ensures s.InBuffer(freeBeg) && FreeListIn(Connect(s, f).0, mem[freeBeg := w], mem[freeBeg])
  {
    var t := Connect(s, f).0;
    ConnectKeepsInv(s, f);
    assert s.InBuffer(s.free[0]) && Linked(s.free, mem, 0);
    var mem' := mem[freeBeg := w];
    assert forall p :: t.InBuffer(p) ==> s.InBuffer(p);
    forall k | 0 <= k < |t.free| ensures Linked(t.free, mem', k) {
      assert t.free[k] == s.free[k + 1] && Linked(s.free, mem, k + 1);
    }
  }

  lemma ConnectedLiveCells<F(!new)>(s: State<F>, mem: Memory, freeBeg: int, heap: map<int, F>, w: int, f: F)
    requires LiveCellsIn(s, mem, heap) && !s.Full() && freeBeg == s.free[0]
    requires w != 0 && !s.InBuffer(w) && w !in heap
    ensures LiveCellsIn(Connect(s, f).0, mem[freeBeg := w], heap[w := f])
  {
    var t, mem', heap' := Connect(s, f).0, mem[freeBeg := w], heap[w := f];
    ConnectKeepsInv(s, f);
    assert forall p :: t.InBuffer(p) <==> s.InBuffer(p);
    assert freeBeg !in s.live;
    assert forall p :: p in t.live <==> p in s.live || p == freeBeg;
  }

  lemma DisconnectedFreeList<F(!new)>(s: State<F>, mem: Memory, freeBeg: int, slot: int)
    requires FreeListIn(s, mem, freeBeg) && slot in s.live
    ensures s.InBuffer(freeBeg)
    ensures FreeListIn(Disconnect(s, slot).0, mem[slot := mem[freeBeg]][freeBeg := slot], freeBeg)
  {
    var t := Disconnect(s, slot).0;
    DisconnectKeepsInv(s, slot);
    var mem' := mem[slot := mem[freeBeg]][freeBeg := slot];
    assert s.InBuffer(s.free[0]) && Linked(s.free, mem, 0);
    assert forall p :: t.InBuffer(p) <==> s.InBuffer(p);
    forall k | 0 <= k < |t.free| ensures Linked(t.free, mem', k) {
      if k >= 2 {
        assert t.free[k] == s.free[k - 1] && Linked(s.free, mem, k - 1);
      }
    }
  }

  lemma DisconnectedLiveCells<F(!new)>(s: State<F>, mem: Memory, freeBeg: int, heap: map<int, F>, slot: int)
    requires LiveCellsIn(s, mem, heap) && slot in s.live && freeBeg == s.free[0] && freeBeg in mem
    ensures LiveCellsIn(Disconnect(s, slot).0, mem[slot := mem[freeBeg]][freeBeg := slot], heap - {mem[slot]})
  {
    var t, mem' := Disconnect(s, slot).0, mem[slot := mem[freeBeg]][freeBeg := slot];
    var heap' := heap - {mem[slot]};
    DisconnectKeepsInv(s, slot);
    assert forall p :: t.InBuffer(p) <==> s.InBuffer(p);
    assert forall p :: p in t.live ==> p in s.live && p != freeBeg && p != slot;
    assert heap'.Keys == heap.Keys - {mem[slot]} && t.live.Keys == s.live.Keys - {slot};
    assert |heap'| == |heap'.Keys| && |heap| == |heap.Keys| && |t.live| == |t.live.Keys| && |s.live| == |s.live.Keys|;
  }

  lemma ConnectedCells<F(!new)>(s: State<F>, mem: Memory, freeBeg: int, heap: map<int, F>, w: int, f: F)
    requires Represents(s, mem, freeBeg, heap) && !s.Full() && freeBeg in mem
    requires w != 0 && !s.InBuffer(w) && w !in heap
    ensures Represents(Connect(s, f).0, mem[freeBeg := w], mem[freeBeg], heap[w := f])
    ensures |Connect(s, f).0.live| == |s.live| + 1
  {
    ConnectedFreeList(s, mem, freeBeg, w, f);
    ConnectedLiveCells(s, mem, freeBeg, heap, w, f);
    assert s.free[0] in s.free;
  }

  lemma DisconnectedCells<F(!new)>(s: State<F>, mem: Memory, freeBeg: int, heap: map<int, F>, slot: int)
    requires Represents(s, mem, freeBeg, heap) && slot in s.live && freeBeg in mem && slot in mem
    ensures Represents(Disconnect(s, slot).0, mem[slot := mem[freeBeg]][freeBeg := slot], freeBeg, heap - {mem[slot]})
    ensures |Disconnect(s, slot).0.live| == |s.live| - 1
  {
    DisconnectKeepsInv(s, slot);
    DisconnectedFreeList(s, mem, freeBeg, slot);
    DisconnectedLiveCells(s, mem, freeBeg, heap, slot);
  }

  lemma InitialCells<F(!new)>(lo: int, limit: nat, mem: Memory, heap: map<int, F>)
    requires lo > 0 && heap == map[]
    requires forall p :: p in mem <==> lo <= p < lo + limit + 1
    requires forall p :: p in mem ==> mem[p] == if p == lo + limit then 0 else p + 1
    ensures Represents(Initial<F>(lo, limit), mem, lo, heap)
  {
    var s := Initial<F>(lo, limit);
    forall k | 0 <= k < |s.free| ensures Linked(s.free, mem, k) {
      assert s.free[k] in mem;
    }
  }

  lemma {:induction false} AddressExists(used: set<int>, lo: int)
    ensures exists p :: p >= lo && p !in used
  {
    if lo in used {
      AddressExists(used - {lo}, lo + 1);
      var p :| p >= lo + 1 && p !in used - {lo};
      assert p >= lo && p !in used;
    } else {
      assert lo >= lo && lo !in used;
    }
  }

  class Signal<F(!new)> {
    const base: int         // margins_.first; margins_.second is base + cells.Length
    const cells: array<int>
    var freeBeg: int
    var size: nat
    var heap: map<int, F>
    ghost var view: State<F>
    ghost var mem: Memory   // the buffer by address

    predicate IsInsideBuff(p: int) {
      base <= p < base + cells.Length
    }

    ghost predicate Mirrors()
      reads this, cells
    {
      && (forall p :: p in mem <==> base <= p < base + cells.Length)
      && (forall p :: p in mem ==> mem[p] == cells[p - base])
    }

    /** `*p` for a pointer into the buffer. */
    function Load(p: int): (w: int)
      requires IsInsideBuff(p) && Mirrors()
      reads this, cells
      ensures p in mem && w == mem[p]
    {
      cells[p - base]
    }

    /** `*p = w` for a pointer into the buffer. */
    method Store(p: int, w: int)
      requires IsInsideBuff(p) && Mirrors()
      modifies cells, this`mem
      ensures Mirrors() && mem == old(mem)[p := w]
    {
      cells[p - base] := w;
      mem := mem[p := w];
    }

    ghost predicate Valid()
      reads this, cells
    {
      && view.lo == base && view.cells == cells.Length
      && Mirrors()
      && Represents(view, mem, freeBeg, heap)
      && size == |view.live|
    }

    /** `*p && !is_inside_buff(*p)` for a cell of a valid signal. */
    method IsLive(p: int) returns (callback: Option<F>)
      requires Valid() && IsInsideBuff(p)
      ensures callback == if p in view.live then Some(view.live[p]) else None
    {
      CellIsLive(view, mem, freeBeg, heap, p);
      var word := Load(p);
      callback := if word != 0 && !IsInsideBuff(word) then Some(heap[word]) else None;
    }

    constructor (margin: int, upperLimit: nat)
      requires margin > 0
      ensures Valid() && fresh(cells)
      ensures view == Initial(margin, upperLimit) && base == margin && cells.Length == upperLimit + 1
    {
      base := margin;
      cells := new int[upperLimit + 1];
      freeBeg := margin;
      size := 0;
      heap := map[];
      view := Initial(margin, upperLimit);
      new;
      ThreadFreeList(upperLimit);
      InitialCells(base, upperLimit, mem, heap);
    }

    method ThreadFreeList(upperLimit: nat)
      requires cells.Length == upperLimit + 1
      modifies cells, this`mem
      ensures Mirrors()
      ensures forall p :: p in mem ==> mem[p] == if p == base + upperLimit then 0 else p + 1
    {
      for i := 0 to upperLimit
        invariant forall j :: 0 <= j < i ==> cells[j] == base + j + 1
      {
        cells[i] := base + i + 1;
      }
      cells[upperLimit] := 0;
      mem := map p | p in Interval(base, cells.Length) :: cells[p - base];
    }

    /** `new CbFunction(cbf)`: any address that is not in use. */
    method New(cbf: F) returns (callback: int)
      requires base > 0
      modifies this`heap
      ensures callback != 0 && !IsInsideBuff(callback) && callback !in old(heap)
      ensures heap == old(heap)[callback := cbf]
    {
      AddressExists(heap.Keys, base + cells.Length);
      callback :| callback != 0 && !(base <= callback < base + cells.Length) && callback !in heap;
      heap := heap[callback := cbf];
    }

    /** Takes the head of the free list for a copy of `cbf`; throws (`None`) iff one free cell is left. */
    method Connect(cbf: F) returns (slot: Option<int>)
      requires Valid()
      modifies this, cells
      ensures Valid()
      ensures (view, slot) == SignalSpec.Connect(old(view), cbf)
    {
      HeadIsLast(view, mem, freeBeg, heap);
      if freeBeg == 0 || Load(freeBeg) == 0 {
        return None;
      }
      ghost var before := heap;
      var callback := New(cbf);
      ConnectedCells(view, mem, freeBeg, before, callback, cbf);
      var cbfPtr := freeBeg;
      freeBeg := Load(cbfPtr);
      Store(cbfPtr, callback);
      size := size + 1;
      view := SignalSpec.Connect(view, cbf).0;
      slot := Some(cbfPtr);
    }

    /** Frees `slot` and links it in behind the head of the free list; throws (false) and changes
        nothing iff the handle does not name a live cell. */
    method Disconnect(slot: int) returns (ok: bool)
      requires Valid()
      modifies this, cells
      ensures Valid()
      ensures (view, ok) == SignalSpec.Disconnect(old(view), slot)
    {
      if slot == 0 || !IsInsideBuff(slot) {
        return false;
      }
      CellIsLive(view, mem, freeBeg, heap, slot);
      if Load(slot) == 0 || IsInsideBuff(Load(slot)) {
        return false;
      }
      HeadIsLast(view, mem, freeBeg, heap);
      DisconnectedCells(view, mem, freeBeg, heap, slot);
      heap := heap - {Load(slot)};
      Store(slot, Load(freeBeg));
      Store(freeBeg, slot);
      size := size - 1;
      view := SignalSpec.Disconnect(view, slot).0;
      ok := true;
    }

    method Perform(op: Op<F>)
      requires Valid()
      modifies this, cells
      ensures Valid() && view == Apply(old(view), op)
    {
      match op
      case Join(f) => var _ := Connect(f);
      case Drop(slot) => var _ := Disconnect(slot);
    }

    method PerformAll(ops: seq<Op<F>>)
      requires Valid()
      modifies this, cells
      ensures Valid() && view == Run(old(view), ops)
    {
      for j := 0 to |ops|
        invariant Valid() && Run(view, ops[j..]) == Run(old(view), ops)
      {
        assert ops[j..][1..] == ops[j + 1..];
        Perform(ops[j]);
      }
      assert Run(view, ops[|ops|..]) == view;
    }

    /** Calls the live callbacks in address order; the k-th call performs `react(k, _)` on the signal. */
    method Emit(react: Reaction<F>) returns (calls: seq<Call<F>>)
      requires Valid()
      modifies this, cells
      ensures Valid()
      ensures Emission(view, calls) == Scan(old(view), base, old(size), 0, react)
    {
      calls := [];
      var left := size;
      var cbPtr := base;
      while left != 0 && cbPtr < base + cells.Length
        invariant Valid() && base <= cbPtr <= base + cells.Length
        invariant Scan(old(view), base, old(size), 0, react)
               == Resume(calls, Scan(view, cbPtr, left, |calls|, react))
        decreases base + cells.Length - cbPtr
      {
        CellIsLive(view, mem, freeBeg, heap, cbPtr);
        if Load(cbPtr) != 0 && !IsInsideBuff(Load(cbPtr)) {
          var f := heap[Load(cbPtr)];
          ResumeAfterCall(calls, view, cbPtr, left, react);
          var ops := react(|calls|, f);
          calls := calls + [Call(cbPtr, f)];
          PerformAll(ops);
          left := left - 1;
        }
        cbPtr := cbPtr + 1;
      }
    }

    /** The destructor's scan: deletes the callback of every live cell exactly once, early exit included. */
    method Destroy() returns (deleted: seq<int>)
      requires Valid()
      modifies this`heap
      ensures heap == map[]
      ensures forall w :: w in deleted <==> w in old(heap)
      ensures forall i, j :: 0 <= i < j < |deleted| ==> deleted[i] != deleted[j]
    {
      hide LiveFrom, Swept;
      deleted := [];
      ghost var slots: seq<int> := [];
      ghost var s, m, heap0 := view, mem, heap;
      var left := size;
      var cbPtr := base;
      SweptNone(s, m, freeBeg, heap0);
      while left != 0 && cbPtr < base + cells.Length
        invariant base <= cbPtr <= base + cells.Length
        invariant |LiveFrom(s, cbPtr)| == left
        invariant Swept(s, m, heap0, cbPtr, slots, deleted, heap)
        decreases base + cells.Length - cbPtr
      {
        SweepCell(s, m, freeBeg, heap0, cbPtr, slots, deleted, heap);
        var callback := Load(cbPtr);
        if callback != 0 && !IsInsideBuff(callback) {
          deleted := deleted + [callback];
          slots := slots + [cbPtr];
          heap := heap - {callback};
          left := left - 1;
        }
        cbPtr := cbPtr + 1;
      }
      SweptAll(s, m, freeBeg, heap0, cbPtr, slots, deleted, heap);
    }
  }

  /** What the destructor has done when its scan reaches `p`: it deleted the callbacks of the live
      cells `slots` below `p`, in address order, and nothing else. */
  ghost predicate Swept<F(!new)>(s: State<F>, mem: Memory, heap0: map<int, F>, p: int,
                                 slots: seq<int>, deleted: seq<int>, heap: map<int, F>) {
    && |slots| == |deleted|
    && (forall i :: 0 <= i < |slots| ==> slots[i] in s.live && slots[i] < p && slots[i] in mem && deleted[i] == mem[slots[i]])
    && (forall i, j :: 0 <= i < j < |slots| ==> slots[i] != slots[j])
    && (forall q :: q in s.live && q < p ==> q in slots)
    && (forall w :: w in heap <==> w in heap0 && w !in deleted)
  }

  lemma SweptNone<F(!new)>(s: State<F>, mem: Memory, freeBeg: int, heap: map<int, F>)
    requires Represents(s, mem, freeBeg, heap)
    ensures Swept(s, mem, heap, s.lo, [], [], heap)
    ensures |LiveFrom(s, s.lo)| == |s.live|
  {
    assert forall q :: q in s.live ==> s.InBuffer(q);
    assert LiveFrom(s, s.lo) == s.live.Keys;
  }

  lemma SweepCell<F(!new)>(s: State<F>, mem: Memory, freeBeg: int, heap0: map<int, F>, p: int,
                           slots: seq<int>, deleted: seq<int>, heap: map<int, F>)
    requires Represents(s, mem, freeBeg, heap0) && s.InBuffer(p) && Swept(s, mem, heap0, p, slots, deleted, heap)
    ensures p in mem
    ensures if mem[p] != 0 && !s.InBuffer(mem[p]) then
              Swept(s, mem, heap0, p + 1, slots + [p], deleted + [mem[p]], heap - {mem[p]})
              && |LiveFrom(s, p + 1)| == |LiveFrom(s, p)| - 1
            else
              Swept(s, mem, heap0, p + 1, slots, deleted, heap) && LiveFrom(s, p + 1) == LiveFrom(s, p)
  {
    CellIsLive(s, mem, freeBeg, heap0, p);
    assert p in mem;
    hide Represents;
    LiveFromStep(s, p);
    hide LiveFrom;
    assert p !in slots;
  }

  /** At the end of the scan as many different callbacks have been deleted as there were. */
  lemma SweptCount<F(!new)>(s: State<F>, mem: Memory, freeBeg: int, heap0: map<int, F>, p: int,
                            slots: seq<int>, deleted: seq<int>, heap: map<int, F>)
    requires Represents(s, mem, freeBeg, heap0) && Swept(s, mem, heap0, p, slots, deleted, heap)
    requires LiveFrom(s, p) == {} || p >= s.lo + s.cells
    ensures |deleted| == |heap0| && forall w :: w in deleted ==> w in heap0
    ensures forall i, j :: 0 <= i < j < |deleted| ==> deleted[i] != deleted[j]
  {
    assert forall q :: q in s.live && p <= q ==> q in LiveFrom(s, p);
    assert forall q :: q in s.live ==> s.InBuffer(q) && q < p && q in slots;
    assert (set q | q in slots) == s.live.Keys;
    DistinctCount(slots);
    assert |s.live| == |s.live.Keys|;
  }

  lemma SameMembers<F>(deleted: seq<int>, heap: map<int, F>)
    requires |deleted| == |heap| && forall w :: w in deleted ==> w in heap
    requires forall i, j :: 0 <= i < j < |deleted| ==> deleted[i] != deleted[j]
    ensures forall w :: w in deleted <==> w in heap
  {
    var members := set w | w in deleted;
    DistinctCount(deleted);
    assert |heap| == |heap.Keys|;
    SubsetOfSameSize(members, heap.Keys);
    assert forall w :: w in members <==> w in heap;
  }

  lemma SweptAll<F(!new)>(s: State<F>, mem: Memory, freeBeg: int, heap0: map<int, F>, p: int,
                          slots: seq<int>, deleted: seq<int>, heap: map<int, F>)
    requires Represents(s, mem, freeBeg, heap0) && Swept(s, mem, heap0, p, slots, deleted, heap)
    requires LiveFrom(s, p) == {} || p >= s.lo + s.cells
    ensures heap == map[]
    ensures forall w :: w in deleted <==> w in heap0
    ensures forall i, j :: 0 <= i < j < |deleted| ==> deleted[i] != deleted[j]
  {
    SweptCount(s, mem, freeBeg, heap0, p, slots, deleted, heap);
    hide Represents;
    SameMembers(deleted, heap0);
    assert forall w :: w !in heap;
  }

  /** An emission whose first calls have already been made. */
  ghost function Resume<F>(calls: seq<Call<F>>, rest: Emission<F>): Emission<F> {
    Emission(rest.end, calls + rest.calls)
  }

  lemma ResumeAfterCall<F(!new)>(calls: seq<Call<F>>, s: State<F>, p: int, left: nat, react: Reaction<F>)
    requires s.Inv() && left > 0 && p in s.live && p < s.lo + s.cells
    ensures var t := Run(s, react(|calls|, s.live[p]));
            Resume(calls, Scan(s, p, left, |calls|, react))
            == Resume(calls + [Call(p, s.live[p])], Scan(t, p + 1, left - 1, |calls| + 1, react))
  {
    var c := Call(p, s.live[p]);
    var rest := Scan(Run(s, react(|calls|, s.live[p])), p + 1, left - 1, |calls| + 1, react);
    assert calls + ([c] + rest.calls) == (calls + [c]) + rest.calls;
  }
}
