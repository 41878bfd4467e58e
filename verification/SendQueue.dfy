/** The send queue of a server response: `send`, the completion handler of its writes, and the buffer
    that is written when the response is dropped. Handlers are assumed to be still allowed. */
module SendQueue {

  /** A queued buffer, named by the number of its `send`; `callback` is whether one was passed. */
  datatype Item = Item(id: nat, callback: bool)

  datatype WriteStatus = Busy | Succeeded | Broken

  /** A write that has started and whose handler has not run. */
  datatype Write = Write(id: nat, status: WriteStatus)

  datatype OnDelete = Alive | Deleting | Deleted

  datatype State = State(
    queue: seq<Item>,
    writes: seq<Write>,      // writes started and not yet handled
    wire: seq<nat>,          // buffers written in full, in order
    sends: seq<bool>,        // all sends so far: whether each passed a callback
    ready: multiset<nat>,    // callbacks taken from the queue, about to run
    ran: multiset<nat>,      // callbacks that have run
    held: bool,              // somebody besides the handlers refers to the response
    onDelete: OnDelete,
    failed: bool)            // some write has failed

  // ---------- the mutex sections ----------

  /** `send`: appends to the queue and starts a write if the queue was empty. */
  function AfterSend(s: State, callback: bool): State {
    var item := Item(|s.sends|, callback);
    var queue := s.queue + [item];
    s.(queue := queue, sends := s.sends + [callback],
       writes := if |queue| == 1 then s.writes + [Write(queue[0].id, Busy)] else s.writes)
  }

  function Callbacks(queue: seq<Item>): multiset<nat> {
    if queue == [] then multiset{}
    else Callbacks(queue[..|queue| - 1]) + if queue[|queue| - 1].callback then multiset{queue[|queue| - 1].id} else multiset{}
  }

  /** The completion handler: on success the head goes, its callback becomes ready and the next write
      starts; on failure all callbacks become ready and the queue is cleared. */
  function AfterHandler(s: State, w: nat): State
    requires w < |s.writes| && s.queue != []
  {
    var s1 := s.(writes := s.writes[..w] + s.writes[w + 1..]);
    if s.writes[w].status != Broken then
      var queue := s.queue[1..];
      s1.(queue := queue,
          ready := s.ready + Callbacks([s.queue[0]]),
          writes := if queue != [] then s1.writes + [Write(queue[0].id, Busy)] else s1.writes)
    else
      s1.(queue := [], ready := s.ready + Callbacks(s.queue))
  }

  /** The response's part of a state. Writes are started on the socket in the order of `writes`. */
  class Response {
    var sendQueue: seq<Item>
    var writes: seq<Write>       // passed to async_write, their handlers still to run
    var sends: seq<bool>         // whether each send so far passed a callback

    /** The rest of a state, the wire and the callbacks, together with this part. */
    ghost function With(rest: State): State
      reads this
    {
      rest.(queue := sendQueue, writes := writes, sends := sends)
    }

    constructor ()
      ensures With(START) == START
    {
      sendQueue, writes, sends := [], [], [];
    }

    /** `send_from_queue`: starts the write of the head. */
    method SendFromQueue()
      requires sendQueue != []
      modifies this`writes
      ensures writes == old(writes) + [Write(sendQueue[0].id, Busy)]
    {
      writes := writes + [Write(sendQueue[0].id, Busy)];
    }

    /** `send`: whatever the rest of the state, it moves as specified. */
    method Send(callback: bool, ghost rest: State)
      modifies this
      ensures With(rest) == AfterSend(old(With(rest)), callback)
    {
      sendQueue := sendQueue + [Item(|sends|, callback)];
      sends := sends + [callback];
      if |sendQueue| == 1 {
        SendFromQueue();
      }
    }

    /** The callbacks of all queued buffers. */
    method AllCallbacks() returns (callbacks: seq<nat>)
      ensures multiset(callbacks) == Callbacks(sendQueue)
    {
      callbacks := [];
      assert Callbacks([]) == multiset{} && sendQueue[..0] == [];
      hide Callbacks;
      for i := 0 to |sendQueue|
        invariant multiset(callbacks) == Callbacks(sendQueue[..i])
      {
        CallbacksAppend(sendQueue[..i], sendQueue[i]);
        assert sendQueue[..i + 1] == sendQueue[..i] + [sendQueue[i]];
        if sendQueue[i].callback {
          callbacks := callbacks + [sendQueue[i].id];
        }
      }
      assert sendQueue[..|sendQueue|] == sendQueue;
    }

    /** The handler of the write `w`; returns the callbacks it is to call behind the mutex section. The
        state moves as specified, with these callbacks ready. */
    method OnWritten(w: nat, ghost rest: State) returns (callbacks: seq<nat>)
      requires w < |writes| && sendQueue != []
      modifies this
      ensures With(rest.(ready := rest.ready + multiset(callbacks))) == AfterHandler(old(With(rest)), w)
    {
      hide Callbacks;
      var ok := writes[w].status != Broken;
      writes := writes[..w] + writes[w + 1..];
      if ok {
        var item := sendQueue[0];
        sendQueue := sendQueue[1..];
        if |sendQueue| > 0 {
          SendFromQueue();
        }
        callbacks := if item.callback then [item.id] else [];
        OneCallback(item, callbacks);
      } else {
        callbacks := AllCallbacks();
        sendQueue := [];
      }
    }
  }

  lemma CallbacksAppend(queue: seq<Item>, item: Item)
    ensures Callbacks(queue + [item]) == Callbacks(queue) + if item.callback then multiset{item.id} else multiset{}
  {
    assert (queue + [item])[..|queue|] == queue;
  }

  lemma OneCallback(item: Item, callbacks: seq<nat>)
    requires callbacks == if item.callback then [item.id] else []
    ensures multiset(callbacks) == Callbacks([item])
  {
    CallbacksAppend([], item);
    assert [] + [item] == [item];
  }

  // ---------- all interleavings ----------

  datatype Step =
    | DoSend(callback: bool)      // by a holder, or from a running callback
    | NetworkOk(w: nat)           // a write completes
    | NetworkError(w: nat)        // a write fails
    | DoHandle(w: nat)            // its handler's mutex section
    | RunCallback(id: nat)
    | DropLast                    // the last holder lets go
    | Delete                      // the response is destroyed: its buffer is written
    | DeleteWritten

  predicate Enabled(s: State, step: Step) {
    match step
    case DoSend(_) => s.onDelete == Alive && (s.held || s.ready != multiset{})
    case NetworkOk(w) => w < |s.writes| && s.writes[w].status == Busy
    case NetworkError(w) => w < |s.writes| && s.writes[w].status == Busy
    case DoHandle(w) => w < |s.writes| && s.writes[w].status != Busy && s.queue != []
    case RunCallback(id) => id in s.ready
    case DropLast => s.held
    case Delete => s.onDelete == Alive && !s.held && s.writes == [] && s.ready == multiset{}
    case DeleteWritten => s.onDelete == Deleting
  }

  function Apply(s: State, step: Step): State
    requires Enabled(s, step)
  {
    match step
    case DoSend(callback) => AfterSend(s, callback)
    case NetworkOk(w) => s.(writes := s.writes[w := s.writes[w].(status := Succeeded)], wire := s.wire + [s.writes[w].id])
    case NetworkError(w) => s.(writes := s.writes[w := s.writes[w].(status := Broken)], failed := true)
    case DoHandle(w) => AfterHandler(s, w)
    case RunCallback(id) => s.(ready := s.ready - multiset{id}, ran := s.ran + multiset{id})
    case DropLast => s.(held := false)
    case Delete => s.(onDelete := Deleting)
    case DeleteWritten => s.(onDelete := Deleted, wire := s.wire + [|s.sends|])
  }

  const START := State([], [], [], [], multiset{}, multiset{}, true, Alive, false)

  /** All callbacks passed to `send`, each once. */
  function Passed(sends: seq<bool>): multiset<nat> {
    if sends == [] then multiset{}
    else Passed(sends[..|sends| - 1]) + if sends[|sends| - 1] then multiset{|sends| - 1} else multiset{}
  }

  /** Exactly one write in flight, of the queue head, if and only if the queue is not empty. */
  ghost predicate OneWrite(s: State) {
    && (s.queue == [] <==> s.writes == [])
    && (s.queue != [] ==> |s.writes| == 1 && s.writes[0].id == s.queue[0].id)
  }

  /** The head of the queue is on the wire already. */
  predicate HeadWritten(s: State) {
    s.writes != [] && s.writes[0].status == Succeeded
  }

  /** How many buffers the socket is done with, in whatever way. */
  function Settled(s: State): int {
    |s.sends| - |s.queue| + (if HeadWritten(s) then 1 else 0) + if s.onDelete == Deleted then 1 else 0
  }

  /** Buffers go out in the order of their sends, without a gap unless a write failed, and the buffer
      of the dropped response, numbered behind all sends, goes last. */
  ghost predicate InOrder(s: State) {
    && |s.queue| <= |s.sends|
    && (forall i :: 0 <= i < |s.queue| ==> s.queue[i].id == |s.sends| - |s.queue| + i)
    && (forall i, j :: 0 <= i < j < |s.wire| ==> s.wire[i] < s.wire[j])
    && (forall i :: 0 <= i < |s.wire| ==> s.wire[i] < Settled(s))
    && (!s.failed ==> |s.wire| == Settled(s) && forall i :: 0 <= i < |s.wire| ==> s.wire[i] == i)
    && (s.writes != [] && s.writes[0].status == Broken ==> s.failed)
    && (s.onDelete != Alive ==> s.queue == [] && s.ready == multiset{} && !s.held)
    && (s.onDelete == Deleted ==> s.wire != [] && s.wire[|s.wire| - 1] == |s.sends|)
  }

  /** Every callback passed to `send` is queued, ready or has run, in exactly one of these places. */
  ghost predicate EachOnce(s: State) {
    Callbacks(s.queue) + s.ready + s.ran == Passed(s.sends)
  }

  ghost predicate Inv(s: State) {
    OneWrite(s) && InOrder(s) && EachOnce(s)
  }

  lemma SendKeepsOrder(s: State, callback: bool)
    requires OneWrite(s) && InOrder(s) && Enabled(s, DoSend(callback))
    ensures OneWrite(AfterSend(s, callback)) && InOrder(AfterSend(s, callback))
  {
    var t := AfterSend(s, callback);
    assert HeadWritten(t) == HeadWritten(s);
  }

  lemma SendKeepsCallbacks(s: State, callback: bool)
    requires EachOnce(s)
    ensures EachOnce(AfterSend(s, callback))
  {
    var t := AfterSend(s, callback);
    assert t.queue[..|t.queue| - 1] == s.queue && t.sends[..|t.sends| - 1] == s.sends;
    var more := if callback then multiset{|s.sends|} else multiset{};
    assert Callbacks(t.queue) == Callbacks(s.queue) + more;
    assert Passed(t.sends) == Passed(s.sends) + more;
    hide Callbacks, Passed;
    assert (Callbacks(s.queue) + more) + s.ready + s.ran == (Callbacks(s.queue) + s.ready + s.ran) + more;
  }

  lemma {:induction false} CallbacksFront(queue: seq<Item>)
    requires queue != []
    ensures Callbacks(queue) == Callbacks([queue[0]]) + Callbacks(queue[1..])
  {
    var last := |queue| - 1;
    assert [queue[0]][..0] == [];
    if last == 0 {
      assert queue == [queue[0]] && queue[1..] == [];
    } else {
      CallbacksFront(queue[..last]);
      assert queue[1..][..last - 1] == queue[..last][1..];
    }
  }

  lemma HandleKeepsOrder(s: State, w: nat)
    requires OneWrite(s) && InOrder(s) && Enabled(s, DoHandle(w))
    ensures OneWrite(AfterHandler(s, w)) && InOrder(AfterHandler(s, w))
  {
    hide Callbacks;
    var t := AfterHandler(s, w);
    assert w == 0 && s.writes[..0] + s.writes[1..] == [];
    if s.writes[w].status != Broken {
      assert forall i :: 0 <= i < |t.queue| ==> t.queue[i] == s.queue[i + 1];
      assert HeadWritten(s) && !HeadWritten(t);
    }
  }

  lemma HandleKeepsCallbacks(s: State, w: nat)
    requires EachOnce(s) && Enabled(s, DoHandle(w))
    ensures EachOnce(AfterHandler(s, w))
  {
    NoCallbacks();
    CallbacksFront(s.queue);
    hide Callbacks, Passed;
    if s.writes[w].status != Broken {
      Regroup(Callbacks([s.queue[0]]), Callbacks(s.queue[1..]), s.ready, s.ran);
    } else {
      Regroup(Callbacks(s.queue), multiset{}, s.ready, s.ran);
    }
  }

  lemma NoCallbacks()
    ensures Callbacks([]) == multiset{}
  {
  }

  lemma Regroup(a: multiset<nat>, b: multiset<nat>, c: multiset<nat>, d: multiset<nat>)
    ensures b + (c + a) + d == (a + b) + c + d
    ensures a + multiset{} == a
  {
  }

  lemma NetworkKeepsInv(s: State, w: nat, ok: bool)
    requires Inv(s) && w < |s.writes| && s.writes[w].status == Busy
    ensures Inv(Apply(s, if ok then NetworkOk(w) else NetworkError(w)))
  {
    hide Callbacks, Passed;
    assert w == 0 && s.writes[0].id == |s.sends| - |s.queue|;
  }

  lemma RunCallbackKeepsInv(s: State, id: nat)
    requires Inv(s) && id in s.ready
    ensures Inv(Apply(s, RunCallback(id)))
  {
    hide Callbacks, Passed;
    var t := Apply(s, RunCallback(id));
    var queued := Callbacks(s.queue);
    assert s.ready == t.ready + multiset{id};
    assert queued + t.ready + t.ran == queued + s.ready + s.ran;
  }

  lemma DeleteKeepsInv(s: State, step: Step)
    requires Inv(s) && Enabled(s, step) && (step.DropLast? || step.Delete? || step.DeleteWritten?)
    ensures Inv(Apply(s, step))
  {
    hide Callbacks, Passed;
  }

  lemma SendKeepsInv(s: State, callback: bool)
    requires Inv(s) && Enabled(s, DoSend(callback))
    ensures Inv(Apply(s, DoSend(callback)))
  {
    hide OneWrite, InOrder, EachOnce;
    SendKeepsOrder(s, callback);
    SendKeepsCallbacks(s, callback);
  }

  lemma HandleKeepsInv(s: State, w: nat)
    requires Inv(s) && Enabled(s, DoHandle(w))
    ensures Inv(Apply(s, DoHandle(w)))
  {
    hide OneWrite, InOrder, EachOnce;
    HandleKeepsOrder(s, w);
    HandleKeepsCallbacks(s, w);
  }

  lemma ApplyKeepsInv(s: State, step: Step)
    requires Inv(s) && Enabled(s, step)
    ensures Inv(Apply(s, step))
  {
    hide Inv, Apply;
    match step
    case DoSend(callback) => SendKeepsInv(s, callback);
    case NetworkOk(w) => NetworkKeepsInv(s, w, true);
    case NetworkError(w) => NetworkKeepsInv(s, w, false);
    case DoHandle(w) => HandleKeepsInv(s, w);
    case RunCallback(id) => RunCallbackKeepsInv(s, id);
    case _ => DeleteKeepsInv(s, step);
  }

  ghost predicate IsRun(states: seq<State>, steps: seq<Step>) {
    && |states| == |steps| + 1 && states[0] == START
    && forall i :: 0 <= i < |steps| ==> Enabled(states[i], steps[i]) && states[i + 1] == Apply(states[i], steps[i])
  }

  /** Over every interleaving: one write in flight exactly while the queue is not empty, and of its
      head; the wire in send order; every callback in one place. */
  lemma {:induction false} RunKeepsInv(states: seq<State>, steps: seq<Step>, i: nat)
    requires IsRun(states, steps) && i <= |steps|
    ensures Inv(states[i])
  {
    if i > 0 {
      hide Inv, Apply;
      RunKeepsInv(states, steps, i - 1);
      ApplyKeepsInv(states[i - 1], steps[i - 1]);
      assert states[i - 1 + 1] == Apply(states[i - 1], steps[i - 1]);
    }
  }

  lemma {:induction false} PassedOnce(sends: seq<bool>, id: nat)
    ensures Passed(sends)[id] == if id < |sends| && sends[id] then 1 else 0
  {
    if sends != [] {
      PassedOnce(sends[..|sends| - 1], id);
    }
  }

  /** When nothing is queued or about to run, every callback passed to `send` has run exactly once and
      nothing else has; and unless a write failed the wire holds every buffer sent, in order. */
  lemma AtRest(states: seq<State>, steps: seq<Step>, i: nat, id: nat)
    requires IsRun(states, steps) && i <= |steps|
    requires states[i].queue == [] && states[i].ready == multiset{}
    ensures states[i].ran[id] == if id < |states[i].sends| && states[i].sends[id] then 1 else 0
    ensures !states[i].failed && id < |states[i].sends| ==> id < |states[i].wire| && states[i].wire[id] == id
  {
    RunKeepsInv(states, steps, i);
    PassedOnce(states[i].sends, id);
  }

  /** No callback ever runs twice. */
  lemma NeverTwice(states: seq<State>, steps: seq<Step>, i: nat, id: nat)
    requires IsRun(states, steps) && i <= |steps|
    ensures states[i].ran[id] <= 1
  {
    RunKeepsInv(states, steps, i);
    PassedOnce(states[i].sends, id);
    assert (Callbacks(states[i].queue) + states[i].ready + states[i].ran)[id] <= 1;
  }

  /** The handler of a write always finds the queue non-empty, its own buffer at the head, and no
      other write started. */
  lemma HandlerFindsHead(states: seq<State>, steps: seq<Step>, i: nat, w: nat)
    requires IsRun(states, steps) && i <= |steps| && w < |states[i].writes|
    ensures states[i].queue != [] && states[i].queue[0].id == states[i].writes[w].id && |states[i].writes| == 1
  {
    RunKeepsInv(states, steps, i);
  }

  /** The wire carries buffers in the order of their sends, each at most once, and the buffer of the
      dropped response, numbered behind every send, after all of them. */
  lemma WireFollowsSends(states: seq<State>, steps: seq<Step>, i: nat, j: nat, k: nat)
    requires IsRun(states, steps) && i <= |steps| && j < k < |states[i].wire|
    ensures states[i].wire[j] < states[i].wire[k]
    ensures states[i].onDelete == Deleted ==> states[i].wire[|states[i].wire| - 1] == |states[i].sends|
    ensures states[i].onDelete != Deleted ==> states[i].wire[k] < |states[i].sends|
  {
    RunKeepsInv(states, steps, i);
  }

  // ---------- nothing is left behind ----------

  /** Steps from one state on. */
  ghost predicate Path(states: seq<State>, steps: seq<Step>) {
    && |states| == |steps| + 1
    && forall i :: 0 <= i < |steps| ==> Enabled(states[i], steps[i]) && states[i + 1] == Apply(states[i], steps[i])
  }

  lemma {:induction false} FewCallbacks(queue: seq<Item>)
    ensures |Callbacks(queue)| <= |queue|
  {
    if queue != [] {
      FewCallbacks(queue[..|queue| - 1]);
    }
  }

  /** What is still to be done. */
  function Work(s: State): nat {
    4 * |s.queue| + |s.ready| + if s.writes != [] && s.writes[0].status == Busy then 1 else 0
  }

  /** The next step that is due, without another send: a write completes, or its handler runs, or a
      callback. */
  lemma StepDue(s: State) returns (step: Step)
    requires Inv(s) && (s.queue != [] || s.ready != multiset{})
    ensures Enabled(s, step) && !step.DoSend? && Work(Apply(s, step)) < Work(s)
  {
    if s.queue == [] {
      hide Callbacks, Passed;
      var id :| id in s.ready;
      step := RunCallback(id);
      assert |s.ready - multiset{id}| == |s.ready| - 1;
    } else if s.writes[0].status == Busy {
      hide Callbacks, Passed;
      step := NetworkOk(0);
    } else {
      step := DoHandle(0);
      FewCallbacks(s.queue);
      FewCallbacks([s.queue[0]]);
      hide Callbacks, Passed;
      assert s.writes[..0] + s.writes[1..] == [];
    }
  }

  /** From every state that a run can reach, and whatever has failed before, the queue drains and all
      callbacks run, if nothing more is sent. */
  lemma {:induction false} Drains(s: State) returns (states: seq<State>, steps: seq<Step>)
    requires Inv(s)
    ensures Path(states, steps) && |states| == |steps| + 1 && states[0] == s && forall i :: 0 <= i < |steps| ==> !steps[i].DoSend?
    ensures var end := states[|steps|]; end.queue == [] && end.ready == multiset{} && end.sends == s.sends
    decreases Work(s)
  {
    if s.queue == [] && s.ready == multiset{} {
      states, steps := [s], [];
      assert Path(states, steps);
    } else {
      var step := StepDue(s);
      ApplyKeepsInv(s, step);
      SendsStay(s, step);
      hide Inv, Apply, Enabled, Path;
      var more, rest := Drains(Apply(s, step));
      PathLonger(s, step, more, rest);
      states, steps := [s] + more, [step] + rest;
    }
  }

  lemma PathLonger(s: State, step: Step, states: seq<State>, steps: seq<Step>)
    requires Enabled(s, step) && Path(states, steps) && states[0] == Apply(s, step)
    ensures Path([s] + states, [step] + steps) && ([s] + states)[|steps| + 1] == states[|steps|]
  {
    hide Apply, Enabled;
    var longer, more := [s] + states, [step] + steps;
    forall i | 0 <= i < |more| ensures Enabled(longer[i], more[i]) && longer[i + 1] == Apply(longer[i], more[i]) {
      if i > 0 {
        assert longer[i] == states[i - 1] && more[i] == steps[i - 1] && longer[i + 1] == states[i - 1 + 1];
      }
    }
  }

  lemma SendsStay(s: State, step: Step)
    requires Enabled(s, step) && !step.DoSend?
    ensures Apply(s, step).sends == s.sends
  {
  }
}
