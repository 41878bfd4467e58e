/** `sync_request`: the callback that joins the delivered parts of a response and settles the promise
    the caller waits on. */
module SyncRequest {
  import opened Wrappers
  import opened BodySpec

  datatype Failure = MessageSize | Received(error: Error)
  datatype Promise = Pending | Fulfilled(content: string) | Failed(failure: Failure)

  /** What the joined parts amount to, stated on the whole sequence: they are accepted part by part
      until one does not fit, one carries an error, or the last one arrives. */
  function Verdict(soFar: string, calls: seq<Delivery>, max: nat): Promise
    decreases calls
  {
    if calls == [] then Pending
    else
      var c := calls[0];
      if c.error != NoError then Failed(Received(c.error))
      else if |soFar| + |c.content| > max then Failed(MessageSize)
      else if c.last then Fulfilled(soFar + c.content)
      else Verdict(soFar + c.content, calls[1..], max)
  }

  class SyncRequest {
    const max: nat               // response->streambuf.max_size()
    var response: Option<string>
    var promise: Promise
    var settled: nat             // calls of set_value and set_exception
    var stopFutureHandlers: bool
    var closed: bool

    constructor (max: nat)
      ensures this.max == max && response == None && promise == Pending && settled == 0 && !stopFutureHandlers
    {
      this.max := max;
      response := None;
      promise := Pending;
      settled := 0;
      stopFutureHandlers := false;
      closed := false;
    }

    /** The lambda passed to `request`. */
    method OnDelivery(d: Delivery)
      requires |d.content| <= max
      modifies this
      ensures old(stopFutureHandlers) ==>
                promise == old(promise) && settled == old(settled) && stopFutureHandlers
      ensures !old(stopFutureHandlers) ==>
                var soFar := if old(response) == None then "" else old(response).value;
                var verdict := Verdict(soFar, [d], max);
                && (verdict == Pending ==> response == Some(soFar + d.content) && promise == old(promise)
                                           && settled == old(settled) && !stopFutureHandlers)
                && (verdict != Pending ==> promise == verdict && settled == old(settled) + 1)
                && (verdict.Failed? <==> stopFutureHandlers)
    {
      if stopFutureHandlers {
        return;
      }
      var failure: Option<Failure> := if d.error == NoError then None else Some(Received(d.error));
      if response == None {
        response := Some(d.content);
        assert "" + d.content == d.content;
      } else if d.error == NoError {
        if |d.content| + |response.value| > max {
          failure := Some(MessageSize);
          closed := true;
        } else {
          response := Some(response.value + d.content);
        }
      }
      if failure.Some? {
        promise := Failed(failure.value);
        settled := settled + 1;
        stopFutureHandlers := true;
      } else if d.last {
        promise := Fulfilled(response.value);
        settled := settled + 1;
      }
    }

    /** All callbacks of one request, in order: the promise is settled once, or not at all where the
        verdict is still open. */
    method Deliver(calls: seq<Delivery>)
      requires response == None && promise == Pending && settled == 0 && !stopFutureHandlers
      requires OnlyFinalIsLast(calls) && forall i :: 0 <= i < |calls| ==> |calls[i].content| <= max
      modifies this
      ensures promise == Verdict("", calls, max)
      ensures settled == if promise == Pending then 0 else 1
    {
      for i := 0 to |calls|
        invariant stopFutureHandlers ==> settled == 1 && promise == Verdict("", calls, max) != Pending
        invariant !stopFutureHandlers && (i == 0 || !calls[i - 1].last) ==>
                    && settled == 0 && promise == Pending
                    && Verdict("", calls, max) == Verdict(if response == None then "" else response.value, calls[i..], max)
        invariant !stopFutureHandlers && i > 0 && calls[i - 1].last ==>
                    i == |calls| && settled == 1 && promise == Verdict("", calls, max) != Pending
      {
        assert calls[i..][1..] == calls[i + 1..];
        assert calls[i..][0] == calls[i];
        OnDelivery(calls[i]);
      }
    }
  }

  /** No call but the final one is marked as last. */
  ghost predicate OnlyFinalIsLast(calls: seq<Delivery>) {
    forall i :: 0 <= i < |calls| - 1 ==> !calls[i].last
  }

  /** The caller gets the whole body exactly if it fits, and `message_size` otherwise. */
  lemma {:induction false} WholeBodyIffItFits(calls: seq<Delivery>, soFar: string, max: nat)
    requires WellDelivered(calls, max) && |soFar| <= max
    ensures Verdict(soFar, calls, max)
         == if |soFar| + |Content(calls)| <= max then Fulfilled(soFar + Content(calls)) else Failed(MessageSize)
    decreases calls
  {
    var c := calls[0];
    if |calls| > 1 {
      assert calls[0].last <==> 0 == |calls| - 1;
      if |soFar| + |c.content| <= max {
        assert forall i :: 0 <= i < |calls[1..]| ==> calls[1..][i] == calls[i + 1];
        WholeBodyIffItFits(calls[1..], soFar + c.content, max);
        assert soFar + c.content + Content(calls[1..]) == soFar + Content(calls);
      }
    } else {
      assert Content(calls[1..]) == "";
      assert Content(calls) == c.content;
    }
  }

  /** If the last part carries an error, so does the promise, exactly if the parts before it fitted. */
  lemma {:induction false} FinalErrorFails(calls: seq<Delivery>, soFar: string, max: nat, final: Error)
    requires Delivered(calls, max, final) && final != NoError && |soFar| <= max
    ensures Verdict(soFar, calls, max)
         == Failed(if |soFar| + |Content(calls[..|calls| - 1])| <= max then Received(final) else MessageSize)
    decreases calls
  {
    var c, front := calls[0], calls[..|calls| - 1];
    if |calls| > 1 {
      assert c.error == NoError && !c.last;
      assert front[0] == c && front[1..] == calls[1..][..|calls| - 2];
      if |soFar| + |c.content| <= max {
        assert forall i :: 0 <= i < |calls[1..]| ==> calls[1..][i] == calls[i + 1];
        FinalErrorFails(calls[1..], soFar + c.content, max, final);
      }
    }
  }

  lemma {:induction false} FrontIsShorter(calls: seq<Delivery>)
    requires calls != []
    ensures |Content(calls[..|calls| - 1])| <= |Content(calls)|
  {
    if |calls| > 1 {
      assert calls[..|calls| - 1][1..] == calls[1..][..|calls| - 2];
      FrontIsShorter(calls[1..]);
    }
  }

  // ---------- settling ----------

  /** Parts without an error that fit and are not the last. */
  ghost predicate AllPartial(calls: seq<Delivery>, max: nat) {
    forall i :: 0 <= i < |calls| ==> !calls[i].last && calls[i].error == NoError && |calls[i].content| <= max
  }

  /** Such parts, and then the last one, which may carry an error. */
  ghost predicate SettlesOnce(calls: seq<Delivery>, max: nat) {
    && calls != []
    && calls[|calls| - 1].last && |calls[|calls| - 1].content| <= max
    && AllPartial(calls[..|calls| - 1], max)
  }

  /** Parts alone leave the promise open as long as they fit together. */
  lemma {:induction false} PartialVerdict(calls: seq<Delivery>, soFar: string, max: nat)
    requires AllPartial(calls, max) && |soFar| <= max
    ensures OnlyFinalIsLast(calls)
    ensures Verdict(soFar, calls, max) == if |soFar| + |Content(calls)| <= max then Pending else Failed(MessageSize)
    decreases calls
  {
    if calls != [] {
      assert calls[0].error == NoError && !calls[0].last;
      assert forall i :: 0 <= i < |calls[1..]| ==> calls[1..][i] == calls[i + 1];
      if |soFar| + |calls[0].content| <= max {
        PartialVerdict(calls[1..], soFar + calls[0].content, max);
      }
    }
  }

  /** With the last one the promise is settled. */
  lemma {:induction false} LastSettles(calls: seq<Delivery>, soFar: string, max: nat)
    requires SettlesOnce(calls, max)
    ensures OnlyFinalIsLast(calls) && Verdict(soFar, calls, max) != Pending
    decreases calls
  {
    assert forall i :: 0 <= i < |calls| - 1 ==> calls[i] == calls[..|calls| - 1][i];
    if |calls| > 1 {
      assert calls[1..][..|calls| - 2] == calls[..|calls| - 1][1..];
      LastSettles(calls[1..], soFar + calls[0].content, max);
    }
  }

  lemma SettlesAfter(flushed: seq<Delivery>, calls: seq<Delivery>, max: nat)
    requires AllPartial(flushed, max)
    ensures SettlesOnce(calls, max) ==> SettlesOnce(flushed + calls, max)
    ensures AllPartial(calls, max) ==> AllPartial(flushed + calls, max)
  {
    if SettlesOnce(calls, max) {
      assert (flushed + calls)[..|flushed + calls| - 1] == flushed + calls[..|calls| - 1];
    }
  }

  lemma OneCallSettles(content: string, max: nat, error: Error)
    requires |content| <= max
    ensures SettlesOnce([Delivery(content, true, error)], max)
  {
  }

  lemma FlushIsPartial(part: string, n: nat, max: nat)
    requires |part| <= max
    ensures AllPartial(Flush(part, n, max).0, max)
  {
  }

  /** Whatever the server sends and however it arrives, the calls of the chunked reader settle the
      promise of a synchronous request once; an aborted reader never makes the last call. */
  lemma {:induction false} ChunkedSettles(line: string, wire: string, cap: nat, part: string, max: nat, offers: seq<nat>)
    requires |line| <= cap && |part| <= max
    ensures var outcome := ClientDecode(line, wire, cap, part, max, offers);
            if outcome.end == Aborted then AllPartial(outcome.calls, max) else SettlesOnce(outcome.calls, max)
    decreases |line| + |wire|
  {
    hide ReadSizeLine, ChunkAt, AllPartial, SettlesOnce, ClientDecode;
    var l := ReadSizeLine(line + wire, cap);
    ClientPass(line, wire, cap, part, max, offers, l);
    forall error: Error ensures SettlesOnce([Delivery(part, true, error)], max) {
      OneCallSettles(part, max, error);
    }
    if l.Size? && l.size > 0 {
      var (flushed, kept) := Flush(part, l.size, max);
      FlushIsPartial(part, l.size, max);
      var t := ChunkAt(l, Ahead(|line|, l.end, Min(cap, |line + wire|), offers), max - |kept|);
      if t.CutOff? {
        OneCallSettles(kept + t.data, max, TransportError);
        SettlesAfter(flushed, [Delivery(kept + t.data, true, TransportError)], max);
      } else if t.Taken? {
        ChunkedSettles(t.line, t.wire, cap, kept + t.data, max, Later(offers));
        SettlesAfter(flushed, ClientDecode(t.line, t.wire, cap, kept + t.data, max, Later(offers)).calls, max);
      }
    }
  }

  lemma {:induction false} ContentSettlesOnce(stream: string, part: string, remaining: nat, max: nat)
    requires |part| <= max && (0 < max || remaining == 0)
    ensures SettlesOnce(ContentDecode(stream, part, remaining, max).0, max)
    decreases remaining, |part|
  {
    match ContentPass(stream, part, remaining, max)
    case Over(_, _) =>
    case Again(call, rest, more) =>
      ContentSettlesOnce(rest, "", more, max);
      SettlesAfter([call], ContentDecode(rest, "", more, max).0, max);
  }

  lemma {:induction false} CloseSettlesOnce(stream: string, part: string, max: nat, closing: Closing)
    requires |part| <= max && 0 < max
    ensures SettlesOnce(CloseDecode(stream, part, max, closing), max)
    decreases |stream|, |part|
  {
    match ClosePass(stream, part, max, closing)
    case Over(_, _) =>
    case Again(call, rest, _) =>
      CloseSettlesOnce(rest, "", max, closing);
      SettlesAfter([call], CloseDecode(rest, "", max, closing), max);
  }
}
