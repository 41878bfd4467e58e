/** The body readers over real buffers: every read returns some non-empty front part of the bytes
    still to come, chosen by the network. A reader that continues itself from a completion handler is
    a method that calls itself. */
module Body {
  import opened Wrappers
  import opened Text
  import opened BodySpec

  /** What `async_read_until` and the parsing of the size line lead to. */
  datatype LineRead = Got(size: nat, remaining: nat) | Bad | BufferFull | Closed

  /** Whether a chunk and its CRLF were taken off the connection; `BufferOverflow` is the exception
      of `streambuf::prepare`, which leaves the handler. */
  datatype Transfer = AllTaken | ConnectionEnded | BufferOverflow

  class BodyReader {
    var wire: string       // bytes the socket has not returned yet
    const closing: Closing // how the connection ends behind them
    var line: string       // chunk_size_streambuf
    const lineMax: nat     // its max_size()
    var body: string       // the request's or response's streambuf
    const bodyMax: nat     // its max_size()
    var calls: seq<Delivery>   // calls of the request callback (client only)

    /** The chunked branch of `read`: the bytes behind the header move to a fresh line buffer whose
        capacity is the larger of 18 and their number. */
    constructor Chunked(leftover: string, wire: string, bodyMax: nat, closing: Closing)
      ensures this.wire == wire && line == leftover && body == "" && calls == []
      ensures this.bodyMax == bodyMax && lineMax == Max(18, |leftover|) && this.closing == closing
    {
      this.wire := wire;
      this.closing := closing;
      line := leftover;
      lineMax := Max(16 + 2, |leftover|);
      body := "";
      this.bodyMax := bodyMax;
      calls := [];
    }

    /** The other branches: the body goes on behind what parsing the head left in the buffer. */
    constructor Plain(left: string, wire: string, bodyMax: nat, closing: Closing)
      ensures this.wire == wire && body == left && calls == []
      ensures this.bodyMax == bodyMax && this.closing == closing
    {
      this.wire := wire;
      this.closing := closing;
      line := "";
      lineMax := 0;
      body := left;
      this.bodyMax := bodyMax;
      calls := [];
    }

    /** `async_read_some` into a buffer with room for `room` more bytes. */
    method ReadSome(room: nat) returns (bytes: string)
      requires wire != "" && room > 0
      modifies this`wire
      ensures bytes != "" && |bytes| <= room && old(wire) == bytes + wire
    {
      assert 1 <= room && 1 <= |wire|;
      var n: nat :| 1 <= n && n <= room && n <= |wire|;
      bytes := wire[..n];
      wire := wire[n..];
    }

    /** `async_read_until(socket, chunk_size_streambuf, "\r\n")`: the position after the delimiter. */
    method ReadUntilCrlf() returns (transferred: Option<nat>)
      requires |line| <= lineMax
      modifies this`wire, this`line
      ensures line + wire == old(line + wire) && |line| <= lineMax
      ensures transferred == CrlfEnd((line + wire)[..Min(lineMax, |line + wire|)])
      ensures transferred == None ==> |line| == Min(lineMax, |line + wire|)
      ensures transferred.Some? ==> transferred.value <= |line| && CrlfEnd(line) == transferred
      ensures transferred.Some? && transferred.value <= |old(line)| ==> line == old(line)
    {
      ghost var stream := line + wire;
      while CrlfEnd(line) == None && |line| < lineMax && wire != ""
        invariant line + wire == stream && |line| <= lineMax
        invariant line == old(line) || CrlfEnd(old(line)) == None
        decreases |wire|
      {
        var bytes := ReadSome(lineMax - |line|);
        line := line + bytes;
      }
      transferred := CrlfEnd(line);
      ghost var front := stream[..Min(lineMax, |stream|)];
      assert line <= front && old(line) <= front;
      CrlfEndPrefix(line, front);
      CrlfEndPrefix(old(line), front);
      if transferred == None {
        assert line == front;
      }
    }

    /** `async_read(socket, buffer, transfer_exactly(n))`; false when the connection ends first.
        Reading stops early, without error, when the buffer is full. */
    method ReadExactly(n: nat, room: nat) returns (bytes: string, ok: bool)
      modifies this`wire
      ensures old(wire) == bytes + wire
      ensures ok <==> |old(wire)| >= Min(n, room)
      ensures ok ==> bytes == old(wire)[..Min(n, room)] && wire == old(wire)[Min(n, room)..]
      ensures !ok ==> bytes == old(wire) && wire == ""
    {
      bytes := "";
      while |bytes| < Min(n, room) && wire != ""
        invariant bytes + wire == old(wire) && |bytes| <= Min(n, room)
        decreases |wire|
      {
        var more := ReadSome(Min(n, room) - |bytes|);
        bytes := bytes + more;
      }
      ok := |bytes| == Min(n, room);
      assert bytes + wire == old(wire);
    }

    /** Extracts the size line after a successful `ReadUntilCrlf`: the text up to the first LF, and
        how many of the transferred bytes remain behind it. */
    method TakeLine(transferred: nat) returns (text: string, remaining: nat)
      requires CrlfEnd(line) == Some(transferred)
      modifies this`line
      ensures '\n' !in text && old(line) == text + "\n" + line && remaining == transferred - (|text| + 1)
      ensures remaining <= |line|
      ensures remaining == 0 <==> '\n' !in old(line)[..transferred - 1]
    {
      var got := GetLine(line).value;
      assert line[transferred - 1] == '\n';
      assert line == got.text + "\n" + got.rest;
      text := got.text;
      assert |text| <= transferred - 1 by {
        assert forall i :: 0 <= i < |text| ==> line[i] == text[i] && text[i] in text;
      }
      remaining := transferred - (|text| + 1);
      if remaining == 0 {
        assert line[..transferred - 1] == text;
      } else {
        assert line[..transferred - 1][|text|] == '\n';
      }
      line := got.rest;
    }

    /** Reads and parses one size line. With a bare LF inside it, some transferred bytes remain. */
    method NextSize() returns (r: LineRead)
      requires |line| <= lineMax
      modifies this`wire, this`line
      ensures |line| <= lineMax
      ensures var stream := old(line + wire);
              match ReadSizeLine(stream, lineMax)
              case BadSize => r == Bad
              case LineTooLong => r == BufferFull
              case Ended => r == Closed
              case Size(n, end, surplus, rest) =>
                && r == Got(n, surplus) && line + wire == rest && surplus <= |line|
                && |line| - surplus == Ahead(old(|line|), end, Min(lineMax, |stream|), [|line| - surplus])
    {
      hide Stoul, CrlfEnd, GetLine;
      ghost var stream := line + wire;
      var transferred := ReadUntilCrlf();
      if transferred == None {
        return if |line| == lineMax then BufferFull else Closed;
      }
      var text, remaining := TakeLine(transferred.value);
      assert stream == text + "\n" + (line + wire);
      GetLineOf(text, line + wire);
      var size := Stoul(text, 16);
      r := if size == None then Bad else Got(size.value, remaining);
    }

    /** Moves buffered data to the body; false where `prepare` throws. */
    method MoveBuffered(toMove: nat) returns (ok: bool)
      requires toMove <= |line| && |body| <= bodyMax
      modifies this`line, this`body
      ensures ok <==> toMove <= bodyMax - |old(body)|
      ensures ok ==> body == old(body) + old(line)[..toMove] && line == old(line)[toMove..]
      ensures !ok ==> unchanged(this)
    {
      if toMove > 0 {
        if |body| + toMove > bodyMax {
          return false;
        }
        body := body + line[..toMove];
        line := line[toMove..];
      }
      ok := true;
    }

    /** Drops the CRLF behind the data when it, or its LF, is still to come; one byte of it may be
        buffered. */
    method DropRest(missing: nat) returns (ok: bool)
      requires 1 <= missing <= 2
      modifies this`wire, this`line
      ensures ok <==> |old(wire)| >= missing
      ensures ok ==> wire == old(wire)[missing..]
                     && line == if missing == 1 && old(line) != "" then old(line)[1..] else old(line)
    {
      if missing == 1 && line != "" {
        line := line[1..];
      }
      var bytes;
      bytes, ok := ReadExactly(missing, 2);
    }

    /** The three branches that move `chunkSize` bytes of data to the body and drop the CRLF behind
        them, `remaining` being what `NextSize` left over. */
    method TakeChunk(chunkSize: nat, remaining: nat) returns (r: Transfer)
      requires remaining <= |line| && |body| <= bodyMax
      modifies this`wire, this`line, this`body
      ensures match TakeFrom(old(line), old(wire), chunkSize, remaining, bodyMax - |old(body)|)
              case Overflow => r == BufferOverflow && unchanged(this)
              case CutOff(data) => r == ConnectionEnded && body == old(body) + data
              case Taken(data, line', wire') => r == AllTaken && body == old(body) + data && line == line' && wire == wire'
    {
      var additional := |line| - remaining;
      var ok := MoveBuffered(Min(chunkSize, additional));
      if !ok {
        return BufferOverflow;
      }
      if chunkSize > additional {
        var bytes;
        bytes, ok := ReadExactly(chunkSize - additional, bodyMax - |body|);
        body := body + bytes;
        if ok {
          ok := DropRest(2);
        }
      } else if 2 + chunkSize > additional {
        ok := DropRest(2 + chunkSize - additional);
      } else {
        line := line[2..];
      }
      r := if ok then AllTaken else ConnectionEnded;
    }

    /** The server's `read_chunked_transfer_encoded`. Its outcome is that of `ServerDecode` for the
        read-ahead there was; `offers` records it. */
    method ServerReadChunked() returns (outcome: ServerOutcome, ghost offers: seq<nat>)
      requires |line| <= lineMax && |body| <= bodyMax
      modifies this`wire, this`line, this`body
      ensures outcome == ServerDecode(old(line), old(wire), lineMax, old(body), bodyMax, offers)
      ensures outcome.Complete? ==>
                && outcome.body == body && outcome.rest == line + wire
                && wire == ServerUnread(old(line), old(wire), lineMax, |old(body)|, bodyMax, offers)
      decreases |line| + |wire|
    {
      hide ReadSizeLine, TakeFrom, ChunkAt, ServerDecode, ServerUnread;
      ghost var l, line0, wire0, body0 := ReadSizeLine(line + wire, lineMax), line, wire, body;
      ghost var later: seq<nat> := [];
      offers := [];
      var got := NextSize();
      match got {
        case BufferFull => outcome := NotFound;
        case Closed => outcome := Lost;
        case Bad => outcome := Malformed;
        case Got(chunkSize, remaining) =>
          ghost var ahead := |line| - remaining;
          offers := [ahead];
          if chunkSize == 0 {
            outcome := Complete(body, line + wire);
            assert (line + wire)[|line|..] == wire;
          } else if (chunkSize + |body|) % ULONG_LIMIT > bodyMax {
            outcome := TooLarge;
          } else {
            ChunkOf(l, line, wire, bodyMax - |body|);
            var taken := TakeChunk(chunkSize, remaining);
            if taken == ConnectionEnded {
              outcome := Lost;
            } else if taken == BufferOverflow {
              outcome := Thrown;
            } else {
              outcome, later := ServerReadChunked();
              offers := [ahead] + later;
            }
          }
          assert offers == [ahead] + later && Later(offers) == later;
      }
      ServerPass(line0, wire0, lineMax, body0, bodyMax, offers, l);
    }

    /** The Content-Length branch of the server's `read`, `body` holding what parsing the head left. */
    method ServerReadContent(length: nat, additional: nat) returns (outcome: ServerOutcome)
      requires |body| <= bodyMax
      modifies this`wire, this`body
      ensures outcome == ServerContent(old(body), additional, old(wire), length, bodyMax)
      ensures outcome.Complete? ==> outcome.body == body && outcome.rest == wire
    {
      if length > bodyMax {
        return TooLarge;
      }
      if length > additional {
        var bytes, ok := ReadExactly(length - additional, bodyMax - |body|);
        if !ok {
          return Lost;
        }
        body := body + bytes;
      }
      outcome := Complete(body, wire);
    }

    /** `session->callback(ec)`: hands the current response to the caller. */
    method Callback(last: bool, error: Error)
      modifies this`calls
      ensures calls == old(calls) + [Delivery(body, last, error)]
    {
      calls := calls + [Delivery(body, last, error)];
    }

    /** Delivers the part so far, and starts an empty one, if the chunk does not fit behind it; then
        takes the chunk. */
    method ClientTakeChunk(chunkSize: nat, remaining: nat) returns (r: Transfer)
      requires remaining <= |line| && |body| <= bodyMax
      modifies this
      ensures var (flushed, kept) := Flush(old(body), chunkSize, bodyMax);
              && calls == old(calls) + flushed
              && match TakeFrom(old(line), old(wire), chunkSize, remaining, bodyMax - |kept|)
                 case Overflow => r == BufferOverflow
                 case CutOff(data) => r == ConnectionEnded && body == kept + data
                 case Taken(data, line', wire') => r == AllTaken && body == kept + data && line == line' && wire == wire'
    {
      hide TakeFrom;
      if (chunkSize + |body|) % ULONG_LIMIT > bodyMax {
        Callback(false, NoError);
        body := "";
      }
      r := TakeChunk(chunkSize, remaining);
    }

    /** The client's `read_chunked_transfer_encoded`: calls the callback as `ClientDecode` says, for the
        read-ahead there was. */
    method ClientReadChunked() returns (end: ClientEnd, ghost offers: seq<nat>)
      requires |line| <= lineMax && |body| <= bodyMax
      modifies this
      ensures var spec := ClientDecode(old(line), old(wire), lineMax, old(body), bodyMax, offers);
              calls == old(calls) + spec.calls && end == spec.end
      ensures end.Finished? ==> end.rest == line + wire
      decreases |line| + |wire|, 0
    {
      hide ReadSizeLine, ClientChunk;
      offers := [];
      ghost var l := ReadSizeLine(line + wire, lineMax);
      var got := NextSize();
      match got {
        case BufferFull =>
          Callback(true, TransportError);
          end := Stopped;
        case Closed =>
          Callback(true, TransportError);
          end := Stopped;
        case Bad =>
          Callback(true, ProtocolError);
          end := Stopped;
        case Got(chunkSize, remaining) =>
          if chunkSize == 0 {
            Callback(true, NoError);
            end := Finished(line + wire);
          } else {
            ghost var ahead, later := |line| - remaining, [];
            end, later := ClientReadChunk(chunkSize, remaining, l);
            offers := [ahead] + later;
            assert Later(offers) == later;
          }
      }
    }

    /** The rest of it, behind a size line: the chunk, and then the next size line. */
    method ClientReadChunk(chunkSize: nat, remaining: nat, ghost l: SizeLine) returns (end: ClientEnd, ghost offers: seq<nat>)
      requires remaining <= |line| <= lineMax && |body| <= bodyMax
      requires l.Size? && l.size == chunkSize && l.surplus == remaining && l.rest == line + wire
      modifies this
      ensures var spec := ClientChunk(l, old(|line|) - remaining, lineMax, old(body), bodyMax, offers);
              calls == old(calls) + spec.calls && end == spec.end
      ensures end.Finished? ==> end.rest == line + wire
      decreases |line| + |wire|, 1
    {
      hide ClientDecode, TakeFrom, ChunkAt, Flush;
      offers := [];
      ghost var calls0, flushed := calls, Flush(body, chunkSize, bodyMax).0;
      ChunkOf(l, line, wire, bodyMax - |Flush(body, chunkSize, bodyMax).1|);
      var taken := ClientTakeChunk(chunkSize, remaining);
      if taken == AllTaken {
        ghost var line', wire', body' := line, wire, body;
        end, offers := ClientReadChunked();
        Appended(calls0, flushed, ClientDecode(line', wire', lineMax, body', bodyMax, offers).calls);
      } else if taken == ConnectionEnded {
        Callback(true, TransportError);
        Appended(calls0, flushed, [Delivery(body, true, TransportError)]);
        end := Stopped;
      } else {
        end := Aborted;
      }
    }

    /** One read of `read_content` with a known length and its handler; `again` is how many bytes the
        next one is to read, if there is one. */
    method ContentRead(remaining: nat) returns (again: Option<nat>)
      requires |body| <= bodyMax
      modifies this`wire, this`body, this`calls
      ensures match ContentPass(old(wire), old(body), remaining, bodyMax)
              case Over(call, rest) => again == None && calls == old(calls) + [call] && wire == rest
              case Again(call, rest, more) => again == Some(more) && calls == old(calls) + [call] && wire == rest && body == ""
    {
      var bytes, ok := ReadExactly(remaining, bodyMax - |body|);
      body := body + bytes;
      again := None;
      if !ok {
        Callback(true, TransportError);
        return;
      }
      if |body| == bodyMax && remaining > |bytes| {
        Callback(false, NoError);
        body := "";
        again := Some(remaining - |bytes|);
      } else {
        Callback(true, NoError);
      }
    }

    /** `read_content` with a known length: a full buffer is delivered and replaced by an empty one. */
    method ReadContent(length: nat)
      requires |body| <= bodyMax && (0 < bodyMax || length == 0)
      modifies this`wire, this`body, this`calls
      ensures var (delivered, rest) := ContentDecode(old(wire), old(body), length, bodyMax);
              calls == old(calls) + delivered && wire == rest
      decreases length, |body|
    {
      hide ContentPass;
      PassShrinks(wire, body, length, bodyMax);
      var again := ContentRead(length);
      if again.Some? {
        ReadContent(again.value);
      }
    }

    /** One read of `read_content` without a length and its handler. */
    method CloseRead() returns (again: bool)
      requires |body| <= bodyMax
      modifies this`wire, this`body, this`calls
      ensures match ClosePass(old(wire), old(body), bodyMax, closing)
              case Over(call, rest) => !again && calls == old(calls) + [call] && wire == rest
              case Again(call, rest, _) => again && calls == old(calls) + [call] && wire == rest && body == ""
    {
      var bytes, full := ReadExactly(bodyMax - |body|, bodyMax - |body|);
      body := body + bytes;
      var error := if full || closing == EndOfFile then NoError else TransportError;
      again := false;
      if error == NoError {
        if |body| == bodyMax {
          Callback(false, error);
          body := "";
          again := true;
        } else {
          Callback(true, error);
        }
      } else {
        Callback(true, error);
      }
    }

    /** `read_content` until the server closes the connection. */
    method ReadContentUntilClose()
      requires 0 < bodyMax && |body| <= bodyMax
      modifies this`wire, this`body, this`calls
      ensures calls == old(calls) + CloseDecode(old(wire), old(body), bodyMax, closing) && wire == ""
      decreases |wire|, |body|
    {
      hide ClosePass, CloseDecode;
      CloseGoesOn(wire, body, bodyMax, closing);
      ghost var calls0, call := calls, ClosePass(wire, body, bodyMax, closing).call;
      var again := CloseRead();
      if again {
        ghost var rest := wire;
        ReadContentUntilClose();
        Appended(calls0, [call], CloseDecode(rest, "", bodyMax, closing));
      }
    }
  }

  lemma Appended(a: seq<Delivery>, b: seq<Delivery>, c: seq<Delivery>)
    ensures (a + b) + c == a + (b + c)
  {
  }

  lemma ChunkOf(l: SizeLine, line: string, wire: string, room: nat)
    requires l.Size? && l.surplus <= |line| && l.rest == line + wire
    ensures ChunkAt(l, |line| - l.surplus, room) == TakeFrom(line, wire, l.size, l.surplus, room)
  {
    hide TakeFrom;
    assert l.rest[..|line|] == line && l.rest[|line|..] == wire;
  }

  lemma CloseGoesOn(stream: string, part: string, max: nat, closing: Closing)
    requires |part| <= max && 0 < max
    ensures var pass := ClosePass(stream, part, max, closing);
            if pass.Over? then CloseDecode(stream, part, max, closing) == [pass.call] && pass.rest == ""
            else
              && CloseDecode(stream, part, max, closing) == [pass.call] + CloseDecode(pass.rest, "", max, closing)
              && (|pass.rest| < |stream| || (|pass.rest| == |stream| && part != ""))
  {
  }

  lemma PassShrinks(stream: string, part: string, remaining: nat, max: nat)
    requires |part| <= max && (0 < max || remaining == 0)
    ensures match ContentPass(stream, part, remaining, max)
            case Over(_, _) => true
            case Again(_, _, more) => more < remaining || (more == remaining && part != "" && 0 < max)
  {
  }
}
